/** The duck-jump state machine: one call of `Run` per user command reads
    the player's situation and rewrites the duck and jump buttons. The
    hull-trace checks (whether a jump is worth doing, whether unducking
    would snap onto a ledge) are boolean inputs. */
module DuckJump {

  const STANDING_HULL_HEIGHT: real := 82.0
  const DUCKED_HULL_HEIGHT: real := 62.0
  const HULL_HEIGHT_DIFF: real := STANDING_HULL_HEIGHT - DUCKED_HULL_HEIGHT
  const UNDUCK_TICKS: int := 14
  /** A state held for more than this many ticks is abandoned. */
  const STATE_TIMEOUT_TICKS: int := 33

  datatype State = Idle | Prepare | CTap | Jump | Ascending | Descending

  datatype Machine = Machine(state: State, lastState: State, startTick: int)

  const Initial: Machine := Machine(Idle, Idle, 0)

  /** The two buttons of the user command the machine touches. */
  datatype Buttons = Buttons(duck: bool, jump: bool)

  /** What one call observes. `alive` stands for a present, living local
      player; `shouldJump` and `groundSnap` are the trace-based checks. */
  datatype Inputs = Inputs(
    alive: bool, enabled: bool, tick: int,
    onGround: bool, intent: bool, shouldJump: bool,
    vz: real, ledgeGrab: bool, groundSnap: bool, autoCTap: bool)

  function Reset(m: Machine): (r: Machine)
    ensures r.state == Idle && r.lastState == Idle && r.startTick == 0
  {
    Initial
  }

  /** Arms a jump from rest; in any other state it does nothing. */
  function ForceJump(m: Machine): (r: Machine)
    ensures m.state == Idle ==> r == m.(state := Prepare)
    ensures m.state != Idle ==> r == m
  {
    if m.state == Idle then m.(state := Prepare) else m
  }

  /** The state after the timeout check and the change tracking, which is
      the one the call then acts on. */
  function Observe(m: Machine, tick: int): (r: Machine)
    ensures r.lastState == r.state
    ensures m.startTick > 0 && tick - m.startTick > STATE_TIMEOUT_TICKS ==> r.state == Idle
    ensures !(m.startTick > 0 && tick - m.startTick > STATE_TIMEOUT_TICKS) ==> r.state == m.state
  {
    var timedOut := m.startTick > 0 && tick - m.startTick > STATE_TIMEOUT_TICKS;
    var m1 := if timedOut then m.(state := Idle, startTick := 0) else m;
    if m1.lastState != m1.state then m1.(startTick := tick, lastState := m1.state) else m1
  }

  /** The jump to take when a jump is wanted: via a crouch-tap or straight. */
  function Launch(obs: Inputs): State {
    if obs.autoCTap then CTap else Jump
  }

  /** One call: either a reset (no living player, feature off, jump not
      held) or one transition with its button effects. */
  function Run(m: Machine, obs: Inputs, b: Buttons): (r: (Machine, Buttons))
  {
    if !obs.alive || !obs.enabled || !b.jump then (Reset(m), b)
    else
      var o := Observe(m, obs.tick);
      match o.state
      case Idle =>
        if obs.onGround && obs.intent && obs.shouldJump then (o.(state := Launch(obs)), b)
        else (o, b)
      case Prepare => (o.(state := CTap), Buttons(true, false))
      case CTap => (o.(state := Jump), Buttons(true, false))
      case Jump => (o.(state := Ascending), Buttons(false, true))
      case Ascending =>
        if obs.vz <= 0.0 then (o.(state := Descending), b.(duck := true))
        else if obs.ledgeGrab && obs.groundSnap then (o.(state := Descending), b.(duck := false))
        else (o, b.(duck := true))
      case Descending =>
        var rejump := !obs.onGround && obs.intent && obs.shouldJump;
        var b1 := if rejump then Buttons(false, true) else b.(duck := false);
        var s1 := if rejump then Launch(obs) else Descending;
        (o.(state := if obs.onGround then Idle else s1), b1)
  }

  /** The state `Run` acts on for these inputs. */
  function Acting(m: Machine, tick: int): State {
    Observe(m, tick).state
  }

  /** The transition table, written independently of `Run`. */
  function Successors(s: State): (r: set<State>) {
    match s
    case Idle => {Idle, CTap, Jump}
    case Prepare => {CTap}
    case CTap => {Jump}
    case Jump => {Ascending}
    case Ascending => {Ascending, Descending}
    case Descending => {Descending, Idle, CTap, Jump}
  }

  /** Without a reset, the next state is a successor of the acting state in
      the table, and the change tracking remembers the acting state. */
  lemma RunFollowsTable(m: Machine, obs: Inputs, b: Buttons)
    requires obs.alive && obs.enabled && b.jump
    ensures var r := Run(m, obs, b);
      && r.0.state in Successors(Acting(m, obs.tick))
      && r.0.lastState == Acting(m, obs.tick)
  {
  }

  /** Every entry of the table is taken by some call. */
  lemma TableIsTight(m: Machine, s: State, t: State)
    requires m.startTick == 0 && m.state == s && t in Successors(s)
    ensures exists obs: Inputs, b: Buttons :: Run(m, obs, b).0.state == t
  {
    var ground := Inputs(true, true, 1, true, true, true, 0.0, false, false, false);
    var held := Buttons(false, true);
    if s == Idle {
      if t == Idle {
        assert Run(m, ground.(intent := false), held).0.state == t;
      } else if t == CTap {
        assert Run(m, ground.(autoCTap := true), held).0.state == t;
      } else {
        assert Run(m, ground, held).0.state == t;
      }
    } else if s == Ascending {
      if t == Ascending {
        assert Run(m, ground.(vz := 1.0), held).0.state == t;
      } else {
        assert Run(m, ground, held).0.state == t;
      }
    } else if s == Descending {
      var air := ground.(onGround := false);
      if t == Descending {
        assert Run(m, air.(intent := false), held).0.state == t;
      } else if t == Idle {
        assert Run(m, ground, held).0.state == t;
      } else if t == CTap {
        assert Run(m, air.(autoCTap := true), held).0.state == t;
      } else {
        assert Run(m, air, held).0.state == t;
      }
    } else {
      assert Run(m, ground, held).0.state == t;
    }
  }

  /** A failed guard resets the bookkeeping and leaves the buttons alone. */
  lemma GuardResets(m: Machine, obs: Inputs, b: Buttons)
    requires !obs.alive || !obs.enabled || !b.jump
    ensures Run(m, obs, b) == (Initial, b)
  {
  }

  /** The fixed part of a jump: one step per call from PREPARE to
      ASCENDING, unless the timeout fires first. */
  lemma FixedProgression(m: Machine, obs: Inputs, b: Buttons)
    requires obs.alive && obs.enabled && b.jump
    requires !(m.startTick > 0 && obs.tick - m.startTick > STATE_TIMEOUT_TICKS)
    ensures m.state == Prepare ==> Run(m, obs, b).0.state == CTap
    ensures m.state == CTap ==> Run(m, obs, b).0.state == Jump
    ensures m.state == Jump ==> Run(m, obs, b).0.state == Ascending
  {
  }

  /** The buttons each state leaves pressed. */
  lemma ButtonEffects(m: Machine, obs: Inputs, b: Buttons)
    requires obs.alive && obs.enabled && b.jump
    ensures var s := Acting(m, obs.tick);
      var out := Run(m, obs, b).1;
      && (s == Prepare || s == CTap ==> out == Buttons(true, false))
      && (s == Jump ==> out == Buttons(false, true))
      && (s == Ascending ==> out.jump && (out.duck <==> !(obs.vz > 0.0 && obs.ledgeGrab && obs.groundSnap)))
      && (s == Descending ==> out.jump && !out.duck)
      && (s == Idle ==> out == b)
  {
  }

  /** ASCENDING ends when upward speed is gone, or early when a ledge grab
      predicts a ground snap. */
  lemma AscendingEnds(m: Machine, obs: Inputs, b: Buttons)
    requires obs.alive && obs.enabled && b.jump && Acting(m, obs.tick) == Ascending
    ensures Run(m, obs, b).0.state == Descending <==> obs.vz <= 0.0 || (obs.ledgeGrab && obs.groundSnap)
  {
  }

  /** DESCENDING ends on the ground; in the air it re-launches only when a
      jump is wanted. */
  lemma DescendingEnds(m: Machine, obs: Inputs, b: Buttons)
    requires obs.alive && obs.enabled && b.jump && Acting(m, obs.tick) == Descending
    ensures obs.onGround ==> Run(m, obs, b).0.state == Idle
    ensures !obs.onGround ==> (Run(m, obs, b).0.state != Descending <==> obs.intent && obs.shouldJump)
    ensures !obs.onGround && obs.intent && obs.shouldJump ==> Run(m, obs, b).0.state == Launch(obs)
  {
  }

  /** IDLE is left only from the ground with movement intent and a jump
      worth taking. */
  lemma IdleLeaves(m: Machine, obs: Inputs, b: Buttons)
    requires obs.alive && obs.enabled && b.jump && Acting(m, obs.tick) == Idle
    ensures Run(m, obs, b).0.state != Idle <==> obs.onGround && obs.intent && obs.shouldJump
    ensures Run(m, obs, b).0.state != Idle ==> Run(m, obs, b).0.state == Launch(obs)
  {
  }

  /** A state entered at a positive tick and held past the timeout is
      dropped: the call acts as if idle and the new state is one IDLE can
      reach. */
  lemma Timeout(m: Machine, obs: Inputs, b: Buttons)
    requires obs.alive && obs.enabled && b.jump
    requires m.startTick > 0 && obs.tick - m.startTick > STATE_TIMEOUT_TICKS
    ensures Acting(m, obs.tick) == Idle
    ensures Run(m, obs, b).0.state in {Idle, CTap, Jump}
  {
  }

  /** The change tracking stamps the tick whenever the acting state is new. */
  lemma ChangeStamped(m: Machine, obs: Inputs, b: Buttons)
    requires obs.alive && obs.enabled && b.jump
    requires !(m.startTick > 0 && obs.tick - m.startTick > STATE_TIMEOUT_TICKS)
    ensures m.lastState != m.state ==> Run(m, obs, b).0.startTick == obs.tick
    ensures m.lastState == m.state ==> Run(m, obs, b).0.startTick == m.startTick
  {
  }
}
