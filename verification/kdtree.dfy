/** The spatial index over the nav mesh (`CNavMeshKDTree`): a 2D tree that
    splits alternately on x and y at the median area, whose node boxes are
    the union of the boxes of the areas below them. Areas are handles into
    the mesh sequence; the node array and its -1 links become an inductive
    tree. */
module KdTree {
  import opened Util
  import opened Nav

  const BBOX_Z_PADDING: real := 128.0

  datatype AABB = AABB(min: Vec3, max: Vec3)

  /** The default box: inverted at the float limits, so it is empty and
      is absorbed by any expansion. */
  const EmptyBox: AABB := AABB(Vec3(FLT_MAX, FLT_MAX, FLT_MAX), Vec3(-FLT_MAX, -FLT_MAX, -FLT_MAX))

  predicate InAABB(p: Vec3, b: AABB) {
    && p.x >= b.min.x && p.x <= b.max.x
    && p.y >= b.min.y && p.y <= b.max.y
    && p.z >= b.min.z && p.z <= b.max.z
  }

  lemma EmptyBoxHoldsNothing(p: Vec3)
    requires -FLT_MAX <= p.x <= FLT_MAX
    ensures !InAABB(p, EmptyBox)
  {
  }

  /** `inner` lies inside `outer`, corner by corner. */
  predicate Includes(outer: AABB, inner: AABB) {
    && outer.min.x <= inner.min.x && outer.min.y <= inner.min.y && outer.min.z <= inner.min.z
    && inner.max.x <= outer.max.x && inner.max.y <= outer.max.y && inner.max.z <= outer.max.z
  }

  /** Corners within the float range. */
  predicate Bounded(b: AABB) {
    && -FLT_MAX <= b.min.x <= FLT_MAX && -FLT_MAX <= b.min.y <= FLT_MAX && -FLT_MAX <= b.min.z <= FLT_MAX
    && -FLT_MAX <= b.max.x <= FLT_MAX && -FLT_MAX <= b.max.y <= FLT_MAX && -FLT_MAX <= b.max.z <= FLT_MAX
  }

  /** Component-wise min of the mins and max of the maxes. */
  function Expand(b: AABB, other: AABB): (r: AABB)
    ensures Includes(r, b) && Includes(r, other)
    ensures r.min.x == b.min.x || r.min.x == other.min.x
    ensures r.max.z == b.max.z || r.max.z == other.max.z
  {
    AABB(Vec3(Min(b.min.x, other.min.x), Min(b.min.y, other.min.y), Min(b.min.z, other.min.z)),
         Vec3(Max(b.max.x, other.max.x), Max(b.max.y, other.max.y), Max(b.max.z, other.max.z)))
  }

  /** The expansion is the least box holding both. */
  lemma ExpandLeast(b: AABB, other: AABB, c: AABB)
    requires Includes(c, b) && Includes(c, other)
    ensures Includes(c, Expand(b, other))
  {
  }

  lemma ExpandByEmpty(b: AABB)
    requires Bounded(b)
    ensures Expand(b, EmptyBox) == b
  {
  }

  lemma ExpandSelf(b: AABB)
    ensures Expand(b, b) == b
  {
  }

  lemma IncludesTrans(a: AABB, b: AABB, c: AABB)
    requires Includes(a, b) && Includes(b, c)
    ensures Includes(a, c)
  {
  }

  lemma InIncluded(p: Vec3, inner: AABB, outer: AABB)
    requires InAABB(p, inner) && Includes(outer, inner)
    ensures InAABB(p, outer)
  {
  }

  /** An area's box: its x/y footprint, its z band padded by 128 each way. */
  function AreaBox(a: Area): (b: AABB)
    ensures b.min == Vec3(a.nw.x, a.nw.y, a.minZ - BBOX_Z_PADDING)
    ensures b.max == Vec3(a.se.x, a.se.y, a.maxZ + BBOX_Z_PADDING)
  {
    AABB(Vec3(a.nw.x, a.nw.y, a.minZ - BBOX_Z_PADDING), Vec3(a.se.x, a.se.y, a.maxZ + BBOX_Z_PADDING))
  }

  /** The flat containment test used by the index (no tilt, no tolerance). */
  predicate IsPointInNavArea(p: Vec3, a: Area) {
    if p.x < a.nw.x || p.x > a.se.x then false
    else if p.y < a.nw.y || p.y > a.se.y then false
    else if p.z < a.minZ || p.z > a.maxZ then false
    else true
  }

  lemma InNavAreaInBox(p: Vec3, a: Area)
    requires IsPointInNavArea(p, a)
    ensures InAABB(p, AreaBox(a))
  {
  }

  /** The index's test agrees with the area's own `Contains`. */
  lemma InNavAreaIsContains(p: Vec3, a: Area)
    ensures IsPointInNavArea(p, a) <==> Contains(a, p)
  {
    ContainsBounds(a, p);
  }

  function Gap(lo: real, hi: real, q: real): (d: real)
    ensures d >= 0.0
    ensures d == 0.0 <==> lo <= q <= hi
  {
    Max(0.0, Max(lo - q, q - hi))
  }

  /** Squared distance from a point to a box; zero inside. */
  function GetAABBDistanceSq(p: Vec3, b: AABB): real {
    Sq(Gap(b.min.x, b.max.x, p.x)) + Sq(Gap(b.min.y, b.max.y, p.y)) + Sq(Gap(b.min.z, b.max.z, p.z))
  }

  lemma SquareNonNeg(d: real)
    requires d >= 0.0
    ensures Sq(d) >= 0.0
  {
  }

  /** A positive gap has a positive square. */
  lemma SquarePos(d: real)
    requires d > 0.0
    ensures Sq(d) > 0.0
  {
    if d >= 1.0 {
      MulNonNeg(d, d - 1.0);
      assert d * (d - 1.0) == d * d - d;
    } else {
      var e := 1.0 / d;
      assert d * e == 1.0;
      MulNonNeg(d * d, e - 1.0);
      assert d * d * (e - 1.0) == d * d * e - d * d;
    }
  }

  /** The distance is never negative, and is zero exactly for points in
      the box. */
  lemma BoxDistanceZero(p: Vec3, b: AABB)
    ensures GetAABBDistanceSq(p, b) >= 0.0
    ensures InAABB(p, b) ==> GetAABBDistanceSq(p, b) == 0.0
    ensures !InAABB(p, b) ==> GetAABBDistanceSq(p, b) > 0.0
  {
    var gx, gy, gz := Gap(b.min.x, b.max.x, p.x), Gap(b.min.y, b.max.y, p.y), Gap(b.min.z, b.max.z, p.z);
    SquareNonNeg(gx);
    SquareNonNeg(gy);
    SquareNonNeg(gz);
    if !InAABB(p, b) {
      if gx > 0.0 {
        SquarePos(gx);
      } else if gy > 0.0 {
        SquarePos(gy);
      } else {
        SquarePos(gz);
      }
    }
  }

  lemma SquareMono(d: real, e: real)
    requires 0.0 <= d && (d <= e || d <= -e)
    ensures Sq(d) <= Sq(e)
  {
    var m := if e >= 0.0 then e else -e;
    assert e * e == m * m;
    MulNonNeg(m - d, m + d);
    assert (m - d) * (m + d) == m * m - d * d;
  }

  lemma GapBelow(lo: real, hi: real, q: real, c: real)
    requires lo <= c <= hi
    ensures Sq(Gap(lo, hi, q)) <= Sq(q - c)
  {
    var d := Gap(lo, hi, q);
    if q < lo { assert d == lo - q && d <= c - q; }
    else if q > hi { assert d == q - hi && d <= q - c; }
    SquareMono(d, q - c);
  }

  /** No point of a box is closer than the box itself. */
  lemma BoxDistanceBelow(p: Vec3, b: AABB, c: Vec3)
    requires InAABB(c, b)
    ensures GetAABBDistanceSq(p, b) <= DistSq(p, c)
  {
    GapBelow(b.min.x, b.max.x, p.x, c.x);
    GapBelow(b.min.y, b.max.y, p.y, c.y);
    GapBelow(b.min.z, b.max.z, p.z, c.z);
  }

  // ---------------------------------------------------------------------
  // The tree and its construction

  datatype Tree = Nil | Node(area: nat, box: AABB, split: real, axis: nat, left: Tree, right: Tree)

  predicate ValidHandles(mesh: seq<Area>, hs: seq<nat>) {
    forall i | 0 <= i < |hs| :: hs[i] < |mesh|
  }

  /** Every node names an area of the mesh. */
  predicate ValidTree(mesh: seq<Area>, t: Tree) {
    match t
    case Nil => true
    case Node(area, _, _, _, left, right) => area < |mesh| && ValidTree(mesh, left) && ValidTree(mesh, right)
  }

  /** The partition key: twice the area's centre on the axis (nw + se). */
  function Key(mesh: seq<Area>, h: nat, axis: nat): real
    requires h < |mesh|
  {
    if axis == 0 then mesh[h].nw.x + mesh[h].se.x else mesh[h].nw.y + mesh[h].se.y
  }

  predicate SortedBy(mesh: seq<Area>, hs: seq<nat>, axis: nat)
    requires ValidHandles(mesh, hs)
  {
    forall i, j | 0 <= i < j < |hs| :: Key(mesh, hs[i], axis) <= Key(mesh, hs[j], axis)
  }

  /** Whatever is drawn from the tail of a sorted sequence, or is a handle
      with a larger key, has a key at least that of the head. */
  lemma HeadBelow(mesh: seq<Area>, h: nat, hs: seq<nat>, axis: nat, rest: seq<nat>)
    requires h < |mesh| && ValidHandles(mesh, hs) && SortedBy(mesh, hs, axis) && |hs| > 0
    requires Key(mesh, hs[0], axis) <= Key(mesh, h, axis)
    requires multiset(rest) == multiset(hs[1..]) + multiset{h}
    ensures forall i | 0 <= i < |rest| :: rest[i] < |mesh| && Key(mesh, hs[0], axis) <= Key(mesh, rest[i], axis)
  {
    forall i | 0 <= i < |rest| ensures rest[i] < |mesh| && Key(mesh, hs[0], axis) <= Key(mesh, rest[i], axis) {
      assert rest[i] in multiset(rest);
      if rest[i] != h {
        assert rest[i] in multiset(hs[1..]);
        var j :| 0 <= j < |hs[1..]| && hs[1..][j] == rest[i];
        assert hs[j + 1] == rest[i];
      }
    }
  }

  /** Places `h` before the first handle whose key is at least its own. */
  function Insert(mesh: seq<Area>, h: nat, hs: seq<nat>, axis: nat): (r: seq<nat>)
    requires h < |mesh| && ValidHandles(mesh, hs)
    ensures multiset(r) == multiset(hs) + multiset{h} && |r| == |hs| + 1
    ensures ValidHandles(mesh, r)
    decreases |hs|
  {
    if |hs| == 0 then [h]
    else if Key(mesh, h, axis) <= Key(mesh, hs[0], axis) then [h] + hs
    else
      assert hs == [hs[0]] + hs[1..];
      [hs[0]] + Insert(mesh, h, hs[1..], axis)
  }

  /** Insertion keeps a sequence sorted. */
  lemma {:induction false} InsertSorted(mesh: seq<Area>, h: nat, hs: seq<nat>, axis: nat)
    requires h < |mesh| && ValidHandles(mesh, hs) && SortedBy(mesh, hs, axis)
    ensures SortedBy(mesh, Insert(mesh, h, hs, axis), axis)
    decreases |hs|
  {
    if |hs| > 0 && Key(mesh, hs[0], axis) < Key(mesh, h, axis) {
      var rest := Insert(mesh, h, hs[1..], axis);
      assert hs == [hs[0]] + hs[1..];
      InsertSorted(mesh, h, hs[1..], axis);
      HeadBelow(mesh, h, hs, axis, rest);
    }
  }

  /** Orders handles by key. `std::nth_element` may leave any arrangement
      that is partitioned around the median; a full sort is one of them. */
  function SortByKey(mesh: seq<Area>, hs: seq<nat>, axis: nat): (r: seq<nat>)
    requires ValidHandles(mesh, hs)
    ensures multiset(r) == multiset(hs) && |r| == |hs|
    ensures ValidHandles(mesh, r)
    decreases |hs|
  {
    if |hs| == 0 then []
    else
      assert hs == [hs[0]] + hs[1..];
      Insert(mesh, hs[0], SortByKey(mesh, hs[1..], axis), axis)
  }

  lemma {:induction false} SortByKeySorted(mesh: seq<Area>, hs: seq<nat>, axis: nat)
    requires ValidHandles(mesh, hs)
    ensures SortedBy(mesh, SortByKey(mesh, hs, axis), axis)
    decreases |hs|
  {
    if |hs| > 0 {
      SortByKeySorted(mesh, hs[1..], axis);
      InsertSorted(mesh, hs[0], SortByKey(mesh, hs[1..], axis), axis);
    }
  }

  /** The subtree box: the node's own area box expanded by each child's box. */
  function SubtreeBox(a: Area, left: Tree, right: Tree): (b: AABB)
    ensures Includes(b, AreaBox(a))
    ensures left.Node? ==> Includes(b, left.box)
    ensures right.Node? ==> Includes(b, right.box)
  {
    var b0 := AreaBox(a);
    var b1 := if left.Node? then Expand(b0, left.box) else b0;
    var b2 := if right.Node? then Expand(b1, right.box) else b1;
    b2
  }

  /** Builds the subtree over `hs`: partition on the axis of this depth,
      then make the node. */
  function BuildRecursive(mesh: seq<Area>, hs: seq<nat>, depth: nat): (t: Tree)
    requires ValidHandles(mesh, hs)
    ensures ValidTree(mesh, t)
    ensures t == Nil <==> |hs| == 0
    decreases |hs|, 1
  {
    if |hs| == 0 then Nil else BuildNode(mesh, SortByKey(mesh, hs, depth % 2), depth)
  }

  /** The node over partitioned handles: the median is the node's area and
      its key the split; the handles before it and after it form the two
      subtrees one level deeper. */
  function BuildNode(mesh: seq<Area>, sorted: seq<nat>, depth: nat): (t: Tree)
    requires ValidHandles(mesh, sorted) && |sorted| > 0
    ensures ValidTree(mesh, t) && t.Node?
    decreases |sorted|, 0
  {
    var axis := depth % 2;
    var median := |sorted| / 2;
    var left := BuildRecursive(mesh, sorted[..median], depth + 1);
    var right := BuildRecursive(mesh, sorted[median + 1..], depth + 1);
    Node(sorted[median], SubtreeBox(mesh[sorted[median]], left, right),
         Key(mesh, sorted[median], axis) * 0.5, axis, left, right)
  }

  function Range(n: nat): (r: seq<nat>)
    ensures |r| == n && forall i | 0 <= i < n :: r[i] == i
  {
    if n == 0 then [] else Range(n - 1) + [n - 1]
  }

  /** The tree over every area of the mesh, in mesh order; empty mesh, no root. */
  function Build(mesh: seq<Area>): (t: Tree)
    ensures ValidTree(mesh, t)
    ensures |mesh| == 0 <==> t == Nil
  {
    BuildRecursive(mesh, Range(|mesh|), 0)
  }

  function Handles(t: Tree): seq<nat> {
    match t
    case Nil => []
    case Node(area, _, _, _, left, right) => Handles(left) + [area] + Handles(right)
  }

  lemma {:induction false} HandlesValid(mesh: seq<Area>, t: Tree)
    requires ValidTree(mesh, t)
    ensures forall h | h in Handles(t) :: h < |mesh|
    decreases t
  {
    if t.Node? {
      HandlesValid(mesh, t.left);
      HandlesValid(mesh, t.right);
    }
  }

  // ---------------------------------------------------------------------
  // Structure of the built tree

  /** What `BuildRecursive` promises of each node: the axis alternates with
      depth, the split is the node area's centre on the axis, keys on the
      left are at most the node's key and keys on the right at least, and
      the box is the union of the area box and the children's boxes. */
  predicate WellBuilt(mesh: seq<Area>, t: Tree, depth: nat) {
    match t
    case Nil => true
    case Node(area, box, split, axis, left, right) =>
      && area < |mesh|
      && axis == depth % 2
      && split == Key(mesh, area, axis) * 0.5
      && (forall h | h in Handles(left) :: h < |mesh| && Key(mesh, h, axis) <= Key(mesh, area, axis))
      && (forall h | h in Handles(right) :: h < |mesh| && Key(mesh, area, axis) <= Key(mesh, h, axis))
      && box == SubtreeBox(mesh[area], left, right)
      && WellBuilt(mesh, left, depth + 1)
      && WellBuilt(mesh, right, depth + 1)
  }

  lemma {:induction false} WellBuiltValid(mesh: seq<Area>, t: Tree, depth: nat)
    requires WellBuilt(mesh, t, depth)
    ensures ValidTree(mesh, t)
    decreases t
  {
    if t.Node? {
      WellBuiltValid(mesh, t.left, depth + 1);
      WellBuiltValid(mesh, t.right, depth + 1);
    }
  }

  lemma SliceValid(mesh: seq<Area>, s: seq<nat>, i: nat, j: nat)
    requires ValidHandles(mesh, s) && i <= j <= |s|
    ensures ValidHandles(mesh, s[i..j])
  {
    forall k | 0 <= k < j - i ensures s[i..j][k] < |mesh| {
      assert s[i..j][k] == s[i + k];
    }
  }

  /** The shape of one node: the median of the partitioned handles at the
      node, the lower and upper halves below. */
  lemma NodeShape(mesh: seq<Area>, sorted: seq<nat>, depth: nat, lo: seq<nat>, hi: seq<nat>)
    requires ValidHandles(mesh, sorted) && |sorted| > 0
    requires lo == sorted[..|sorted| / 2] && hi == sorted[|sorted| / 2 + 1..]
    ensures ValidHandles(mesh, lo) && ValidHandles(mesh, hi)
    ensures var t := BuildNode(mesh, sorted, depth);
      && t.Node? && t.area == sorted[|sorted| / 2] && t.axis == depth % 2
      && t.split == Key(mesh, t.area, t.axis) * 0.5
      && t.box == SubtreeBox(mesh[t.area], t.left, t.right)
      && t.left == BuildRecursive(mesh, lo, depth + 1)
      && t.right == BuildRecursive(mesh, hi, depth + 1)
  {
    SliceValid(mesh, sorted, 0, |sorted| / 2);
    SliceValid(mesh, sorted, |sorted| / 2 + 1, |sorted|);
    assert lo == sorted[0..|sorted| / 2] && hi == sorted[|sorted| / 2 + 1..|sorted|];
  }

  /** One recursion step of `BuildRecursive`. */
  lemma BuildStep(mesh: seq<Area>, hs: seq<nat>, depth: nat, sorted: seq<nat>, lo: seq<nat>, hi: seq<nat>)
    requires ValidHandles(mesh, hs) && |hs| > 0
    requires sorted == SortByKey(mesh, hs, depth % 2)
    requires lo == sorted[..|hs| / 2] && hi == sorted[|hs| / 2 + 1..]
    ensures ValidHandles(mesh, lo) && ValidHandles(mesh, hi)
    ensures var t := BuildRecursive(mesh, hs, depth);
      && t.Node? && t.area == sorted[|hs| / 2] && t.axis == depth % 2
      && t.split == Key(mesh, t.area, t.axis) * 0.5
      && t.box == SubtreeBox(mesh[t.area], t.left, t.right)
      && t.left == BuildRecursive(mesh, lo, depth + 1)
      && t.right == BuildRecursive(mesh, hi, depth + 1)
  {
    assert BuildRecursive(mesh, hs, depth) == BuildNode(mesh, sorted, depth);
    NodeShape(mesh, sorted, depth, lo, hi);
  }

  lemma SplitAt(s: seq<nat>, m: nat)
    requires m < |s|
    ensures multiset(s) == multiset(s[..m]) + multiset{s[m]} + multiset(s[m + 1..])
  {
    assert s == s[..m] + [s[m]] + s[m + 1..];
  }

  lemma HandlesNode(t: Tree)
    requires t.Node?
    ensures multiset(Handles(t)) == multiset(Handles(t.left)) + multiset{t.area} + multiset(Handles(t.right))
  {
  }

  lemma {:induction false} BuildHandles(mesh: seq<Area>, hs: seq<nat>, depth: nat)
    requires ValidHandles(mesh, hs)
    ensures multiset(Handles(BuildRecursive(mesh, hs, depth))) == multiset(hs)
    decreases |hs|
  {
    if |hs| > 0 {
      var sorted := SortByKey(mesh, hs, depth % 2);
      var median := |hs| / 2;
      var lo, hi := sorted[..median], sorted[median + 1..];
      BuildStep(mesh, hs, depth, sorted, lo, hi);
      BuildHandles(mesh, lo, depth + 1);
      BuildHandles(mesh, hi, depth + 1);
      HandlesNode(BuildRecursive(mesh, hs, depth));
      SplitAt(sorted, median);
    }
  }

  /** A handle of a slice sits at some index of the slice. */
  lemma InSlice(h: nat, s: seq<nat>, sub: seq<nat>)
    requires multiset(sub) == multiset(s) && h in sub
    ensures exists i | 0 <= i < |s| :: s[i] == h
  {
    assert h in multiset(sub);
    assert h in multiset(s);
  }

  /** In a key-sorted sequence, whatever is drawn from below index `m` has a
      key at most that of `sorted[m]`. */
  lemma BelowMedian(mesh: seq<Area>, sorted: seq<nat>, m: nat, axis: nat, sub: seq<nat>)
    requires ValidHandles(mesh, sorted) && SortedBy(mesh, sorted, axis) && m < |sorted|
    requires multiset(sub) == multiset(sorted[..m])
    ensures forall h | h in sub :: h < |mesh| && Key(mesh, h, axis) <= Key(mesh, sorted[m], axis)
  {
    forall h | h in sub ensures h < |mesh| && Key(mesh, h, axis) <= Key(mesh, sorted[m], axis) {
      InSlice(h, sorted[..m], sub);
      var i :| 0 <= i < m && sorted[..m][i] == h;
      assert sorted[i] == h;
    }
  }

  /** Symmetrically, whatever is drawn from above index `m` has a key at least
      that of `sorted[m]`. */
  lemma AboveMedian(mesh: seq<Area>, sorted: seq<nat>, m: nat, axis: nat, sub: seq<nat>)
    requires ValidHandles(mesh, sorted) && SortedBy(mesh, sorted, axis) && m < |sorted|
    requires multiset(sub) == multiset(sorted[m + 1..])
    ensures forall h | h in sub :: h < |mesh| && Key(mesh, sorted[m], axis) <= Key(mesh, h, axis)
  {
    forall h | h in sub ensures h < |mesh| && Key(mesh, sorted[m], axis) <= Key(mesh, h, axis) {
      InSlice(h, sorted[m + 1..], sub);
      var i :| 0 <= i < |sorted[m + 1..]| && sorted[m + 1..][i] == h;
      assert sorted[m + 1 + i] == h;
    }
  }

  /** A node whose area is the median of a key-sorted sequence, and whose
      subtrees hold the two halves, keeps the node invariant. */
  lemma MedianNode(mesh: seq<Area>, sorted: seq<nat>, m: nat, depth: nat, t: Tree)
    requires ValidHandles(mesh, sorted) && SortedBy(mesh, sorted, depth % 2) && m < |sorted|
    requires t.Node? && t.area == sorted[m] && t.axis == depth % 2
    requires t.split == Key(mesh, t.area, t.axis) * 0.5
    requires t.box == SubtreeBox(mesh[t.area], t.left, t.right)
    requires multiset(Handles(t.left)) == multiset(sorted[..m])
    requires multiset(Handles(t.right)) == multiset(sorted[m + 1..])
    requires WellBuilt(mesh, t.left, depth + 1) && WellBuilt(mesh, t.right, depth + 1)
    ensures WellBuilt(mesh, t, depth)
  {
    BelowMedian(mesh, sorted, m, depth % 2, Handles(t.left));
    AboveMedian(mesh, sorted, m, depth % 2, Handles(t.right));
  }

  lemma {:induction false} BuildWellBuilt(mesh: seq<Area>, hs: seq<nat>, depth: nat)
    requires ValidHandles(mesh, hs)
    ensures WellBuilt(mesh, BuildRecursive(mesh, hs, depth), depth)
    decreases |hs|
  {
    if |hs| > 0 {
      var sorted := SortByKey(mesh, hs, depth % 2);
      var median := |hs| / 2;
      var lo, hi := sorted[..median], sorted[median + 1..];
      BuildStep(mesh, hs, depth, sorted, lo, hi);
      var t := BuildRecursive(mesh, hs, depth);
      BuildWellBuilt(mesh, lo, depth + 1);
      BuildWellBuilt(mesh, hi, depth + 1);
      BuildHandles(mesh, lo, depth + 1);
      BuildHandles(mesh, hi, depth + 1);
      SortByKeySorted(mesh, hs, depth % 2);
      MedianNode(mesh, sorted, median, depth, t);
    }
  }

  lemma {:induction false} RangeCount(n: nat, h: nat)
    requires h < n
    ensures multiset(Range(n))[h] == 1
  {
    var r := Range(n - 1);
    assert Range(n) == r + [n - 1];
    if h < n - 1 {
      RangeCount(n - 1, h);
    } else {
      assert forall i | 0 <= i < |r| :: r[i] != h;
      assert h !in r;
    }
  }

  lemma RangeMultiset(n: nat)
    ensures forall h: nat :: multiset(Range(n))[h] == (if h < n then 1 else 0)
  {
    var hs := Range(n);
    forall h: nat ensures multiset(hs)[h] == (if h < n then 1 else 0) {
      if h < n {
        RangeCount(n, h);
      } else {
        assert forall i | 0 <= i < |hs| :: hs[i] != h;
        assert h !in hs;
      }
    }
  }

  /** One node per area: the built tree holds every handle of the mesh
      exactly once, and keeps the node invariants. */
  lemma BuildCorrect(mesh: seq<Area>)
    ensures forall h: nat :: multiset(Handles(Build(mesh)))[h] == (if h < |mesh| then 1 else 0)
    ensures WellBuilt(mesh, Build(mesh), 0)
  {
    var hs := Range(|mesh|);
    BuildHandles(mesh, hs, 0);
    BuildWellBuilt(mesh, hs, 0);
    RangeMultiset(|mesh|);
    assert Build(mesh) == BuildRecursive(mesh, hs, 0);
  }

  /** Every area of the mesh is a node of the built tree. */
  lemma BuildHasAll(mesh: seq<Area>)
    ensures WellBuilt(mesh, Build(mesh), 0)
    ensures forall h | 0 <= h < |mesh| :: h in Handles(Build(mesh))
  {
    BuildCorrect(mesh);
    forall h | 0 <= h < |mesh| ensures h in Handles(Build(mesh)) {
      assert multiset(Handles(Build(mesh)))[h] == 1;
      assert h in multiset(Handles(Build(mesh)));
    }
  }

  /** Every node box holds the boxes of all areas below it. */
  lemma {:induction false} BoxesCover(mesh: seq<Area>, t: Tree, depth: nat, h: nat)
    requires WellBuilt(mesh, t, depth) && t.Node? && h in Handles(t)
    ensures h < |mesh| && Includes(t.box, AreaBox(mesh[h]))
    decreases t
  {
    if h in Handles(t.left) {
      BoxesCover(mesh, t.left, depth + 1, h);
      IncludesTrans(t.box, t.left.box, AreaBox(mesh[h]));
    } else if h in Handles(t.right) {
      BoxesCover(mesh, t.right, depth + 1, h);
      IncludesTrans(t.box, t.right.box, AreaBox(mesh[h]));
    } else {
      assert h == t.area;
    }
  }

  // ---------------------------------------------------------------------
  // Searches

  /** Pruned depth-first search: skip a subtree whose box misses the point,
      answer the node's own area first, then the left subtree, then the
      right. */
  function FindContainingRecursive(mesh: seq<Area>, t: Tree, p: Vec3): (r: Option<nat>)
    requires ValidTree(mesh, t)
    ensures r.Some? ==> r.value in Handles(t) && r.value < |mesh| && IsPointInNavArea(p, mesh[r.value])
  {
    match t
    case Nil => None
    case Node(area, box, _, _, left, right) =>
      if !InAABB(p, box) then None
      else if IsPointInNavArea(p, mesh[area]) then Some(area)
      else
        var l := FindContainingRecursive(mesh, left, p);
        if l.Some? then l else FindContainingRecursive(mesh, right, p)
  }

  /** The pruning never hides an area that contains the point. */
  lemma {:induction false} FindContainingComplete(mesh: seq<Area>, t: Tree, depth: nat, p: Vec3, h: nat)
    requires ValidTree(mesh, t) && WellBuilt(mesh, t, depth)
    requires h in Handles(t) && h < |mesh| && IsPointInNavArea(p, mesh[h])
    ensures FindContainingRecursive(mesh, t, p).Some?
    decreases t
  {
    BoxesCover(mesh, t, depth, h);
    InNavAreaInBox(p, mesh[h]);
    InIncluded(p, AreaBox(mesh[h]), t.box);
    if !IsPointInNavArea(p, mesh[t.area]) {
      if h in Handles(t.left) {
        FindContainingComplete(mesh, t.left, depth + 1, p, h);
      } else {
        assert h in Handles(t.right);
        FindContainingComplete(mesh, t.right, depth + 1, p, h);
      }
    }
  }

  function FindContainingArea(mesh: seq<Area>, t: Tree, p: Vec3): Option<nat>
    requires ValidTree(mesh, t)
  {
    if t == Nil then None else FindContainingRecursive(mesh, t, p)
  }

  /** Sound and complete against the brute-force definition. */
  lemma FindContainingAreaCorrect(mesh: seq<Area>, p: Vec3)
    ensures var r := FindContainingArea(mesh, Build(mesh), p);
      && (r.Some? ==> r.value < |mesh| && IsPointInNavArea(p, mesh[r.value]))
      && ((exists h | 0 <= h < |mesh| :: IsPointInNavArea(p, mesh[h])) ==> r.Some?)
  {
    BuildHasAll(mesh);
    if h :| 0 <= h < |mesh| && IsPointInNavArea(p, mesh[h]) {
      FindContainingComplete(mesh, Build(mesh), 0, p, h);
    }
  }

  /** Branch and bound on the squared distance to area centres: prune a
      subtree whose box is no closer than the best so far, take the node's
      area on a strict improvement, then visit the side of the split the
      point lies on before the other side. */
  function FindClosestRecursive(mesh: seq<Area>, t: Tree, p: Vec3, best: Option<nat>, bestDist: real): (r: (Option<nat>, real))
    requires ValidTree(mesh, t)
    ensures r.1 <= bestDist
    ensures r.1 == bestDist ==> r.0 == best
    ensures r.1 < bestDist ==> r.0.Some? && r.0.value in Handles(t) && r.0.value < |mesh|
                               && DistSq(p, mesh[r.0.value].center) == r.1
  {
    match t
    case Nil => (best, bestDist)
    case Node(area, box, split, axis, left, right) =>
      if GetAABBDistanceSq(p, box) >= bestDist then (best, bestDist)
      else
        var d := DistSq(p, mesh[area].center);
        var (b1, d1) := if d < bestDist then (Some(area), d) else (best, bestDist);
        var q := if axis == 0 then p.x else p.y;
        var near := if q < split then left else right;
        var far := if q < split then right else left;
        var (b2, d2) := FindClosestRecursive(mesh, near, p, b1, d1);
        FindClosestRecursive(mesh, far, p, b2, d2)
  }

  /** Each area's centre lies in its own box (so in every box above it). */
  predicate CentersInBoxes(mesh: seq<Area>) {
    forall h | 0 <= h < |mesh| :: InAABB(mesh[h].center, AreaBox(mesh[h]))
  }

  /** What the loader guarantees for ordered corners is enough. */
  lemma LoadedCentersInBoxes(mesh: seq<Area>)
    requires forall h | 0 <= h < |mesh| :: Derived(mesh[h]) && Ordered(mesh[h])
    ensures CentersInBoxes(mesh)
  {
  }

  /** The returned distance is at most every centre distance in the tree. */
  lemma {:induction false} FindClosestMinimal(mesh: seq<Area>, t: Tree, depth: nat, p: Vec3, best: Option<nat>, bestDist: real)
    requires ValidTree(mesh, t) && WellBuilt(mesh, t, depth) && CentersInBoxes(mesh)
    ensures forall h | h in Handles(t) :: h < |mesh| && FindClosestRecursive(mesh, t, p, best, bestDist).1 <= DistSq(p, mesh[h].center)
    decreases t
  {
    match t
    case Nil =>
    case Node(area, box, split, axis, left, right) =>
      var r := FindClosestRecursive(mesh, t, p, best, bestDist);
      HandlesValid(mesh, t);
      if GetAABBDistanceSq(p, box) >= bestDist {
        forall h | h in Handles(t) ensures r.1 <= DistSq(p, mesh[h].center) {
          BoxesCover(mesh, t, depth, h);
          InIncluded(mesh[h].center, AreaBox(mesh[h]), box);
          BoxDistanceBelow(p, box, mesh[h].center);
        }
      } else {
        var d := DistSq(p, mesh[area].center);
        var b1 := if d < bestDist then Some(area) else best;
        var d1 := if d < bestDist then d else bestDist;
        var q := if axis == 0 then p.x else p.y;
        var near := if q < split then left else right;
        var far := if q < split then right else left;
        var r2 := FindClosestRecursive(mesh, near, p, b1, d1);
        HandlesValid(mesh, t);
        FindClosestMinimal(mesh, near, depth + 1, p, b1, d1);
        FindClosestMinimal(mesh, far, depth + 1, p, r2.0, r2.1);
        assert r == FindClosestRecursive(mesh, far, p, r2.0, r2.1);
        forall h | h in Handles(t) ensures r.1 <= DistSq(p, mesh[h].center) {
          if h in Handles(near) {
          } else if h in Handles(far) {
          } else {
            assert h == area;
          }
        }
      }
  }

  /** Starts from the float limit and no area. */
  function FindClosestArea(mesh: seq<Area>, t: Tree, p: Vec3): Option<nat>
    requires ValidTree(mesh, t)
  {
    if t == Nil then None else FindClosestRecursive(mesh, t, p, None, FLT_MAX).0
  }

  /** The search over any well-built tree holding exactly the mesh's areas. */
  lemma {:induction false} FindClosestOver(mesh: seq<Area>, t: Tree, p: Vec3)
    requires ValidTree(mesh, t) && WellBuilt(mesh, t, 0) && CentersInBoxes(mesh)
    requires forall h | 0 <= h < |mesh| :: h in Handles(t)
    ensures var r := FindClosestArea(mesh, t, p);
      && (r.Some? ==> r.value < |mesh| && forall h | 0 <= h < |mesh| ::
             DistSq(p, mesh[r.value].center) <= DistSq(p, mesh[h].center))
      && (r.None? <==> forall h | 0 <= h < |mesh| :: DistSq(p, mesh[h].center) >= FLT_MAX)
  {
    assert |mesh| > 0 ==> 0 in Handles(t);
    if t != Nil {
      var r := FindClosestRecursive(mesh, t, p, None, FLT_MAX);
      FindClosestMinimal(mesh, t, 0, p, None, FLT_MAX);
      if r.0.Some? {
        var w := r.0.value;
        assert r.1 < FLT_MAX && w < |mesh| && DistSq(p, mesh[w].center) == r.1;
      }
    }
  }

  /** Against a linear scan: the result's centre is nearest of all, and
      there is no result only when no centre is nearer than the float limit
      (in particular, for an empty mesh). */
  lemma FindClosestAreaCorrect(mesh: seq<Area>, p: Vec3)
    requires CentersInBoxes(mesh)
    ensures var r := FindClosestArea(mesh, Build(mesh), p);
      && (r.Some? ==> r.value < |mesh| && forall h | 0 <= h < |mesh| ::
             DistSq(p, mesh[r.value].center) <= DistSq(p, mesh[h].center))
      && (r.None? <==> forall h | 0 <= h < |mesh| :: DistSq(p, mesh[h].center) >= FLT_MAX)
  {
    BuildHasAll(mesh);
    FindClosestOver(mesh, Build(mesh), p);
  }

  datatype FindAreaResult = FindAreaResult(area: Option<nat>, isExact: bool)

  /** The result's default: no area, not exact. */
  const NoArea: FindAreaResult := FindAreaResult(None, false)

  /** Exact containment first, the nearest centre otherwise. */
  function FindArea(mesh: seq<Area>, t: Tree, p: Vec3): (r: FindAreaResult)
    requires ValidTree(mesh, t)
    ensures r.isExact <==> FindContainingArea(mesh, t, p).Some?
    ensures r.isExact ==> r.area == FindContainingArea(mesh, t, p)
    ensures !r.isExact ==> r.area == FindClosestArea(mesh, t, p)
    ensures t == Nil ==> r == NoArea
  {
    var c := FindContainingArea(mesh, t, p);
    if c.Some? then FindAreaResult(c, true)
    else FindAreaResult(FindClosestArea(mesh, t, p), false)
  }
}
