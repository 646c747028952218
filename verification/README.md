# Amalgam nav bot core, modelled in Dafny

This project models the part of the Amalgam TF2 bot that moves the bot
across a map:

- **The nav mesh.** Areas of the `.nav` file have geometry and spot flags. The
  binary reader and writer (`CNavFile`) turn records into runtime areas, with
  every connection resolved to the area that carries its id.
- **The KD tree** over area centres. It answers the containing-area and the
  closest-area queries.
- **The path graph (`CMap`).** It covers connection lookups, one-way tests,
  drop-down hints, the connection cost model, the blacklist and its penalties,
  the neighbour expansion with its cache of connection verdicts, and the
  best-first search. It also covers the breadth-first collection of nearby
  areas and the blacklisting around them.
- **The navigation engine (`CNavEngine`).** It covers path priorities, the
  crumb trail built from a path (intra-area crumbs, adaptive spacing, curve
  samples, drop-down crumbs), and the on-disk crumb cache with its keys. It
  also covers the `NavTo` path request: its gates, path reuse, the strict
  fallback counter, trimming and validation. The rest of the engine covered
  here is abandoning and cancelling a path, stuck detection, and following
  the crumb trail.
- **The inter-process pipe (`NamedPipe`).** It covers base64, the reconnect
  delay, the outgoing message queue with its priority eviction, and
  capture-spot reservations and the messages that carry them.
- **The duck-jump state machine (`CDuckJump`).**

Floats are modelled as reals. Calls into the game become function parameters
or input fields: traces, the local player, the clock, engine settings, `sqrt`
and vector normalisation. Every operation is a pure function over immutable
datatypes. A step of the engine is a function from the engine state (and the
inputs of that tick) to the next state.

Files, one module each:

| file | module | models |
|---|---|---|
| `util.dfy` | `Util` | option, result, C's float-to-int truncation, powers of two |
| `bytes.dfy` | `Bytes` | little-endian fields |
| `nav.dfy` | `Nav` | `CNavArea` geometry and `CHidingSpot` flags |
| `wire.dfy` | `Wire` | the `.nav` scalar fields and reader errors |
| `wirelists.dfy` | `WireLists` | the `.nav` item lists, with and without a count |
| `navcodec.dfy` | `NavCodec` | the `.nav` records, writer, reader and id resolution |
| `kdtree.dfy` | `KdTree` | `CNavMeshKDTree` |
| `connection.dfy` | `Connection` | connection tests, drop-down hints, connection cost |
| `blacklist.dfy` | `Blacklist` | blacklist entries, penalties, override rule |
| `solver.dfy` | `Solver` | the best-first search over a neighbour function |
| `navmap.dfy` | `NavMap` | `CMap` state, path queries, nearby-area collection |
| `adjacent.dfy` | `Adjacent` | `CMap::AdjacentCost` and its verdict cache |
| `base64.dfy` | `Base64` | the pipe's base64 codec |
| `pipe.dfy` | `NamedPipe` | reconnect delay, message queue, reservations |
| `duckjump.dfy` | `DuckJump` | the duck-jump state machine |
| `crumbs.dfy` | `Crumbs` | crumb trail construction |
| `crumbcache.dfy` | `CrumbCache` | the on-disk crumb cache and its keys |
| `engine.dfy` | `Engine` | engine state, priorities, abandon and cancel |
| `navto.dfy` | `PathRequest` | `CNavEngine::NavTo` |
| `stuck.dfy` | `StuckDetect` | `CNavEngine::UpdateStuckTime` |
| `follow.dfy` | `CrumbFollow` | `CNavEngine::FollowCrumbs` (trail popping) |

## Model

Source paths are relative to the repository root.

| member | source | states |
|---|---|---|
| Util.Trunc | Amalgam/src/Features/NavBot/NavEngine/Map.h:16 | a float converted to `int` is truncated toward zero: the result lies within one of the input, on the input's side of zero |
| Bytes.U16RoundTrip | Amalgam/src/Features/NavBot/NavEngine/FileReader/CNavFile.h:170-171 | a 16-bit field written little-endian reads back as the same value, whatever follows it |
| Bytes.U32RoundTrip | Amalgam/src/Features/NavBot/NavEngine/FileReader/CNavFile.h:141-142 | a 32-bit field written little-endian reads back as the same value, whatever follows it |
| Bytes.U32Prefix | Amalgam/src/Features/NavBot/NavEngine/FileReader/CNavFile.h:141-142 | a 32-bit read looks at four bytes only; bytes after the field do not change it |
| Nav.IsBlockedCases | Amalgam/src/Features/NavBot/NavEngine/FileReader/nav.h:197-211 | an area blocks a team exactly when it is a nav blocker, is TF-blocked, or is the other team's spawn room and not also the team's own; a room marked for both teams blocks nobody |
| Nav.IsOverlappingBounds | Amalgam/src/Features/NavBot/NavEngine/FileReader/nav.h:215-230 | the overlap test holds exactly when the point lies in the 2D extent widened by the tolerance; the point's height never matters |
| Nav.ContainsBounds | Amalgam/src/Features/NavBot/NavEngine/FileReader/nav.h:233-245 | containment holds exactly when the point is inside the 2D extent and inside the area's z band |
| Nav.GetSwCorner | Amalgam/src/Features/NavBot/NavEngine/FileReader/nav.h:247-250 | the south-west corner takes x from the north-west corner, y from the south-east corner, and the stored south-west height |
| Nav.GetNeCorner | Amalgam/src/Features/NavBot/NavEngine/FileReader/nav.h:251-254 | the north-east corner takes x from the south-east corner, y from the north-west corner, and the stored north-east height |
| Nav.FloatSel | Amalgam/src/Features/NavBot/NavEngine/FileReader/nav.h:256-259 | the select yields its first value for a comparand of zero or more and its second otherwise |
| Nav.Clamp01 | Amalgam/src/Features/NavBot/NavEngine/FileReader/nav.h:269-273 | the two chained selects put any parameter into [0, 1] and leave one already there unchanged |
| Nav.LerpBetween | Amalgam/src/Features/NavBot/NavEngine/FileReader/nav.h:275-278 | interpolating with a parameter in [0, 1] stays between the two end values |
| Nav.GetZ | Amalgam/src/Features/NavBot/NavEngine/FileReader/nav.h:261-279 | a degenerate area reads as its north-east height; any other height lies between the least and greatest of the four corner heights |
| Nav.GetZAtNw | Amalgam/src/Features/NavBot/NavEngine/FileReader/nav.h:261-279 | at the north-west corner the height is that corner's height |
| Nav.GetZAtSe | Amalgam/src/Features/NavBot/NavEngine/FileReader/nav.h:261-279 | on a loaded, non-degenerate area the south-east corner reads as that corner's height |
| Nav.GetNearestPoint | Amalgam/src/Features/NavBot/NavEngine/FileReader/nav.h:281-294 | the nearest point lies in the area's rectangle, equals the query point when that point overlaps the area, and sits at the area's height there |
| Nav.GetNearestPointIdempotent | Amalgam/src/Features/NavBot/NavEngine/FileReader/nav.h:281-294 | asking for the nearest point of a nearest point gives the same point |
| Nav.SpotFlagsIndependent | Amalgam/src/Features/NavBot/NavEngine/FileReader/nav.h:95-117 | each of the four hiding-spot predicates reads back its own flag from a byte built out of any four flags, so no flag disturbs what the others report |
| Wire.GetU8 | Amalgam/src/Features/NavBot/NavEngine/FileReader/CNavFile.h:167 | a byte read consumes exactly one byte |
| Wire.GetU16 | Amalgam/src/Features/NavBot/NavEngine/FileReader/CNavFile.h:171 | a 16-bit read consumes exactly two bytes |
| Wire.GetU32 | Amalgam/src/Features/NavBot/NavEngine/FileReader/CNavFile.h:166 | a 32-bit read consumes exactly four bytes |
| WireLists.GetList | Amalgam/src/Features/NavBot/NavEngine/FileReader/CNavFile.h:172-179 | reading a counted list yields exactly as many items as the count announces |
| Wire.U8Trip | Amalgam/src/Features/NavBot/NavEngine/FileReader/CNavFile.h:28 | a byte written by the writer reads back unchanged |
| Wire.U16Trip | Amalgam/src/Features/NavBot/NavEngine/FileReader/CNavFile.h:30-31 | a 16-bit field written by the writer reads back unchanged, leaving the bytes after it |
| Wire.U32Trip | Amalgam/src/Features/NavBot/NavEngine/FileReader/CNavFile.h:18-27 | a 32-bit field written by the writer reads back unchanged, leaving the bytes after it |
| NavCodec.Word3Trip | Amalgam/src/Features/NavBot/NavEngine/FileReader/CNavFile.h:47-48 | a vector of three float words reads back as the same three words |
| WireLists.ListTrip | Amalgam/src/Features/NavBot/NavEngine/FileReader/CNavFile.h:172-179 | reading back as many items as were written yields the items in order, provided each item reads back |
| NavCodec.GetBytes | Amalgam/src/Features/NavBot/NavEngine/FileReader/CNavFile.h:176 | a raw read of n bytes yields exactly the next n bytes of the stream |
| NavCodec.PlaceOverflow | Amalgam/src/Features/NavBot/NavEngine/FileReader/CNavFile.h:174-176 | the reader as written accepts a place length of 300 and stores 300 bytes into a 256-byte name buffer |
| NavCodec.GetPlace | Amalgam/src/Features/NavBot/NavEngine/FileReader/CNavFile.h:174-176 | the bounded place reader succeeds exactly when the reader as written does, leaves the stream at the same place, and keeps a prefix of the bytes that reader would store |
| NavCodec.PlaceTrip | Amalgam/src/Features/NavBot/NavEngine/FileReader/CNavFile.h:34-35 | a place name that fits its buffer reads back as written |
| NavCodec.HidingSpotTrip | Amalgam/src/Features/NavBot/NavEngine/FileReader/CNavFile.h:237-240 | a hiding spot (id, position, flag byte) reads back as written |
| NavCodec.SpotOrderTrip | Amalgam/src/Features/NavBot/NavEngine/FileReader/CNavFile.h:258-260 | a spot order (id and its one-byte distance) reads back as written |
| NavCodec.EncounterTrip | Amalgam/src/Features/NavBot/NavEngine/FileReader/CNavFile.h:249-262 | an encounter whose stored spot count matches its list reads back as written |
| NavCodec.VisibleTrip | Amalgam/src/Features/NavBot/NavEngine/FileReader/CNavFile.h:290-292 | a potentially-visible-area record reads back as written |
| WireLists.CountedTrip | Amalgam/src/Features/NavBot/NavEngine/FileReader/CNavFile.h:110-116 | a list preceded by its 32-bit count reads back as written when the count fits in 32 bits |
| NavCodec.U32ListTrip | Amalgam/src/Features/NavBot/NavEngine/FileReader/CNavFile.h:96-101 | a counted list of 32-bit ids reads back as written |
| NavCodec.Without | Amalgam/src/Features/NavBot/NavEngine/FileReader/CNavFile.h:222-224 | the kept connection ids are exactly the ids read other than the area's own |
| NavCodec.WithoutCount | Amalgam/src/Features/NavBot/NavEngine/FileReader/CNavFile.h:217-231 | the kept connections and the skipped self-connections together account for every id read |
| NavCodec.WithoutNothing | Amalgam/src/Features/NavBot/NavEngine/FileReader/CNavFile.h:222-224 | a direction list without the area's own id is kept whole and in order |
| NavCodec.GetDirection | Amalgam/src/Features/NavBot/NavEngine/FileReader/CNavFile.h:215-231 | one direction's list, as read, never contains the area's own id |
| NavCodec.GetDirections | Amalgam/src/Features/NavBot/NavEngine/FileReader/CNavFile.h:213-232 | none of the four direction lists, as read, contains the area's own id |
| NavCodec.DirectionTrip | Amalgam/src/Features/NavBot/NavEngine/FileReader/CNavFile.h:54-60 | a direction list that does not name the area reads back as written |
| NavCodec.DirectionsTrip | Amalgam/src/Features/NavBot/NavEngine/FileReader/CNavFile.h:52-61 | the four direction lists read back as written when none names the area |
| NavCodec.HeadTrip | Amalgam/src/Features/NavBot/NavEngine/FileReader/CNavFile.h:188-193 | an area's id, attributes, corners and extra heights read back as written |
| NavCodec.HidingSpotsTrip | Amalgam/src/Features/NavBot/NavEngine/FileReader/CNavFile.h:234-243 | an area's hiding spots read back as written |
| NavCodec.EncountersTrip | Amalgam/src/Features/NavBot/NavEngine/FileReader/CNavFile.h:245-265 | an area's encounters read back as written when each count matches its list |
| NavCodec.SpotsTrip | Amalgam/src/Features/NavBot/NavEngine/FileReader/CNavFile.h:63-90 | hiding spots behind their 8-bit count and encounters behind their 32-bit count read back as written when the counts fit |
| NavCodec.WordsTrip | Amalgam/src/Features/NavBot/NavEngine/FileReader/CNavFile.h:281-285 | a fixed run of float words reads back as written |
| NavCodec.VisiblesTrip | Amalgam/src/Features/NavBot/NavEngine/FileReader/CNavFile.h:287-295 | the potentially-visible list reads back as written |
| NavCodec.LaddersTrip | Amalgam/src/Features/NavBot/NavEngine/FileReader/CNavFile.h:270-279 | both ladder lists read back as written |
| NavCodec.OccupancyTrip | Amalgam/src/Features/NavBot/NavEngine/FileReader/CNavFile.h:104-108 | the two occupy times and four light intensities read back as written |
| NavCodec.VisibilityTrip | Amalgam/src/Features/NavBot/NavEngine/FileReader/CNavFile.h:287-300 | the visibility list, the inherit id and the TF attributes read back as written |
| NavCodec.TailTrip | Amalgam/src/Features/NavBot/NavEngine/FileReader/CNavFile.h:267-300 | the index type, ladders, occupancy, visibility and TF attributes read back as written |
| NavCodec.GetArea | Amalgam/src/Features/NavBot/NavEngine/FileReader/CNavFile.h:187-302 | an area record, as read, has no connection to itself |
| NavCodec.AreaTrip | Amalgam/src/Features/NavBot/NavEngine/FileReader/CNavFile.h:43-119 | an area record the writer emits reads back as the same record when it names no self-connection and its counts fit their fields |
| NavCodec.LoadRejects | Amalgam/src/Features/NavBot/NavEngine/FileReader/CNavFile.h:141-163 | a wrong magic, a version below 16 and a sub-version other than 2 are each rejected, checked in that order; only a file passing all three loads |
| NavCodec.SaveHeader | Amalgam/src/Features/NavBot/NavEngine/FileReader/CNavFile.h:18-28 | the writer begins with the magic, version 16, sub-version 2, the BSP size and the analyzed flag |
| NavCodec.AreasTrip | Amalgam/src/Features/NavBot/NavEngine/FileReader/CNavFile.h:40-120 | the counted list of area records reads back as written |
| NavCodec.PlacesTrip | Amalgam/src/Features/NavBot/NavEngine/FileReader/CNavFile.h:30-36 | the place names read back as written |
| NavCodec.BodyTrip | Amalgam/src/Features/NavBot/NavEngine/FileReader/CNavFile.h:27-120 | everything after the header words reads back as written |
| NavCodec.SaveLoad | Amalgam/src/Features/NavBot/NavEngine/FileReader/CNavFile.h:12-302 | loading what the writer saved gives the same file back, whenever the file's lists fit their count fields and no area links to itself |
| WireLists.ListKeeps | Amalgam/src/Features/NavBot/NavEngine/FileReader/CNavFile.h:185-303 | a property every single read guarantees holds of every item of a list read |
| NavCodec.BodyKeeps | Amalgam/src/Features/NavBot/NavEngine/FileReader/CNavFile.h:185-303 | every area of a body read has no connection to itself |
| NavCodec.LoadDropsSelfLinks | Amalgam/src/Features/NavBot/NavEngine/FileReader/CNavFile.h:222-224 | no area of a loaded file has a connection to itself |
| NavCodec.Flatten | Amalgam/src/Features/NavBot/NavEngine/FileReader/CNavFile.h:228-229 | the flat connection list holds exactly the ids of the four direction lists |
| NavCodec.Unresolved | Amalgam/src/Features/NavBot/NavEngine/FileReader/CNavFile.h:219-228 | before resolution every connection carries its id and no area |
| NavCodec.MakeArea | Amalgam/src/Features/NavBot/NavEngine/FileReader/CNavFile.h:195-211 | a loaded area keeps the record's id, corners, heights and attributes, and its centre, inverse extents and z band follow from the corners |
| NavCodec.LastWithId | Amalgam/src/Features/NavBot/NavEngine/FileReader/CNavFile.h:311-314 | the id map names the last area carrying the id, and nothing when no area carries it |
| NavCodec.ResolveLinks | Amalgam/src/Features/NavBot/NavEngine/FileReader/CNavFile.h:318-323 | each resolved connection keeps its id and points at the id map's area for it |
| NavCodec.ResolveAll | Amalgam/src/Features/NavBot/NavEngine/FileReader/CNavFile.h:316-338 | resolution changes only the connections of each area, in place |
| NavCodec.MakeAreas | Amalgam/src/Features/NavBot/NavEngine/FileReader/CNavFile.h:185-303 | one loaded area per record, in file order |
| NavCodec.Mesh | Amalgam/src/Features/NavBot/NavEngine/FileReader/CNavFile.h:185-340 | the mesh has one area per record, in file order, with the record's id and one connection per id of its direction lists |
| NavCodec.MeshArea | Amalgam/src/Features/NavBot/NavEngine/FileReader/CNavFile.h:306-338 | the mesh's areas are the loaded areas with their connections resolved against all loaded areas |
| NavCodec.MeshGeometry | Amalgam/src/Features/NavBot/NavEngine/FileReader/CNavFile.h:188-211 | a mesh area keeps its record's id and corners, and its derived fields follow from the corners |
| NavCodec.LinksKeepDerived | Amalgam/src/Features/NavBot/NavEngine/FileReader/CNavFile.h:316-330 | resolving connections leaves the derived geometry intact |
| NavCodec.MeshLinks | Amalgam/src/Features/NavBot/NavEngine/FileReader/CNavFile.h:311-330 | each connection of a mesh area carries the id at its place in the direction lists and points at the last area with that id, or at nothing exactly when no area has it |
| NavCodec.LinkOfRaw | Amalgam/src/Features/NavBot/NavEngine/FileReader/CNavFile.h:311-330 | resolution against the loaded areas points each connection at the last area with its id, or at nothing exactly when none has it |
| KdTree.EmptyBoxHoldsNothing | Amalgam/src/Features/NavBot/NavEngine/KDTree.h:12-16 | the default box, inverted at the float limits, holds no point of float range |
| KdTree.Expand | Amalgam/src/Features/NavBot/NavEngine/KDTree.h:18-26 | the expanded box holds both boxes, and each corner coordinate comes from one of them |
| KdTree.ExpandLeast | Amalgam/src/Features/NavBot/NavEngine/KDTree.h:18-26 | any box holding both boxes holds their expansion, so the expansion is the least such box |
| KdTree.ExpandByEmpty | Amalgam/src/Features/NavBot/NavEngine/KDTree.h:12-26 | expanding a box by the default box leaves it unchanged |
| KdTree.ExpandSelf | Amalgam/src/Features/NavBot/NavEngine/KDTree.h:18-26 | expanding a box by itself leaves it unchanged |
| KdTree.IncludesTrans | Amalgam/src/Features/NavBot/NavEngine/KDTree.cpp:71-80 | box inclusion is transitive, so a node box holds what its children's boxes hold |
| KdTree.InIncluded | Amalgam/src/Features/NavBot/NavEngine/KDTree.cpp:174-179 | a point in a box is in every box that includes it |
| KdTree.AreaBox | Amalgam/src/Features/NavBot/NavEngine/KDTree.cpp:57-69 | an area's box is its x/y footprint and its z band padded by 128 below and above |
| KdTree.InNavAreaInBox | Amalgam/src/Features/NavBot/NavEngine/KDTree.cpp:82-91 | a point the index finds in an area lies in that area's box |
| KdTree.InNavAreaIsContains | Amalgam/src/Features/NavBot/NavEngine/KDTree.cpp:82-91 | the index's containment test agrees exactly with the area's own `Contains` |
| KdTree.Gap | Amalgam/src/Features/NavBot/NavEngine/KDTree.cpp:183-185 | the per-axis gap is never negative and is zero exactly when the coordinate lies in the box's range |
| KdTree.SquareNonNeg | Amalgam/src/Features/NavBot/NavEngine/KDTree.cpp:186 | a squared gap is never negative |
| KdTree.SquarePos | Amalgam/src/Features/NavBot/NavEngine/KDTree.cpp:186 | a positive gap has a positive square |
| KdTree.BoxDistanceZero | Amalgam/src/Features/NavBot/NavEngine/KDTree.cpp:181-187 | the squared distance to a box is never negative, and is zero exactly for points inside the box |
| KdTree.SquareMono | Amalgam/src/Features/NavBot/NavEngine/KDTree.cpp:186 | squaring is monotone on magnitudes, so a smaller gap gives a smaller square |
| KdTree.GapBelow | Amalgam/src/Features/NavBot/NavEngine/KDTree.cpp:183-185 | on each axis the gap to a range is at most the distance to any point of the range |
| KdTree.BoxDistanceBelow | Amalgam/src/Features/NavBot/NavEngine/KDTree.cpp:181-187 | no point of a box is closer to the query than the box itself, which makes pruning on the box distance safe |
| KdTree.HeadBelow | Amalgam/src/Features/NavBot/NavEngine/KDTree.cpp:32-38 | in a key-sorted sequence, whatever is drawn from the tail has a key at least the head's |
| KdTree.Insert | Amalgam/src/Features/NavBot/NavEngine/KDTree.cpp:32-38 | insertion adds exactly the one handle and keeps every handle valid |
| KdTree.InsertSorted | Amalgam/src/Features/NavBot/NavEngine/KDTree.cpp:32-38 | insertion keeps the handles sorted by their key on the axis |
| KdTree.SortByKey | Amalgam/src/Features/NavBot/NavEngine/KDTree.cpp:32-38 | the partition step permutes the handles and keeps them valid |
| KdTree.SortByKeySorted | Amalgam/src/Features/NavBot/NavEngine/KDTree.cpp:32-38 | the partition step leaves the handles ordered by centre on the axis, so the median separates smaller and larger keys |
| KdTree.SubtreeBox | Amalgam/src/Features/NavBot/NavEngine/KDTree.cpp:71-80 | a node box holds the node area's box and the box of each child present |
| KdTree.BuildRecursive | Amalgam/src/Features/NavBot/NavEngine/KDTree.cpp:24-55 | the built subtree names only mesh areas and is empty exactly when there are no handles |
| KdTree.BuildNode | Amalgam/src/Features/NavBot/NavEngine/KDTree.cpp:40-54 | a node over partitioned handles is a node naming a mesh area |
| KdTree.Range | Amalgam/src/Features/NavBot/NavEngine/KDTree.cpp:17-19 | the initial handle list is every area index in mesh order |
| KdTree.Build | Amalgam/src/Features/NavBot/NavEngine/KDTree.cpp:5-22 | the tree names only mesh areas and has no root exactly when the mesh is empty |
| KdTree.HandlesValid | Amalgam/src/Features/NavBot/NavEngine/KDTree.cpp:40-43 | every handle of a valid tree indexes the mesh |
| KdTree.WellBuiltValid | Amalgam/src/Features/NavBot/NavEngine/KDTree.cpp:24-55 | the node invariant implies that every node names a mesh area |
| KdTree.SliceValid | Amalgam/src/Features/NavBot/NavEngine/KDTree.cpp:49-50 | the two halves passed down hold valid handles |
| KdTree.NodeShape | Amalgam/src/Features/NavBot/NavEngine/KDTree.cpp:29-54 | a node takes the median handle, the axis of its depth, the median centre as split, and the two halves as children |
| KdTree.BuildStep | Amalgam/src/Features/NavBot/NavEngine/KDTree.cpp:24-55 | one step of the build: partition on the depth's axis, median as the node, the halves one level deeper |
| KdTree.SplitAt | Amalgam/src/Features/NavBot/NavEngine/KDTree.cpp:49-50 | the two halves and the median together are the handles of the node |
| KdTree.HandlesNode | Amalgam/src/Features/NavBot/NavEngine/KDTree.cpp:40-54 | a node's handles are its left handles, its own area and its right handles |
| KdTree.BuildHandles | Amalgam/src/Features/NavBot/NavEngine/KDTree.cpp:24-55 | the built subtree holds exactly the handles it was given, with multiplicity |
| KdTree.InSlice | Amalgam/src/Features/NavBot/NavEngine/KDTree.cpp:49-50 | a handle of a half sits at some index of that half |
| KdTree.BelowMedian | Amalgam/src/Features/NavBot/NavEngine/KDTree.cpp:32-38 | every handle before the median has a key at most the median's |
| KdTree.AboveMedian | Amalgam/src/Features/NavBot/NavEngine/KDTree.cpp:32-38 | every handle after the median has a key at least the median's |
| KdTree.MedianNode | Amalgam/src/Features/NavBot/NavEngine/KDTree.cpp:40-54 | a median node over well-built halves keeps the node invariant |
| KdTree.BuildWellBuilt | Amalgam/src/Features/NavBot/NavEngine/KDTree.cpp:24-55 | at every node the axis alternates with depth, the split is the node's centre, the keys on the left are at most it and those on the right at least, and the box is the union of the area box and the child boxes |
| KdTree.RangeCount | Amalgam/src/Features/NavBot/NavEngine/KDTree.cpp:17-19 | each area index occurs exactly once in the initial handle list |
| KdTree.RangeMultiset | Amalgam/src/Features/NavBot/NavEngine/KDTree.cpp:17-19 | the initial handle list holds each area index once and nothing else |
| KdTree.BuildCorrect | Amalgam/src/Features/NavBot/NavEngine/KDTree.cpp:5-55 | the built tree holds every area of the mesh exactly once and keeps the node invariants |
| KdTree.BuildHasAll | Amalgam/src/Features/NavBot/NavEngine/KDTree.cpp:5-55 | every area of the mesh is a node of the built tree |
| KdTree.BoxesCover | Amalgam/src/Features/NavBot/NavEngine/KDTree.cpp:71-80 | every node box holds the boxes of all areas below it |
| KdTree.FindContainingRecursive | Amalgam/src/Features/NavBot/NavEngine/KDTree.cpp:100-118 | an area the search returns is in the subtree and contains the point |
| KdTree.FindContainingComplete | Amalgam/src/Features/NavBot/NavEngine/KDTree.cpp:100-118 | box pruning never hides an area that contains the point: if one is in the subtree, the search returns some area |
| KdTree.FindContainingAreaCorrect | Amalgam/src/Features/NavBot/NavEngine/KDTree.cpp:93-118 | the containing-area query is sound and complete against a scan of all areas |
| KdTree.FindClosestRecursive | Amalgam/src/Features/NavBot/NavEngine/KDTree.cpp:133-157 | the best distance never grows; it changes only on a strict improvement, to the centre distance of an area of the subtree |
| KdTree.LoadedCentersInBoxes | Amalgam/src/Features/NavBot/NavEngine/FileReader/CNavFile.h:195-210 | for loaded areas with ordered corners, each centre lies in the area's own box |
| KdTree.FindClosestMinimal | Amalgam/src/Features/NavBot/NavEngine/KDTree.cpp:133-157 | the distance the search returns is at most the centre distance of every area of the subtree, so the box pruning loses no candidate |
| KdTree.FindClosestOver | Amalgam/src/Features/NavBot/NavEngine/KDTree.cpp:120-157 | over any well-built tree that holds every area, the result has the nearest centre, and there is none exactly when no centre is nearer than the float limit |
| KdTree.FindClosestAreaCorrect | Amalgam/src/Features/NavBot/NavEngine/KDTree.cpp:120-157 | against a scan of all areas, the result's centre is the nearest, and there is no result exactly when no centre is nearer than the float limit (for example, an empty mesh) |
| KdTree.FindArea | Amalgam/src/Features/NavBot/NavEngine/KDTree.cpp:159-172 | the result is exact exactly when a containing area is found, and is then that area; otherwise it is the closest area; an empty tree gives no area, not exact |
| Connection.Clamp | Amalgam/src/Features/NavBot/NavEngine/Map.cpp:353 | `std::clamp` lands in the range and leaves a value already there unchanged |
| Connection.FindLink | Amalgam/src/Features/NavBot/NavEngine/Map.cpp:318-322 | the scan of an area's connections finds a target exactly when some connection resolved to it |
| Connection.HasDirectConnection | Amalgam/src/Features/NavBot/NavEngine/Map.cpp:310-325 | two areas are directly connected exactly when both exist and they are the same area or the first has a connection to the second |
| Connection.IsOneWay | Amalgam/src/Features/NavBot/NavEngine/Map.cpp:470-482 | a connection is one-way exactly when an end is missing or the target has no connection back |
| Connection.OneWayIsNoWayBack | Amalgam/src/Features/NavBot/NavEngine/Map.cpp:470-482 | between two distinct areas, one-way means exactly that there is no direct connection back |
| Connection.DeterminePoints | Amalgam/src/Features/NavBot/NavEngine/Map.cpp:443-468 | the points run from the current area's centre to the next area's centre |
| Connection.PointsOnAreas | Amalgam/src/Features/NavBot/NavEngine/Map.cpp:443-468 | on well-formed areas the crossing point lies on one of the two areas with its height read off the current area, and the height-check point lies on the next area |
| Connection.DropApproach | Amalgam/src/Features/NavBot/NavEngine/Map.cpp:353-366 | the pre-search approach to a drop is never negative and never beyond 95% of the planar run |
| Connection.ProbeDistance | Amalgam/src/Features/NavBot/NavEngine/Map.cpp:390-398 | each of the nine probe distances lies between the start and the end of the edge search |
| Connection.MulBetween | Amalgam/src/Features/NavBot/NavEngine/Map.cpp:398 | interpolating with a parameter in [0, 1] stays between the two ends |
| Connection.Along | Amalgam/src/Features/NavBot/NavEngine/Map.cpp:400-401 | a probe point keeps the start height |
| Connection.Probe | Amalgam/src/Features/NavBot/NavEngine/Map.cpp:395-425 | a probe that finds the edge lies within the search range, at the start height, on the line towards the target |
| Connection.DropHint | Amalgam/src/Features/NavBot/NavEngine/Map.cpp:344-425 | a drop hint records the drop, the heading and a positive approach distance bounded by 95% of the run or the minimum probe distance, and its point lies that far along the heading |
| Connection.ClimbHint | Amalgam/src/Features/NavBot/NavEngine/Map.cpp:428-438 | a climb hint backs up by 30% to 100% of a player width, faces away from the target, and is not a drop |
| Connection.HandleDropdown | Amalgam/src/Features/NavBot/NavEngine/Map.cpp:327-441 | the hint is sane, keeps the start height, and asks for a drop exactly when the target is more than 18 units lower and more than 1 unit away |
| Connection.DropApproachBounds | Amalgam/src/Features/NavBot/NavEngine/Map.cpp:342-426 | a drop walks towards the lower area: positive approach distance, bounded by 95% of the run or the minimum probe distance, and the adjusted point that far along at the start height |
| Connection.ClimbRetreat | Amalgam/src/Features/NavBot/NavEngine/Map.cpp:428-440 | an upward two-way connection backs the bot up facing away from the target; a connection that is neither a drop nor a climb leaves the start point and an empty hint |
| Connection.HorizontalDistance | Amalgam/src/Features/NavBot/NavEngine/Map.cpp:486-492 | the planar distance is never negative |
| Connection.TurnPenalty | Amalgam/src/Features/NavBot/NavEngine/Map.cpp:516-529 | the turn penalty lies between 0 and 60 |
| Connection.SizeBonus | Amalgam/src/Features/NavBot/NavEngine/Map.cpp:531-535 | the size bonus lies between 0 and 12 |
| Connection.SpawnPenalty | Amalgam/src/Features/NavBot/NavEngine/Map.cpp:537-550 | the spawn surcharge is one of 0, 40, 60 and 220 |
| Connection.SpawnPenaltyMatchesBlocking | Amalgam/src/Features/NavBot/NavEngine/Map.cpp:537-550 | apart from nav blockers, the full 220 is charged exactly where the area's blocking rule would block the team, and nothing exactly outside spawn rooms |
| Connection.ClimbCost | Amalgam/src/Features/NavBot/NavEngine/Map.cpp:503-506 | the height term is never negative |
| Connection.HintCost | Amalgam/src/Features/NavBot/NavEngine/Map.cpp:508-514 | the drop or approach term of a sane hint is never negative |
| Connection.EvaluateConnectionCost | Amalgam/src/Features/NavBot/NavEngine/Map.cpp:484-559 | a connection always costs at least 1 |
| Connection.CostLowerBound | Amalgam/src/Features/NavBot/NavEngine/Map.cpp:484-559 | with a sane hint the cost is at least the forward distance plus the spawn, avoid and crouch surcharges, less at most 12; an avoid area costs at least 99989 to enter |
| Blacklist.Penalty | Amalgam/src/Features/NavBot/NavEngine/Map.cpp:561-596 | a penalty lies between 0 and 3500; sentry reasons weigh nothing while sentries are ignored, and the default reason weighs nothing |
| Blacklist.PenaltyRanking | Amalgam/src/Features/NavBot/NavEngine/Map.cpp:575-595 | outside ignored sentries every real reason has a positive penalty, and the reasons rank: sentry, invulnerable enemy, sticky, medium sentry, low sentry, normal enemy, dormant enemy, bad build spot |
| Blacklist.OverrideIsPreorder | Amalgam/src/Features/NavBot/NavEngine/Map.cpp:598-612 | the override relation is total and transitive, so it ranks marks by penalty |
| Blacklist.Merge | Amalgam/src/Features/NavBot/NavEngine/Map.cpp:686-699 | after a mark, an area holds either the incoming reason or its old entry unchanged; an unmarked area takes the mark |
| Blacklist.MergeKeepsMax | Amalgam/src/Features/NavBot/NavEngine/Map.cpp:686-699 | renewing a mark of the same reason keeps the later of the two times, and no mark lowers an area's penalty |
| Blacklist.MergeIdempotent | Amalgam/src/Features/NavBot/NavEngine/Map.cpp:686-699 | applying the same mark twice is the same as applying it once |
| Blacklist.MarkAll | Amalgam/src/Features/NavBot/NavEngine/Map.cpp:673-700 | marking adds entries exactly for the targets and leaves every other area's entry alone |
| Blacklist.MarkAllMerges | Amalgam/src/Features/NavBot/NavEngine/Map.cpp:673-700 | each target ends up merged with the mark exactly once, even when it is listed twice |
| Blacklist.Reached | Amalgam/src/Features/NavBot/NavEngine/Map.cpp:671-684 | the mark reaches exactly the candidates whose centre, raised by the crouched jump height, is within the radius and, when sight is required, visible from the origin |
| Blacklist.ApplyAroundEffect | Amalgam/src/Features/NavBot/NavEngine/Map.cpp:663-701 | areas the mark reaches are merged with it; every other area's entry is left as it was, and no other area gains one |
| Blacklist.OfReason | Amalgam/src/Features/NavBot/NavEngine/NavEngine.h:137-149 | the selection holds exactly the entries of the reason, unchanged |
| Blacklist.ClearReason | Amalgam/src/Features/NavBot/NavEngine/NavEngine.h:151-157 | clearing a reason keeps exactly the entries of other reasons, unchanged |
| Blacklist.ClearAndSelectPartition | Amalgam/src/Features/NavBot/NavEngine/NavEngine.h:137-157 | clearing a reason and selecting it split the blacklist into two disjoint parts; clearing twice is clearing once, and nothing of the reason survives a clear |
| Solver.Walk | Amalgam/src/Features/NavBot/NavEngine/Map.cpp:51-59 | path reconstruction follows parents back and ends at the area it started from |
| Solver.WalkIsChain | Amalgam/src/Features/NavBot/NavEngine/Map.cpp:51-59 | the reconstructed path is a chain of search steps, each holding in the current state of the cost model, from the start to the goal |
| Solver.MinAt | Amalgam/src/Features/NavBot/NavEngine/Map.cpp:42-44 | the open set pops a pair that no other pair precedes in (score, index) order, as the min-heap does |
| Solver.RemoveAt | Amalgam/src/Features/NavBot/NavEngine/Map.cpp:44 | popping removes exactly that entry and keeps the others in order |
| Solver.Relax | Amalgam/src/Features/NavBot/NavEngine/Map.cpp:74-105 | relaxing an edge that is a search step keeps every parent link a search step to a cheaper current node, and every open entry current |
| Solver.RelaxKeepsTree | Amalgam/src/Features/NavBot/NavEngine/Map.cpp:93-99 | re-parenting a node under the popped one with a cheaper cost keeps the search tree, and the node becomes reachable from the start |
| Solver.ResetKeepsTree | Amalgam/src/Features/NavBot/NavEngine/Map.cpp:82-89 | resetting a node the current search has not touched keeps the search tree and the open set valid |
| Solver.RelaxFrom | Amalgam/src/Features/NavBot/NavEngine/Map.cpp:74-106 | relaxing all edges of the popped node keeps the search tree and the open set valid |
| Solver.TreeKept | Amalgam/src/Features/NavBot/NavEngine/Map.cpp:62-73 | a change of the cost model's state that keeps every search step keeps the search tree valid |
| Solver.Expanded | Amalgam/src/Features/NavBot/NavEngine/Map.cpp:70-73 | expanding an area yields edges into the mesh that cost something and are steps in the state the expansion leaves, which keeps the invariant, every earlier step and the search tree |
| Solver.Search | Amalgam/src/Features/NavBot/NavEngine/Map.cpp:40-109 | the main loop never reports invalid input and stamps no node with a future query id; the cost model's state it hands back keeps its invariant and every step that held before, and any path it returns is a chain of steps holding in that state from start to goal |
| Solver.Solve | Amalgam/src/Features/NavBot/NavEngine/Map.cpp:9-110 | code 2 exactly for a missing start or end, an empty mesh or an index outside it, and then the cost model's state is untouched; the returned state keeps every step that held before; a returned path lies in the mesh and is a chain of steps holding in the returned state from start to goal |
| Solver.SolveSame | Amalgam/src/Features/NavBot/NavEngine/Map.cpp:28-61 | a search from an area to itself returns the one-area path at cost 0 without expanding anything, so the cost model's state is untouched |
| NavMap.MakeMap | Amalgam/src/Features/NavBot/NavEngine/Map.h:110-117 | the map is active exactly when the file opens and loads; only then does it hold the loaded mesh and a search tree over it; it starts with empty caches and blacklist |
| NavMap.MeshClosed | Amalgam/src/Features/NavBot/NavEngine/FileReader/CNavFile.h:311-330 | every resolved connection of a loaded mesh names one of its areas |
| NavMap.IsAreaValid | Amalgam/src/Features/NavBot/NavEngine/Map.h:160-169 | a pointer is valid exactly when it is not null and lies within the areas; nothing is valid on an empty mesh |
| NavMap.Reset | Amalgam/src/Features/NavBot/NavEngine/Map.h:191-198 | a reset empties the connection caches and the free blacklist and changes nothing else |
| NavMap.ResetIdempotent | Amalgam/src/Features/NavBot/NavEngine/Map.h:191-198 | resetting twice is resetting once, and a reset map has no blacklisted area |
| NavMap.DefaultForcesEvaluation | Amalgam/src/Features/NavBot/NavEngine/Map.h:85-94 | a cache entry created by lookup never expires, but was never checked and is not passable, so the connection gets evaluated |
| NavMap.TickcountTimestamp | Amalgam/src/Features/NavBot/NavEngine/Map.h:16 | the timestamp is the tick count plus the whole number of ticks in the delay, rounded toward zero |
| NavMap.Lift | Amalgam/src/Features/NavBot/NavEngine/Map.h:171-186 | the path handed on is the area pointers of the solver's path, in order |
| NavMap.Report | Amalgam/src/Features/NavBot/NavEngine/Map.h:179-186 | code 2 exactly for an invalid start or end, with the start alone as the path; code 1 with no path; code 0 with a path of consecutive search steps from start to end; the map takes the scratch nodes and the vischeck cache the search left |
| NavMap.FindPath | Amalgam/src/Features/NavBot/NavEngine/Map.h:171-187 | an inactive map gives no path and no code; otherwise code 2 exactly for an invalid start or end, leaving the vischeck cache alone; code 1 gives no path; code 0 gives a path within the mesh whose consecutive areas are search steps in the cache the search left; only the scratch nodes and the vischeck cache change, and the cache keeps the graph's invariant and every step that held before |
| NavMap.Pop | Amalgam/src/Features/NavBot/NavEngine/Map.cpp:635-636 | taking the head of the queue keeps the queue well formed; the head is an unvisited-by-output area with its true squared distance |
| NavMap.Enqueue | Amalgam/src/Features/NavBot/NavEngine/Map.cpp:644-656 | afterwards every neighbour through the links within the expansion limit is visited; each newly visited area is queued exactly once (as many new queue entries as new visited areas), only within the limit, after what was queued before in order |
| NavMap.Visit | Amalgam/src/Features/NavBot/NavEngine/Map.cpp:635-656 | the head is collected exactly when it lies within the radius; the collected areas stay distinct and within the radius; the head becomes settled (collected if within the radius, its neighbours within the limit visited) and every visited area stays settled or queued |
| NavMap.EnqueueAdd | Amalgam/src/Features/NavBot/NavEngine/Map.cpp:654-655 | a newly inserted neighbour within the limit is queued once at the back with its squared distance, keeping the queue, the count of new entries and the coverage of the links seen |
| NavMap.EnqueueSkip | Amalgam/src/Features/NavBot/NavEngine/Map.cpp:646-655 | a missing neighbour, one beyond the limit or one already visited queues nothing and keeps the coverage of the links seen |
| NavMap.Drained | Amalgam/src/Features/NavBot/NavEngine/Map.cpp:631-656 | once the queue is empty every collected area within the radius has all its neighbours within the radius collected |
| NavMap.SeedArea | Amalgam/src/Features/NavBot/NavEngine/Map.cpp:703-716 | the seed is the area containing the origin if there is one, else the area with the nearest centre, and always a mesh area |
| NavMap.CollectAreasAround | Amalgam/src/Features/NavBot/NavEngine/Map.cpp:614-661 | the seed is the area the kd-tree finds for the origin; no seed gives no areas; otherwise the areas are distinct mesh areas, all within the radius or else the seed alone; a seed within the radius comes first; when the 2048-step budget covers the mesh, every neighbour within the radius of a collected area within the radius is collected too |
| NavMap.ApplyBlacklistAround | Amalgam/src/Features/NavBot/NavEngine/Map.cpp:663-701 | the candidates are the areas collected half a player wider than the radius; every candidate whose raised centre is within the radius and, when required, in sight gets the mark merged in; only the free blacklist changes, and only for such areas |
| Adjacent.EmptyCacheSane | Amalgam/src/Features/NavBot/NavEngine/Map.h:191-198 | the empty cache of a fresh or reset map holds only geometry that belongs to its connection |
| Adjacent.Classify | Amalgam/src/Features/NavBot/NavEngine/Map.cpp:199-211 | the rise is measured at the crossing point; the stacked-link and unreachable-jump verdicts only hold for two-way links rising past 80% of the crouched jump height or 135% of the jump height, and any two-way rise above crouched jump height plus 10 is unreachable |
| Adjacent.Recompute | Amalgam/src/Features/NavBot/NavEngine/Map.cpp:192-253 | a fresh check spans the two centres and keeps the stuck flag; a passable verdict is visible, costs at least 1 and expires at the cache expiry; a refusal is not visible and has the float limit as cost; with traces ignored every connection is passable |
| Adjacent.ProbeNeverConsulted | Amalgam/src/Features/NavBot/NavEngine/Map.cpp:214-242 | the trace probe of a suspicious link never changes the verdict, because every suspicious link is refused before the probe |
| Adjacent.RefusalNeedsRise | Amalgam/src/Features/NavBot/NavEngine/Map.cpp:205-214 | a one-way link is refused exactly for a rise above crouched jump height, and no link is refused for a rise of at most 80% of it |
| Adjacent.Settle | Amalgam/src/Features/NavBot/NavEngine/Map.cpp:168-253 | a usable cache entry is reused as it is; otherwise the connection is checked afresh; a passable entry is always visible |
| Adjacent.Rebase | Amalgam/src/Features/NavBot/NavEngine/Map.cpp:258-264 | a finite positive base cost is kept; any other is evaluated again to at least 1, and nothing else in the entry changes |
| Adjacent.Surcharge | Amalgam/src/Features/NavBot/NavEngine/Map.cpp:267-282 | the surcharges lie between 0 and 730, and a live stuck record adds at least 12 |
| Adjacent.FinalCost | Amalgam/src/Features/NavBot/NavEngine/Map.cpp:266-285 | the edge cost is at least the distance between the centres (at least 1); with traces ignored it is 1.2 times that distance, otherwise at most 730 more, and at least 12 more on a connection with a live stuck record |
| Adjacent.Noise | Amalgam/src/Features/NavBot/NavEngine/Map.cpp:294-296 | the path noise lies in [0, 1) |
| Adjacent.Jitter | Amalgam/src/Features/NavBot/NavEngine/Map.cpp:290-298 | the jitter factor lies in [1, 1.15) and is 1 when randomisation is off |
| Adjacent.PenaltyOf | Amalgam/src/Features/NavBot/NavEngine/Map.cpp:155-164 | the blacklist penalty lies between 0 and 3500 |
| Adjacent.Jittered | Amalgam/src/Features/NavBot/NavEngine/Map.cpp:297 | a jittered cost grows by less than 15% |
| Adjacent.Finish | Amalgam/src/Features/NavBot/NavEngine/Map.cpp:255-306 | only the connection's own entry changes, apart from its expiry; an emitted cost lies between 1 and 1.15 times the float limit and is at least the centre distance |
| Adjacent.ExpandTo | Amalgam/src/Features/NavBot/NavEngine/Map.cpp:166-306 | an edge costs between 1 and 1.15 times the float limit and is never emitted along a live connection cached as stuck; only the connection's own entry changes; a sane cache stays sane and then edges cost at least the centre distance |
| Adjacent.Expand | Amalgam/src/Features/NavBot/NavEngine/Map.cpp:135-306 | an edge leads to another valid area the current one links to directly, never into a stuck spot, and costs between 1 and 1.15 times the float limit; only entries keyed from the current area to another change; stuck spots stay as they were |
| Adjacent.LinksToTail | Amalgam/src/Features/NavBot/NavEngine/Map.cpp:135 | a connection of the rest of the list is a connection of the list |
| Adjacent.AdmissibleConcat | Amalgam/src/Features/NavBot/NavEngine/Map.cpp:135-307 | edges admissible for the rest of the connections, scanned against a cache agreeing on stuck spots, are admissible for the whole list |
| Adjacent.ExpandAll | Amalgam/src/Features/NavBot/NavEngine/Map.cpp:135-307 | every emitted edge is admissible, and only entries keyed from the current area to another change |
| Adjacent.ExpandAllSane | Amalgam/src/Features/NavBot/NavEngine/Map.cpp:135-307 | scanning all connections keeps a sane cache sane |
| Adjacent.SpansConcat | Amalgam/src/Features/NavBot/NavEngine/Map.cpp:300 | edges that each cost at least their centre distance still do when the lists are joined |
| Adjacent.ExpandAllDistance | Amalgam/src/Features/NavBot/NavEngine/Map.cpp:135-307 | with a sane cache, every emitted edge costs at least the distance between the centres of its areas |
| Adjacent.LiveExpiry | Amalgam/src/Features/NavBot/NavEngine/Map.cpp:130-131 | a fresh entry expires after the current tick exactly when the configured cache time, capped at 45 seconds, lasts at least one tick |
| Adjacent.ExpandToRecords | Amalgam/src/Features/NavBot/NavEngine/Map.cpp:255-306 | an emitted edge leaves its connection recorded as checked, visible and passable until the fresh expiry, and a live record of another connection survives |
| Adjacent.ExpandRecords | Amalgam/src/Features/NavBot/NavEngine/Map.cpp:166-306 | evaluating one link records the connection of every edge it emits and keeps every live record |
| Adjacent.ExpandAllRecords | Amalgam/src/Features/NavBot/NavEngine/Map.cpp:135-307 | scanning all links records the connection of every emitted edge and keeps every live record |
| Adjacent.AdjacentCost | Amalgam/src/Features/NavBot/NavEngine/Map.cpp:123-308 | nothing from a null area; every edge leads to another valid area linked directly, never into a stuck spot, at a cost of at least 1; only the connection cache changes, only for keys from the area to another; while a fresh entry outlives the tick, every edge's connection is left recorded as checked, visible and passable until the fresh expiry, and nothing recorded so is undone; with a sane cache edges cost at least the centre distance |
| Adjacent.ExpandArea | Amalgam/src/Features/NavBot/NavEngine/Map.cpp:123-308 | one expansion writes only the cache entries from its area to another area; an index outside the mesh emits nothing |
| Adjacent.Neighbours | Amalgam/src/Features/NavBot/NavEngine/Map.cpp:112-121 | the search's graph hands each expansion the cache the previous ones wrote, and an expansion of an area changes only its entries to other areas |
| Adjacent.NeighbourExpansion | Amalgam/src/Features/NavBot/NavEngine/Map.cpp:112-121 | an expansion keeps every area's entries to itself, emits edges into the mesh that cost something and are search steps in the cache it leaves, and keeps every step that held before |
| Adjacent.NeighboursValid | Amalgam/src/Features/NavBot/NavEngine/Map.cpp:112-121 | the graph the solver searches, with the cache threaded through its expansions, has edges into the mesh that cost something and are search steps in the cache the expansion leaves; no expansion undoes a step or touches an area's entries to itself |
| Adjacent.PathFollowsConnections | Amalgam/src/Features/NavBot/NavEngine/Map.cpp:9-121 | a path the solver finds over this graph steps only along direct connections to other areas, never into a spot that was stuck before the search |
| Adjacent.SearchPath | Amalgam/src/Features/NavBot/NavEngine/Map.h:171-187 | the search over this graph changes only the scratch nodes and the vischeck cache, and leaves every area's entries to itself, where stuck spots live, as they were |
| Adjacent.PathRecorded | Amalgam/src/Features/NavBot/NavEngine/Map.cpp:255-306 | while a fresh entry outlives the tick, the cache the search leaves holds a live, passable entry for every consecutive pair of the path it found |
| Adjacent.SettleSane | Amalgam/src/Features/NavBot/NavEngine/Map.cpp:184-253 | with a sane cache, a passable settled entry starts and ends at the two centres |
| Base64.Sextet | Amalgam/src/Features/Misc/NamedPipe/NamedPipe.cpp:41-42 | the decoder's table gives -1 or an index of the alphabet, and a non-negative entry is the index of that very symbol |
| Base64.SextetOfDigit | Amalgam/src/Features/Misc/NamedPipe/NamedPipe.cpp:41-42 | the table inverts the alphabet |
| Base64.PadNotInAlphabet | Amalgam/src/Features/Misc/NamedPipe/NamedPipe.cpp:14-17 | the padding character is not an alphabet symbol, so it ends decoding |
| Base64.EmitSextets | Amalgam/src/Features/Misc/NamedPipe/NamedPipe.cpp:27-31 | the inner loop emits one symbol per six bits above the cursor and leaves the cursor in [-6, 0) |
| Base64.EncodeBytes | Amalgam/src/Features/Misc/NamedPipe/NamedPipe.cpp:23-32 | after every input byte the cursor is back in [-6, 0) |
| Base64.Pad | Amalgam/src/Features/Misc/NamedPipe/NamedPipe.cpp:34 | padding keeps the output, adds only `=`, fewer than four of them, and makes the length a multiple of four |
| Base64.EmitOne | Amalgam/src/Features/Misc/NamedPipe/NamedPipe.cpp:27-31 | with fewer than six bits above the cursor one symbol is emitted |
| Base64.EmitTwo | Amalgam/src/Features/Misc/NamedPipe/NamedPipe.cpp:27-31 | with six to eleven bits above the cursor two symbols are emitted |
| Base64.EncodeStepA | Amalgam/src/Features/Misc/NamedPipe/NamedPipe.cpp:23-31 | the first byte of a group emits its top six bits |
| Base64.EncodeStepB | Amalgam/src/Features/Misc/NamedPipe/NamedPipe.cpp:23-31 | the second byte of a group emits the two bits left over and its own top four |
| Base64.EncodeStepC | Amalgam/src/Features/Misc/NamedPipe/NamedPipe.cpp:23-31 | the third byte of a group emits the four bits left over with its top two, then its low six |
| Base64.EncodeGroup | Amalgam/src/Features/Misc/NamedPipe/NamedPipe.cpp:23-31 | three bytes from a group boundary emit one RFC 4648 quad and return the cursor to the boundary |
| Base64.EncodePair | Amalgam/src/Features/Misc/NamedPipe/NamedPipe.cpp:23-31 | the first two bytes of a group emit their two RFC 4648 symbols and leave the cursor two bits short of a symbol |
| Base64.EncodeLastTwo | Amalgam/src/Features/Misc/NamedPipe/NamedPipe.cpp:33-34 | a final group of two bytes closes with three symbols and one `=`, as RFC 4648 says |
| Base64.EncodeLastOne | Amalgam/src/Features/Misc/NamedPipe/NamedPipe.cpp:33-34 | a final group of one byte closes with two symbols and two `=`, as RFC 4648 says |
| Base64.EncodeFirstGroup | Amalgam/src/Features/Misc/NamedPipe/NamedPipe.cpp:23-31 | the streaming encoder and the group-wise reference agree on the first group |
| Base64.EncodeFrom | Amalgam/src/Features/Misc/NamedPipe/NamedPipe.cpp:19-36 | from a group boundary the streaming encoder appends exactly the RFC 4648 encoding of the rest |
| Base64.EncodeShort | Amalgam/src/Features/Misc/NamedPipe/NamedPipe.cpp:33-36 | one or two bytes left at a group boundary close as one padded quad, and none leave the text as it is |
| Base64.EncodeIsRfc | Amalgam/src/Features/Misc/NamedPipe/NamedPipe.cpp:19-36 | the encoder computes the RFC 4648 section 4 encoding |
| Base64.RfcEncodeLength | Amalgam/src/Features/Misc/NamedPipe/NamedPipe.cpp:19-36 | the encoding of n bytes has 4 times ceil(n / 3) characters |
| Base64.RfcEncodeWellFormed | Amalgam/src/Features/Misc/NamedPipe/NamedPipe.cpp:19-36 | the encoding is alphabet symbols followed only by `=` padding |
| Base64.EncodeShape | Amalgam/src/Features/Misc/NamedPipe/NamedPipe.cpp:19-36 | the encoder's output has 4 times ceil(n / 3) characters, alphabet symbols followed only by padding |
| Base64.DecodeOne | Amalgam/src/Features/Misc/NamedPipe/NamedPipe.cpp:47-54 | an alphabet character shifts six bits in and emits a byte exactly when eight bits have gathered above the cursor |
| Base64.DecodeStep0 | Amalgam/src/Features/Misc/NamedPipe/NamedPipe.cpp:45-54 | the first symbol of a quad only fills the accumulator |
| Base64.DecodeStep1 | Amalgam/src/Features/Misc/NamedPipe/NamedPipe.cpp:45-54 | the second symbol of a quad completes its first byte |
| Base64.DecodeStep2 | Amalgam/src/Features/Misc/NamedPipe/NamedPipe.cpp:45-54 | the third symbol of a quad completes its second byte |
| Base64.DecodeStep3 | Amalgam/src/Features/Misc/NamedPipe/NamedPipe.cpp:45-54 | the fourth symbol of a quad completes its third byte |
| Base64.QuadValue | Amalgam/src/Features/Misc/NamedPipe/NamedPipe.cpp:19-57 | the four sextets of a quad carry the same bits as its three bytes |
| Base64.DecodeFront | Amalgam/src/Features/Misc/NamedPipe/NamedPipe.cpp:45-54 | the first two symbols of a quad yield its first byte |
| Base64.DecodeBack | Amalgam/src/Features/Misc/NamedPipe/NamedPipe.cpp:45-54 | the last two symbols of a quad yield its last two bytes |
| Base64.DecodeQuad | Amalgam/src/Features/Misc/NamedPipe/NamedPipe.cpp:45-54 | a whole quad yields its three bytes and returns the cursor to the boundary |
| Base64.DecodeLastTwo | Amalgam/src/Features/Misc/NamedPipe/NamedPipe.cpp:45-55 | a padded final quad of two bytes decodes to those two bytes |
| Base64.DecodeLastOne | Amalgam/src/Features/Misc/NamedPipe/NamedPipe.cpp:45-55 | a padded final quad of one byte decodes to that byte |
| Base64.DecodeRfc | Amalgam/src/Features/Misc/NamedPipe/NamedPipe.cpp:38-57 | decoding an RFC 4648 encoding from a quad boundary appends exactly the encoded bytes |
| Base64.RoundTrip | Amalgam/src/Features/Misc/NamedPipe/NamedPipe.cpp:19-57 | decoding the encoding of any byte string gives the string back |
| Base64.AlphabetPrefix | Amalgam/src/Features/Misc/NamedPipe/NamedPipe.cpp:47 | the prefix counted is the longest run of alphabet characters at the start |
| Base64.DecodeCount | Amalgam/src/Features/Misc/NamedPipe/NamedPipe.cpp:45-55 | each alphabet character adds six bits, and a byte leaves for every eight |
| Base64.DecodeLength | Amalgam/src/Features/Misc/NamedPipe/NamedPipe.cpp:38-57 | decoding yields floor(6k / 8) bytes for the k alphabet characters before the first other character |
| Base64.DecodeStopsAt | Amalgam/src/Features/Misc/NamedPipe/NamedPipe.cpp:47 | nothing after a character outside the alphabet affects the result |
| Base64.DecodeIgnoresTail | Amalgam/src/Features/Misc/NamedPipe/NamedPipe.cpp:38-57 | decoding ignores everything from the first character outside the alphabet on |
| Util.Pow2 | Amalgam/src/Features/Misc/NamedPipe/NamedPipe.cpp:224 | a left shift of 1 is at least 1 |
| Util.Pow2Mono | Amalgam/src/Features/Misc/NamedPipe/NamedPipe.cpp:224 | a larger shift never gives a smaller factor |
| NamedPipe.BaseDelay | Amalgam/src/Features/Misc/NamedPipe/NamedPipe.cpp:221-226 | the delay before jitter stays between 500 ms and 10 s |
| NamedPipe.BaseDelayGrowth | Amalgam/src/Features/Misc/NamedPipe/NamedPipe.cpp:221-226 | more failed attempts never shorten the delay, and from the fifth attempt on it is the 10 s cap |
| NamedPipe.Jitter | Amalgam/src/Features/Misc/NamedPipe/NamedPipe.cpp:228 | the jitter is at most a tenth of the delay either way, for any draw |
| NamedPipe.MulRange | Amalgam/src/Features/Misc/NamedPipe/NamedPipe.cpp:228 | scaling by 0.2 a draw in [-0.5, 0.5] stays within a tenth of the delay |
| NamedPipe.ReconnectDelay | Amalgam/src/Features/Misc/NamedPipe/NamedPipe.cpp:221-230 | the delay waited is within 10% of the capped exponential delay |
| NamedPipe.FirstNonPriority | Amalgam/src/Features/Misc/NamedPipe/NamedPipe.cpp:529-537 | finds the oldest non-priority message, and only when one exists |
| NamedPipe.QueueMessage | Amalgam/src/Features/Misc/NamedPipe/NamedPipe.cpp:521-539 | priority messages, and any message below 100 queued, are appended at the end |
| NamedPipe.OfClass | Amalgam/src/Features/Misc/NamedPipe/NamedPipe.cpp:525-537 | the messages of one class never outnumber the queue |
| NamedPipe.OfClassAppend | Amalgam/src/Features/Misc/NamedPipe/NamedPipe.cpp:525-537 | splitting a queue splits each class the same way |
| NamedPipe.OfClassAllPriority | Amalgam/src/Features/Misc/NamedPipe/NamedPipe.cpp:529-537 | a run of priority messages holds no non-priority message |
| NamedPipe.QueueKeepsPriority | Amalgam/src/Features/Misc/NamedPipe/NamedPipe.cpp:521-539 | queueing never loses, reorders or duplicates a priority message, and a new priority message joins at the end |
| NamedPipe.QueueEvictsOldest | Amalgam/src/Features/Misc/NamedPipe/NamedPipe.cpp:527-537 | at the limit a non-priority message evicts the oldest non-priority message and joins its class at the end; with none to evict it is dropped |
| NamedPipe.EvictShift | Amalgam/src/Features/Misc/NamedPipe/NamedPipe.cpp:527-537 | erasing the oldest non-priority message and appending a non-priority one drops the head of that class and adds the new message at its end |
| NamedPipe.QueueBound | Amalgam/src/Features/Misc/NamedPipe/NamedPipe.cpp:525-537 | non-priority traffic never grows the queue past 100, nor past its length once at the limit |
| NamedPipe.FindClaim | Amalgam/src/Features/Misc/NamedPipe/NamedPipe.cpp:621-631 | finds the first reservation with the (map, point, owner) key, and only when one exists |
| NamedPipe.Claim | Amalgam/src/Features/Misc/NamedPipe/NamedPipe.cpp:617-642 | a claim either keeps the table's length (refresh) or appends exactly the new reservation |
| NamedPipe.ClaimCorrect | Amalgam/src/Features/Misc/NamedPipe/NamedPipe.cpp:617-642 | after a claim the table has one reservation per key, holds the claimed reservation, and every other reservation is kept unchanged |
| NamedPipe.Keep | Amalgam/src/Features/Misc/NamedPipe/NamedPipe.cpp:660-664 | the survivors of a removal are exactly the reservations the test keeps |
| NamedPipe.Release | Amalgam/src/Features/Misc/NamedPipe/NamedPipe.cpp:658-665 | a release removes exactly the reservations with the key |
| NamedPipe.Purge | Amalgam/src/Features/Misc/NamedPipe/NamedPipe.cpp:800-809 | the purge removes exactly the reservations that expired before now |
| NamedPipe.Spots | Amalgam/src/Features/Misc/NamedPipe/NamedPipe.cpp:679-686 | a spot is reported exactly when a reservation at the point by a not-ignored owner holds it; no more spots than reservations, and a one-reservation table gives its spot exactly when it is reported |
| NamedPipe.SpotsAppend | Amalgam/src/Features/Misc/NamedPipe/NamedPipe.cpp:679-686 | the spots of two tables joined are the first's followed by the second's, so the query gives one spot per reported reservation, in table order |
| NamedPipe.ReservedSpots | Amalgam/src/Features/Misc/NamedPipe/NamedPipe.cpp:674-688 | the query purges the table and reports exactly the spots of live reservations at the point, skipping the ignored owner |
| NamedPipe.IgnoreZeroReportsAll | Amalgam/src/Features/Misc/NamedPipe/NamedPipe.cpp:683 | ignoring owner 0 hides nothing: every live reservation at the point is reported |
| NamedPipe.AnnounceClaim | Amalgam/src/Features/Misc/NamedPipe/NamedPipe.cpp:612-651 | an empty map name or negative point changes nothing; otherwise the own claim is upserted with expiry now plus duration, and exactly one priority message is queued after the others: a "CPCapture" message with the claim's nine fields |
| NamedPipe.AnnounceRelease | Amalgam/src/Features/Misc/NamedPipe/NamedPipe.cpp:653-672 | an empty map name or negative point changes nothing; otherwise exactly the own reservations with the key are removed, and exactly one priority message is queued after the others: a "CPCapture" release with map, point and owner |
| NamedPipe.TokensOfJoin | Amalgam/src/Features/Misc/NamedPipe/NamedPipe.cpp:816-822 | fields without a separator, the last one non-empty, split back into exactly those fields once joined |
| NamedPipe.AnnouncedClaimHeard | Amalgam/src/Features/Misc/NamedPipe/NamedPipe.cpp:645-648 | another bot that hears the claim announcement upserts the same claim, with the spot and duration as written, given number formats its parsers read back |
| NamedPipe.AnnouncedReleaseHeard | Amalgam/src/Features/Misc/NamedPipe/NamedPipe.cpp:666-669 | another bot that hears the release announcement removes exactly the reservations the sender released |
| NamedPipe.FindSeparator | Amalgam/src/Features/Misc/NamedPipe/NamedPipe.cpp:820 | finds the first separator, and only when one exists |
| NamedPipe.TokensHaveNoSeparator | Amalgam/src/Features/Misc/NamedPipe/NamedPipe.cpp:818-821 | no token contains the separator |
| NamedPipe.SeparatorsAppend | Amalgam/src/Features/Misc/NamedPipe/NamedPipe.cpp:818-821 | separator counts add over concatenation |
| NamedPipe.NoSeparators | Amalgam/src/Features/Misc/NamedPipe/NamedPipe.cpp:818-821 | text without a separator has none to count |
| NamedPipe.TokensCount | Amalgam/src/Features/Misc/NamedPipe/NamedPipe.cpp:818-821 | there is one token per separator, plus one unless the text is empty or ends in a separator |
| NamedPipe.JoinCons | Amalgam/src/Features/Misc/NamedPipe/NamedPipe.cpp:818-821 | joining puts one separator between the first token and the rest |
| NamedPipe.TokensStep | Amalgam/src/Features/Misc/NamedPipe/NamedPipe.cpp:818-821 | after the first token, the tokens are those of the text past the first separator |
| NamedPipe.Trailer | Amalgam/src/Features/Misc/NamedPipe/NamedPipe.cpp:818-821 | the part `getline` swallows is empty or a single separator |
| NamedPipe.TrailerOfSuffix | Amalgam/src/Features/Misc/NamedPipe/NamedPipe.cpp:818-821 | cutting a proper prefix does not change what trails the text |
| NamedPipe.JoinTokensStep | Amalgam/src/Features/Misc/NamedPipe/NamedPipe.cpp:818-821 | the join of the tokens is the first token, a separator, and the join of the rest |
| NamedPipe.ConcatStep | Amalgam/src/Features/Misc/NamedPipe/NamedPipe.cpp:818-821 | the text is rebuilt from its cut at a separator |
| NamedPipe.TokensJoin | Amalgam/src/Features/Misc/NamedPipe/NamedPipe.cpp:816-822 | splitting loses nothing: joining the tokens with separators gives back the text, less a trailing separator |
| NamedPipe.ShortMessagesIgnored | Amalgam/src/Features/Misc/NamedPipe/NamedPipe.cpp:811-876 | an empty message, an unknown command, a claim with fewer than nine tokens or a release with fewer than four leaves the table unchanged |
| NamedPipe.ClaimMessageUpserts | Amalgam/src/Features/Misc/NamedPipe/NamedPipe.cpp:828-872 | a well-formed claim keeps one reservation per key and adds one for the announced map, owner cast to 32 bits, expiring now plus the duration |
| NamedPipe.ClassName | Amalgam/src/Features/Misc/NamedPipe/NamedPipe.cpp:891-906 | classes 1 to 9 have names and every other value maps to "N/A" |
| NamedPipe.ClassIndex | Amalgam/src/Features/Misc/NamedPipe/NamedPipe.cpp:891-906 | the reverse lookup stays in 0..9 |
| NamedPipe.ClassNameInverse | Amalgam/src/Features/Misc/NamedPipe/NamedPipe.cpp:891-906 | the class names are distinct: the reverse lookup recovers each class from its name |
| DuckJump.Reset | Amalgam/src/Features/Misc/DuckJump/DuckJump.cpp:269-274 | a reset leaves the machine idle with no state change pending and no start tick |
| DuckJump.ForceJump | Amalgam/src/Features/Misc/DuckJump/DuckJump.h:37 | a forced jump arms PREPARE only from IDLE and is ignored in every other state |
| DuckJump.Observe | Amalgam/src/Features/Misc/DuckJump/DuckJump.cpp:188-200 | a state held past 33 ticks from a positive start falls back to IDLE, otherwise the state is kept, and the change tracking then agrees with it |
| DuckJump.RunFollowsTable | Amalgam/src/Features/Misc/DuckJump/DuckJump.cpp:202-266 | without a reset every call moves to a successor of the acting state in the transition table and remembers the acting state |
| DuckJump.TableIsTight | Amalgam/src/Features/Misc/DuckJump/DuckJump.cpp:202-266 | every transition of the table is taken by some input |
| DuckJump.GuardResets | Amalgam/src/Features/Misc/DuckJump/DuckJump.cpp:177-181 | no living player, the feature off or jump not held resets the machine and leaves the buttons alone |
| DuckJump.FixedProgression | Amalgam/src/Features/Misc/DuckJump/DuckJump.cpp:209-225 | PREPARE, CTAP and JUMP each advance one step per call (to CTAP, JUMP, ASCENDING) unless the timeout fires |
| DuckJump.ButtonEffects | Amalgam/src/Features/Misc/DuckJump/DuckJump.cpp:209-265 | PREPARE and CTAP hold duck and release jump, JUMP does the reverse, ASCENDING holds duck unless a ledge grab predicts a ground snap, DESCENDING releases duck, IDLE changes nothing |
| DuckJump.AscendingEnds | Amalgam/src/Features/Misc/DuckJump/DuckJump.cpp:227-246 | ASCENDING ends exactly when upward speed is gone or a ledge grab predicts a ground snap |
| DuckJump.DescendingEnds | Amalgam/src/Features/Misc/DuckJump/DuckJump.cpp:248-265 | DESCENDING returns to IDLE on the ground; in the air it re-launches exactly when a jump is intended and worth taking |
| DuckJump.IdleLeaves | Amalgam/src/Features/Misc/DuckJump/DuckJump.cpp:204-207 | IDLE is left exactly from the ground with movement intent and a worthwhile jump, to CTAP or JUMP as the crouch-tap setting says |
| DuckJump.Timeout | Amalgam/src/Features/Misc/DuckJump/DuckJump.cpp:188-193 | a timed-out state is handled as IDLE, so the call ends in IDLE, CTAP or JUMP |
| DuckJump.ChangeStamped | Amalgam/src/Features/Misc/DuckJump/DuckJump.cpp:195-200 | the start tick is restamped exactly when the state differs from the last one seen |
| Crumbs.Abs | Amalgam/src/Features/NavBot/NavEngine/NavEngine.cpp:160 | the absolute value is non-negative and equal to the value or its negation |
| Crumbs.Ceil | Amalgam/src/Features/NavBot/NavEngine/NavEngine.cpp:167 | the ceiling is the least integer not below the value |
| Crumbs.ClampInt | Amalgam/src/Features/NavBot/NavEngine/NavEngine.cpp:167 | the clamp stays in range, keeps values in range and maps values outside to the nearer bound |
| Crumbs.DivLe | Amalgam/src/Features/NavBot/NavEngine/NavEngine.cpp:167 | a quotient bounded by c means the dividend is covered by c steps |
| Crumbs.MulLe | Amalgam/src/Features/NavBot/NavEngine/NavEngine.cpp:167 | multiplying by a non-negative factor keeps order |
| Crumbs.CountCovers | Amalgam/src/Features/NavBot/NavEngine/NavEngine.cpp:232 | a count at least the clamped ceiling covers the distance in steps of the spacing, unless the clamp cut it |
| Crumbs.Reach | Amalgam/src/Features/NavBot/NavEngine/NavEngine.cpp:156-161 | the effective distance is at least the vertical distance |
| Crumbs.DirectionFlat | Amalgam/src/Features/NavBot/NavEngine/NavEngine.cpp:171-176 | normalising a flat vector keeps it flat |
| Crumbs.IntraCount | Amalgam/src/Features/NavBot/NavEngine/NavEngine.cpp:166-167 | the count is the least number of steps of at most 120 units covering the distance, within 1..8 |
| Crumbs.IntraAreaCrumbs | Amalgam/src/Features/NavBot/NavEngine/NavEngine.cpp:151-186 | no crumbs without an area or within one unit; otherwise IntraCount crumbs in the area, without drops, each a further equal step from the start |
| Crumbs.VecStep | Amalgam/src/Features/NavBot/NavEngine/NavEngine.cpp:182 | successive multiples of the step are one step apart |
| Crumbs.VecLast | Amalgam/src/Features/NavBot/NavEngine/NavEngine.cpp:168-169 | one step after the last crumb is the destination |
| Crumbs.IntraEvenSteps | Amalgam/src/Features/NavBot/NavEngine/NavEngine.cpp:166-185 | the crumbs cut the way into equal steps, and one more step from the last reaches the destination |
| Crumbs.AdaptiveSpacing | Amalgam/src/Features/NavBot/NavEngine/NavEngine.cpp:228-230 | the spacing stays within [72, 150] |
| Crumbs.SharpTurnDenser | Amalgam/src/Features/NavBot/NavEngine/NavEngine.cpp:226-230 | a sharp turn never spreads crumbs further apart, and a small enough area gets the 150 maximum on a straight way |
| Crumbs.AdaptiveCount | Amalgam/src/Features/NavBot/NavEngine/NavEngine.cpp:232-235 | the intermediate count is between 1 and 24 |
| Crumbs.AdaptiveCountCovers | Amalgam/src/Features/NavBot/NavEngine/NavEngine.cpp:232-235 | unless capped at 24, no gap along the way exceeds the spacing |
| Crumbs.AdaptiveCountFillsArea | Amalgam/src/Features/NavBot/NavEngine/NavEngine.cpp:233-234 | below 10 crumbs there is at least one per 220 units of area diagonal |
| Crumbs.SampleOnLeg | Amalgam/src/Features/NavBot/NavEngine/NavEngine.cpp:193-196 | a clamped lerp lies between its two ends, coordinate by coordinate |
| Crumbs.LinePoint | Amalgam/src/Features/NavBot/NavEngine/NavEngine.cpp:257-271 | the point at a fraction of the broken line lies on one of its two legs |
| Crumbs.Intermediate | Amalgam/src/Features/NavBot/NavEngine/NavEngine.cpp:239-286 | each intermediate crumb sits on the area's surface, carries no drop, faces flat, and lies on a leg unless the curve is used |
| Crumbs.AreaSize | Amalgam/src/Features/NavBot/NavEngine/NavEngine.cpp:219-221 | the area size is at least 1 |
| Crumbs.WayCount | Amalgam/src/Features/NavBot/NavEngine/NavEngine.cpp:211-235 | the count for a way is between 1 and 24 |
| Crumbs.AdaptiveCrumbs | Amalgam/src/Features/NavBot/NavEngine/NavEngine.cpp:239-294 | one crumb per intermediate step plus one exactly at the next center; none carries a drop, all face flat, and all but the last sit on the area's surface |
| Crumbs.AdaptiveOnLegs | Amalgam/src/Features/NavBot/NavEngine/NavEngine.cpp:237-273 | off the curve every crumb but the last lies on one of the way's two legs, and a drop never uses the curve |
| Crumbs.NearestFrom | Amalgam/src/Features/NavBot/NavEngine/NavEngine.cpp:298-308 | the scan settles on a crumb no farther than any other and the first of equals, or crumb 0 if none is nearer than the float maximum |
| Crumbs.Nearest | Amalgam/src/Features/NavBot/NavEngine/NavEngine.cpp:298-308 | the drop crumb is the first crumb nearest to the crossing point, or crumb 0 when none is nearer than the float maximum |
| Crumbs.MarkDrop | Amalgam/src/Features/NavBot/NavEngine/NavEngine.cpp:296-315 | only the nearest crumb is changed, and it gets the hint's drop height, approach distance and direction; without a drop nothing changes |
| Crumbs.ConnectionEntry | Amalgam/src/Features/NavBot/NavEngine/NavEngine.cpp:470-490 | a missing area gives an empty entry; otherwise 3 to 26 crumbs from the current center to the next center |
| Crumbs.EntryDropCrumb | Amalgam/src/Features/NavBot/NavEngine/NavEngine.cpp:296-315 | exactly one crumb, the one nearest the adjusted crossing point, carries a drop when the connection is a drop-down, otherwise none |
| Crumbs.NearestSamePositions | Amalgam/src/Features/NavBot/NavEngine/NavEngine.cpp:298-308 | the nearest crumb depends only on positions |
| Crumbs.NearestFromSame | Amalgam/src/Features/NavBot/NavEngine/NavEngine.cpp:298-308 | the scan depends only on positions |
| Crumbs.AppendCached | Amalgam/src/Features/NavBot/NavEngine/NavEngine.cpp:529-548 | without an area the trail is unchanged; otherwise the trail is kept as a prefix and only restored cached crumbs are added |
| Crumbs.Restored | Amalgam/src/Features/NavBot/NavEngine/NavEngine.cpp:539-545 | restoring keeps one crumb per cached crumb |
| Crumbs.RestoredTail | Amalgam/src/Features/NavBot/NavEngine/NavEngine.cpp:534-547 | restoring a suffix adds no crumb the whole would not |
| Crumbs.AppendSpread | Amalgam/src/Features/NavBot/NavEngine/NavEngine.cpp:534-547 | no appended crumb is within one unit of the one before it, and every cached crumb is appended or lies within one unit of a trail crumb |
| Crumbs.AppendSpaced | Amalgam/src/Features/NavBot/NavEngine/NavEngine.cpp:534-547 | no appended crumb lies within one unit of the crumb before it |
| Crumbs.AppendCovers | Amalgam/src/Features/NavBot/NavEngine/NavEngine.cpp:534-547 | every cached crumb is appended or lies within one unit of a crumb of the trail |
| CrumbCache.MakeKey | Amalgam/src/Features/NavBot/NavEngine/NavEngine.cpp:318-321 | a connection key fits in 64 bits |
| CrumbCache.KeyUnpack | Amalgam/src/Features/NavBot/NavEngine/NavEngine.cpp:436-437 | the saved "from" and "to" fields recover both 32-bit ids from a key |
| CrumbCache.KeyRepack | Amalgam/src/Features/NavBot/NavEngine/NavEngine.cpp:436-437 | every 64-bit key is the key of its two halves |
| CrumbCache.KeyInjective | Amalgam/src/Features/NavBot/NavEngine/NavEngine.cpp:318-321 | two connections between 32-bit ids never share a key |
| CrumbCache.LoadEntries | Amalgam/src/Features/NavBot/NavEngine/NavEngine.cpp:367-399 | the loaded keys are exactly the earlier ones plus those of the records naming two known areas and holding crumbs; every other entry is untouched and no empty entry is added |
| CrumbCache.LoadCache | Amalgam/src/Features/NavBot/NavEngine/NavEngine.cpp:333-409 | the cache is ready exactly when it has an entry, which needs an active map, a file and a matching version, map, BSP size and area count; only accepted records are loaded and none is empty |
| CrumbCache.Records | Amalgam/src/Features/NavBot/NavEngine/NavEngine.cpp:433-457 | one record is written per listed key |
| CrumbCache.SaveCache | Amalgam/src/Features/NavBot/NavEngine/NavEngine.cpp:411-468 | a file is written exactly when the map is active, the cache has entries and a path exists, and it carries the current signature |
| CrumbCache.RecordOfKey | Amalgam/src/Features/NavBot/NavEngine/NavEngine.cpp:367-399 | the record saved for a key of a well-keyed cache is accepted on loading and stored under the same key |
| CrumbCache.LoadHead | Amalgam/src/Features/NavBot/NavEngine/NavEngine.cpp:369-399 | loading the records in turn stores the first, then loads the rest |
| CrumbCache.LoadRecords | Amalgam/src/Features/NavBot/NavEngine/NavEngine.cpp:369-399 | loading saved records yields the saved entries for their keys and keeps the rest |
| CrumbCache.LoadStep | Amalgam/src/Features/NavBot/NavEngine/NavEngine.cpp:369-399 | storing the first record before the rest yields exactly the keys of the accumulator and of the order, with the saved entry for each ordered key |
| CrumbCache.SaveLoadRoundTrip | Amalgam/src/Features/NavBot/NavEngine/NavEngine.cpp:333-468 | a saved cache of known areas with crumbs loads back identical and ready on the same map |
| CrumbCache.LoadSaved | Amalgam/src/Features/NavBot/NavEngine/NavEngine.cpp:367-399 | loading every record of a well-keyed cache into an empty cache gives the cache back |
| CrumbCache.ForeignFileIgnored | Amalgam/src/Features/NavBot/NavEngine/NavEngine.cpp:351-360 | a file for another version, map, BSP size or area count loads nothing and is not ready |
| CrumbCache.ValidLinks | Amalgam/src/Features/NavBot/NavEngine/NavEngine.cpp:501-506 | the connections walked all lead to valid areas |
| CrumbCache.BuildEntries | Amalgam/src/Features/NavBot/NavEngine/NavEngine.cpp:501-512 | the built keys are exactly the earlier ones plus those of the connections walked; other entries are untouched |
| CrumbCache.EntryOrigin | Amalgam/src/Features/NavBot/NavEngine/NavEngine.cpp:508-510 | each new entry is the entry of a connection stored under that connection's key |
| CrumbCache.BuildCache | Amalgam/src/Features/NavBot/NavEngine/NavEngine.cpp:492-516 | without an active map the cache is empty; otherwise it holds exactly the keys of the connections between valid areas, ready and dirty exactly when non-empty |
| CrumbCache.BuildOrigin | Amalgam/src/Features/NavBot/NavEngine/NavEngine.cpp:501-512 | each built entry is the entry of a connection between valid areas under the key of their ids |
| CrumbCache.BuiltEntries | Amalgam/src/Features/NavBot/NavEngine/NavEngine.cpp:470-512 | each built entry is the crumb list of a real connection between two valid areas, under the key of their ids |
| CrumbCache.BuiltKey | Amalgam/src/Features/NavBot/NavEngine/NavEngine.cpp:501-512 | with 32-bit area ids a built key is a 64-bit key of two known areas and its entry is non-empty |
| CrumbCache.EntriesNonEmpty | Amalgam/src/Features/NavBot/NavEngine/NavEngine.cpp:470-490 | every connection between valid areas yields crumbs, so the empty-entry check never skips one |
| CrumbCache.BuiltCacheWellKeyed | Amalgam/src/Features/NavBot/NavEngine/NavEngine.cpp:492-516 | with 32-bit area ids a built cache can be saved and loaded back unchanged |
| CrumbCache.FindEntry | Amalgam/src/Features/NavBot/NavEngine/NavEngine.cpp:518-527 | an entry is found exactly when both areas exist and their key is cached, and it is the cached list |
| Engine.Rank | Amalgam/src/Features/NavBot/NavEngine/NavEngine.h:6-19 | no priority is 0 and the others run from 5 (patrol) to 18 (follow bot) |
| Engine.PriorityOrder | Amalgam/src/Features/NavBot/NavEngine/NavEngine.h:6-19 | every priority is declared once, later ones outrank earlier ones, and distinct priorities have distinct values |
| Engine.Position | Amalgam/src/Features/NavBot/NavEngine/NavEngine.h:6-19 | each priority has a place in the declaration |
| Engine.DeclaredAt | Amalgam/src/Features/NavBot/NavEngine/NavEngine.h:6-19 | each priority sits at its own place in the declaration |
| Engine.RankAt | Amalgam/src/Features/NavBot/NavEngine/NavEngine.h:6-19 | the first declared value is 0 and the k-th after it is k + 4 |
| Engine.Threshold | Amalgam/src/Features/NavBot/NavEngine/NavEngine.cpp:576 | a patrol falls back after one strict failure, anything else after two |
| Engine.StrictFallback | Amalgam/src/Features/NavBot/NavEngine/NavEngine.cpp:569-600 | with traces off nothing is recorded and there is no fallback; otherwise the failure is recorded, and it falls back exactly for a patrol or a repeat within 650 units and the window after an earlier failure, resetting the count |
| Engine.StrictCountBounded | Amalgam/src/Features/NavBot/NavEngine/NavEngine.cpp:583-597 | the strict-failure count never leaves {0, 1} |
| Engine.SecondFailureFallsBack | Amalgam/src/Features/NavBot/NavEngine/NavEngine.cpp:569-600 | from a clean record a non-patrol request falls back on its second failure at the same destination within the window, not its first |
| Engine.FreshFailureWaits | Amalgam/src/Features/NavBot/NavEngine/NavEngine.cpp:580-595 | a failure elsewhere or after the window restarts the count at one without a fallback |
| Engine.FindFrom | Amalgam/src/Features/NavBot/NavEngine/NavEngine.cpp:1465 | finds the first occurrence at or after a position, and reports none exactly when there is none |
| Engine.Find | Amalgam/src/Features/NavBot/NavEngine/NavEngine.cpp:1465 | `find` succeeds exactly when the text occurs, at its first occurrence |
| Engine.RepathDelay | Amalgam/src/Features/NavBot/NavEngine/NavEngine.cpp:1464-1466 | the repath waits 0.45 s when the reason names a blacklist or being stuck, else 0.2 s |
| Engine.AbandonPath | Amalgam/src/Features/NavBot/NavEngine/NavEngine.cpp:1451-1472 | without a map nothing changes; otherwise nothing is being followed any more: the trail and the last crumb's area are dropped, and either one repath is requested no earlier than one already scheduled, consuming the flag, or the priority is dropped; nothing else changes |
| Engine.StuckWaitsLonger | Amalgam/src/Features/NavBot/NavEngine/NavEngine.cpp:1464-1467 | abandoning because of being stuck schedules the repath at least 0.45 s ahead |
| Engine.OtherReasonWaitsShorter | Amalgam/src/Features/NavBot/NavEngine/NavEngine.cpp:1464-1467 | any other reason schedules the repath at the later of the existing one and 0.2 s ahead |
| Engine.AbandonTwice | Amalgam/src/Features/NavBot/NavEngine/NavEngine.cpp:1451-1472 | abandoning twice leaves nothing to follow and drops the priority, since the first consumed the repath flag |
| Engine.CancelPath | Amalgam/src/Features/NavBot/NavEngine/NavEngine.cpp:1519-1528 | after cancelling nothing is being followed: the trail, the last crumb's area, the path direction, the look target, the priority, ignore-traces and the scheduled repath are dropped, and nothing else changes |
| Engine.CancelIdempotent | Amalgam/src/Features/NavBot/NavEngine/NavEngine.cpp:1519-1528 | cancelling twice is cancelling once, and leaves nothing to follow |
| PathRequest.BuildTrail | Amalgam/src/Features/NavBot/NavEngine/NavEngine.cpp:736-770 | walking the path keeps the trail so far as a prefix and its crumbs placed, ends a non-empty path at its last area with the destination crumb, and only dirties or extends the crumb cache |
| PathRequest.Connect | Amalgam/src/Features/NavBot/NavEngine/NavEngine.cpp:745-760 | a connection appends the cached crumbs when its entry is cached, generating and storing the entry (dirtying the cache) only when it is missing or empty |
| PathRequest.PlacedAppend | Amalgam/src/Features/NavBot/NavEngine/NavEngine.cpp:529-548 | appending cached crumbs under an area keeps every crumb placed |
| PathRequest.Trail | Amalgam/src/Features/NavBot/NavEngine/NavEngine.cpp:727-770 | the new trail is placed; a single-area trail leaves the cache alone, and a multi-area trail ends at the destination |
| PathRequest.Trim | Amalgam/src/Features/NavBot/NavEngine/NavEngine.cpp:772-802 | trimming drops at most the first two crumbs, only when the first repeats the last crumb reached or the player is already past it, and never the destination |
| PathRequest.PairKeys | Amalgam/src/Features/NavBot/NavEngine/NavEngine.cpp:812-816 | every consecutive pair of the trail has its key among the pair keys |
| PathRequest.Validate | Amalgam/src/Features/NavBot/NavEngine/NavEngine.cpp:804-855 | a trail passes only with every pair recorded passable; a failure leaves a pair recorded blocked; entries of other pairs are untouched; a trail whose every step is passable passes when no live entry blocks |
| PathRequest.ValidateTrusted | Amalgam/src/Features/NavBot/NavEngine/NavEngine.cpp:818-830 | a trail whose every pair has a live passable entry passes without a trace and leaves the cache as it was |
| PathRequest.ValidatePasses | Amalgam/src/Features/NavBot/NavEngine/NavEngine.cpp:812-854 | a trail passes whenever no pair has a live blocking entry and every pair without a live passable entry traces passable |
| PathRequest.KeepsTrans | Amalgam/src/Features/NavBot/NavEngine/NavEngine.cpp:550-873 | what a request keeps is kept across a retry with traces off |
| PathRequest.Gate | Amalgam/src/Features/NavBot/NavEngine/NavEngine.cpp:602-632 | the gates pass exactly without a warp, when ready, at no lower priority and with a local and a destination area; a warp refuses first, then a lower priority after readiness |
| PathRequest.NavTo | Amalgam/src/Features/NavBot/NavEngine/NavEngine.cpp:550-873 | no map or player changes nothing; a refused gate records only the request and its reason; a reusable path is kept; a path with a broken step fails with the search's vischeck cache installed; a success takes the request's priority, leaves a validated trail unless traces are ignored, and clears the strict counter |
| PathRequest.Route | Amalgam/src/Features/NavBot/NavEngine/NavEngine.cpp:646-873 | the map takes the vischeck cache the search left before anything else; an empty path with code 2 or an error, or a path with a broken step, fails with that cache installed and nothing else but the reason changed; the untouched state is kept, the priority is taken only on success, and a validated trail is left when traces are on |
| PathRequest.Found | Amalgam/src/Features/NavBot/NavEngine/NavEngine.cpp:646-647 | the search the request runs, over the map's graph and cost model with the request's ignore-traces flag, changes only the map's scratch nodes and vischeck cache and keeps the search tree valid; its code is -1 when it never ran, else 0, 1 or 2 |
| PathRequest.FoundShape | Amalgam/src/Features/NavBot/NavEngine/Map.h:171-186 | code -1 exactly on an inactive map and 2 exactly for a local or destination area outside the mesh, with the local area alone as the path; code 1 and -1 give no path; code 0 gives a path from the local to the destination area; every path handed back follows direct connections, so the disconnected-areas check (NavEngine.cpp:713-725) never fires on it |
| PathRequest.FoundRecorded | Amalgam/src/Features/NavBot/NavEngine/Map.h:171-186 | while a fresh entry outlives the tick, the map the search leaves holds a live, passable vischeck entry for every step of a found path |
| PathRequest.OnPathLive | Amalgam/src/Features/NavBot/NavEngine/NavEngine.cpp:818-830 | the key of any step of a path whose steps all have live, passable entries is itself live and passable, so the trail check skips its trace |
| PathRequest.SearchedTrailTrusted | Amalgam/src/Features/NavBot/NavEngine/NavEngine.cpp:804-851 | a trail whose every pair of crumbs is a step of the found path passes the check against the cache the search left, with no trace and with the cache unchanged |
| Adjacent.SearchPathShape | Amalgam/src/Features/NavBot/NavEngine/Map.h:171-186 | an inactive map gives no path and no code and stays as it was; code 2 exactly for an invalid start or end, with the start alone as the path and the cache untouched; code 1 gives no path; code 0 gives a path from start to end whose steps are direct connections to other areas of the mesh |
| PathRequest.Dispatch | Amalgam/src/Features/NavBot/NavEngine/NavEngine.cpp:648-873 | an empty path between different areas with code 2 or an error fails with that reason, a path with a broken step fails as disconnected, each changing nothing else; otherwise the untouched state is kept, the priority is taken only on success, and a validated trail is left when traces are on |
| PathRequest.Follow | Amalgam/src/Features/NavBot/NavEngine/NavEngine.cpp:713-873 | a usable path leads to a validated trail with the request's priority, or to failure with the old priority |
| PathRequest.NoPath | Amalgam/src/Features/NavBot/NavEngine/NavEngine.cpp:649-696 | an empty path between different areas fails with the solver's reason, except that "no solution" may fall back to a request with traces off |
| PathRequest.Retry | Amalgam/src/Features/NavBot/NavEngine/NavEngine.cpp:858-862 | the emergency fallback succeeds only with traces off and leaves the strict record as it found it |
| PathRequest.Rebuild | Amalgam/src/Features/NavBot/NavEngine/NavEngine.cpp:727-802 | rebuilding changes only the trail and the crumb cache, and the trail is placed |
| PathRequest.Revalidate | Amalgam/src/Features/NavBot/NavEngine/NavEngine.cpp:804-855 | checking the trail changes only the vischeck cache; a valid trail has every pair recorded passable; a trail whose pairs all have live passable entries, such as those the search records, is valid without a trace, and one is valid whenever no pair is live blocked and the others trace passable |
| PathRequest.RevalidateFacts | Amalgam/src/Features/NavBot/NavEngine/NavEngine.cpp:812-854 | checked from its first pair, a trail with only live passable entries passes untouched, and one without live blocking entries whose other pairs trace passable passes |
| PathRequest.TrimPlaced | Amalgam/src/Features/NavBot/NavEngine/NavEngine.cpp:772-802 | trimming keeps a placed trail placed |
| PathRequest.Check | Amalgam/src/Features/NavBot/NavEngine/NavEngine.cpp:804-873 | a fresh trail is validated unless traces are ignored; success takes the priority and clears the strict counter |
| PathRequest.Commit | Amalgam/src/Features/NavBot/NavEngine/NavEngine.cpp:869-873 | success takes the request's priority and, with traces on, resets the strict count, changing nothing else |
| PathRequest.Blocked | Amalgam/src/Features/NavBot/NavEngine/NavEngine.cpp:856-866 | a blocked trail either falls back to a request with traces off or fails with the old priority |
| StuckDetect.Half | Amalgam/src/Features/NavBot/NavEngine/NavEngine.cpp:1185 | integer halving rounds toward zero, as C++ does |
| StuckDetect.Mark | Amalgam/src/Features/NavBot/NavEngine/NavEngine.cpp:1148-1152 | blacklisting a key blocks it until the expiry, keeps its cost and dropdown, and changes no other key |
| StuckDetect.MarkNearby | Amalgam/src/Features/NavBot/NavEngine/NavEngine.cpp:1163-1175 | every nearby area but the local one is blacklisted to itself; nothing else is added or changed |
| StuckDetect.BlacklistAround | Amalgam/src/Features/NavBot/NavEngine/NavEngine.cpp:1144-1176 | the connection, the area of the crumb ahead and every nearby area but the local one end blacklisted; no entry is dropped, and every other entry is kept as it was |
| StuckDetect.CountTick | Amalgam/src/Features/NavBot/NavEngine/NavEngine.cpp:1127-1186 | below the threshold the connection gains exactly one stuck tick with the stuck expiry, every other connection keeps its entry and count, the timer runs on, and the bot jumps exactly past half the threshold on solid ground |
| StuckDetect.GiveUp | Amalgam/src/Features/NavBot/NavEngine/NavEngine.cpp:1141-1183 | past the threshold the surroundings are blacklisted, the connection's count starts over with the stuck expiry while every other count is kept, nothing else in the map changes, the timer resets and the path is abandoned as stuck, with the repath schedule `AbandonPath` sets |
| StuckDetect.UpdateStuckTime | Amalgam/src/Features/NavBot/NavEngine/NavEngine.cpp:1107-1188 | locked movement only resets the timer; no trail or an inactivity below the trigger changes nothing; otherwise a stuck tick or the give-up, as the count compares to the threshold |
| StuckDetect.Repeat | Amalgam/src/Features/NavBot/NavEngine/NavEngine.cpp:1107-1188 | the inputs stay sensible over repeated calls |
| StuckDetect.StuckLeadsToBlacklist | Amalgam/src/Features/NavBot/NavEngine/NavEngine.cpp:1125-1183 | standing still before the same crumb ends in the blacklist: after the remaining ticks plus one the path is abandoned and the connection blacklisted |
| CrumbFollow.PlanarSq | Amalgam/src/Features/NavBot/NavEngine/NavEngine.cpp:1731-1737 | planar squared distance is non-negative |
| Nav.Max | Amalgam/src/Features/NavBot/NavEngine/NavEngine.cpp:1778 | the maximum is one of its arguments and at least both |
| CrumbFollow.StepOf | Amalgam/src/Features/NavBot/NavEngine/NavEngine.cpp:1737-1803 | the loop reaches an ordinary crumb within reach, skips one whose successor is near, finishes a drop once done, and stops exactly when none applies |
| CrumbFollow.Landmark | Amalgam/src/Features/NavBot/NavEngine/NavEngine.cpp:1737-1769 | the crumb recorded as last reached is the popped one or, after a skip, its successor |
| CrumbFollow.Pop | Amalgam/src/Features/NavBot/NavEngine/NavEngine.cpp:1657-1813 | the loop pops at most its budget and never more than the trail |
| CrumbFollow.PopSuffix | Amalgam/src/Features/NavBot/NavEngine/NavEngine.cpp:1657-1813 | what remains is the trail without its first popped crumbs |
| CrumbFollow.PopExact | Amalgam/src/Features/NavBot/NavEngine/NavEngine.cpp:1657-1813 | every popped crumb passed a test, the loop stops at the first crumb that fails them unless the budget or trail ran out, and the last crumb is the one the final pop records |
| CrumbFollow.PopCompose | Amalgam/src/Features/NavBot/NavEngine/NavEngine.cpp:1657-1813 | popping in one loop of b + c passes equals a loop of b passes followed by c |
| CrumbFollow.PopTrail | Amalgam/src/Features/NavBot/NavEngine/NavEngine.cpp:1657-1813 | a call pops at most 32 crumbs from the front, reports progress exactly when it popped, and changes nothing but the trail and the last crumb |
| CrumbFollow.FollowCrumbs | Amalgam/src/Features/NavBot/NavEngine/NavEngine.cpp:1540-1813 | an empty trail with the off-mesh timer run out falls back to patrol; otherwise an empty trail forgets the last area, the repath flag and the priority; a trail is popped |
| CrumbFollow.FollowPasses | Amalgam/src/Features/NavBot/NavEngine/NavEngine.cpp:1657-1813 | each dropped crumb passed one of the loop's tests, and the loop stopped at the first that passes none unless 32 were popped or the trail ran out |
| CrumbFollow.FollowLast | Amalgam/src/Features/NavBot/NavEngine/NavEngine.cpp:1737-1769 | the last crumb is unchanged without a pop, else the final popped crumb, or the new front after a skip |
| CrumbFollow.PopLast | Amalgam/src/Features/NavBot/NavEngine/NavEngine.cpp:1737-1769 | after any number of pops the last crumb is the one recorded by the final pop: the popped crumb, or the crumb after it when the pop was a skip |
| CrumbFollow.FollowPlaced | Amalgam/src/Features/NavBot/NavEngine/NavEngine.cpp:1657-1813 | a placed trail stays placed and a call that pops leaves a last crumb with an area |
| CrumbFollow.FollowSettles | Amalgam/src/Features/NavBot/NavEngine/NavEngine.cpp:1657-1813 | once the loop stops on a crumb it cannot pass, a second call with the same observation changes nothing |

## Where the model departs from the source

- The `.nav` reader never checks a short read: the stream fails and later fields keep whatever they held. The model's reader returns `Truncated` instead. The codec's properties concern files long enough for what they announce, and the round trip only ever reads back what the writer wrote. `NavMap.MakeMap` is the exception: see its line under "Left out".
- Connection ids resolve to the last area with that id, as the id lookup table (filled by `operator[]`) does when ids repeat.
- In `NavTo`, the branch that fails with "Path empty after trim" (NavEngine.cpp:699-711) cannot run: it is guarded by a non-empty path and tests for an empty one. The model has no such outcome.
- `AdjacentCost` takes a trace probe that it never consults (`Adjacent.ProbeNeverConsulted`).
- When `FollowCrumbs` skips to the next crumb it erases only the front crumb and records the next one, still on the trail, as the last crumb reached (`CrumbFollow.FollowLast`).
- `NavTo` treats a vischeck entry as live while its expiry tick is strictly after the current tick.
- The path search writes the vischeck cache: its cost model records every connection it evaluates (`Adjacent.AdjacentCost`), and the solver hands each expansion the cache the previous ones left (`Adjacent.Neighbours`). The search `NavTo` runs is the model's own search over the map (`PathRequest.Found`), not an input. `NavTo` installs the map it leaves and checks the new trail against that cache (`PathRequest.Route`). So a pair that is a step of the found path is not traced again (`PathRequest.SearchedTrailTrusted`).
- The trail check keys a pair of crumbs by their two areas. So one cached verdict for two crumbs in the same area decides every later pair inside that area until it expires.

## Left out

- Traces, the ground probe, entity queries and the local player are inputs: the movement trace, `IsPlayerPassableNavigation`, `GetGroundZ`, `ShouldJump` and `SimulateUnduckGroundSnap` have no model. Inside `Run` of `CDuckJump` the latter two are booleans.
- The square root and vector normalisation are function parameters, since Dafny has no square root on reals. Floats are reals, so rounding, NaN and float overflow are not modelled; FLT_MAX is an ordinary constant.
- File, JSON and pipe I/O, threads and mutexes are not modelled: `std::filesystem`, boost `property_tree`, `ConnectAndMaintainPipe`, the writes of `ProcessMessageQueue`, `Log` and the tree's build future. The crumb cache file is a parsed record list and the `.nav` file a byte sequence.
- Clocks, `rand()`, timers and settings are inputs: tick counts, the reconnect jitter draw, the inactivity and off-mesh timers, and the stuck, blacklist and vischeck durations.
- NamedPipe.ProcessReservationMessage: `std::stoi`, `std::stof` and `std::stoull` are parameters, and the exceptions they throw on malformed text are not modelled.
- The failure text's suffixes after "No solution found (disconnected)" (NavEngine.cpp:662-689) are not modelled, and neither is the scan of local exits that chooses them. `NavTo` records the "no solution" failure without them.
- The destination area (`FindClosestNavArea`) and the local area are inputs to `NavTo`. The `bLocalOrigin` overlap scan of `FindClosestNavArea` (Map.cpp:718-742) is not modelled. Without it the function is `KdTree.FindArea`.
- StuckDetect.UpdateStuckTime: the areas within 120 units of the crumb ahead come as an input list of mesh areas, rather than from a call to the collection (modelled separately as `NavMap.CollectAreasAround`). The function requires a placed trail, which the trails built by `NavTo` always are (`PathRequest.Trail`).
- `FollowCrumbs` after its popping loop (NavEngine.cpp:1815 on) is not modelled: movement, looking, jumping, the fall-speed history, the current path direction, `m_tCurrentCrumb` and the time-on-crumb timer. Only the trail, the last crumb, the empty-trail resets and progress are.
- `UpdateIgnores` (Map.cpp:745-847) is not modelled: its entity scan and the expiry of blacklist entries. Neither are `VischeckPath`, `CheckBlacklist`, `UpdateRespawnRooms`, `Render` or the engine's `Run`.
- Solver.Search: a fuel argument bounds the number of queue pops. Enough fuel reproduces the source's loop, and too little ends as "no path". Only chain validity of a returned path is proved, not optimality or completeness. The source's search does not re-queue an improved open node, so neither holds for it.
- Solver.Solve: the query counter is an unbounded number, so every query stamps nodes with a value no node carries yet. The source's counter is a 32-bit unsigned (Map.h:134) incremented on every query (Map.cpp:17). After 2^32 queries on one map it wraps to 0. Nodes never touched are stamped 0 (Map.h:62), and the equality test at Map.cpp:82 would then take them, and any node stamped in an earlier query with the same number, as already set up. The model assumes fewer than 2^32 queries per loaded map and does not model the wrap.
- NavMap.MakeMap: the map is active exactly when the model's reader loads the file, and that reader refuses a file shorter than it announces. The source's loader never checks the stream and sets `m_bOK` regardless (CNavFile.h:339), so for such a file the source builds an active map from stale fields where the model gives an unavailable one. For files that hold every announced byte the two agree.
- NavMap.CollectAreasAround: on a mesh of more than 2048 areas the step budget may stop the search early, and there the model promises only which areas may be collected, not that any beyond the seed are. Within the budget it promises every area joined to the seed through areas within the radius. Areas the source reaches only through areas between the radius and twice the radius are collected too, but that is not promised. The wait for the kd-tree build and the map's lock (Map.cpp:665, 705-708) are concurrency and have no model.
- The `.nav` loader's second pass also points each potentially-visible-area record at the area with its id (CNavFile.h:332-336). Nothing in the core reads those pointers, so the model keeps only the ids.
- The `.nav` reader reads one byte into some wider fields: the encounter directions `m_iFromDir` and `m_iToDir` (`int`) and the spot-order parameter `flT` (`float`) (CNavFile.h:251-260). It fills only their first byte. The model stores these fields as bytes, so it does not model what the rest of each field holds.
- PathRequest.SearchedTrailTrusted: the model does not prove that every pair of the trail `NavTo` builds is a step of the found path; the lemma takes it as a hypothesis. Two kinds of pair break it. Two crumbs in the same area give a same-area key, which the search never writes. A connection whose cached crumbs all lie within one unit of the crumb before them pairs two areas that are not consecutive on the path.
- PathRequest.NavTo and PathRequest.Route: their contracts do not say that the new trail passes untraced; `PathRequest.SearchedTrailTrusted` states when it does. They take as inputs the tick interval and the vischeck cache time in the cost model's settings, the local and destination areas, and the solver's bound on queue pops. The trace expiry of the trail check is computed from those settings, as the search's own (NavEngine.cpp:809-810).
- NamedPipe.AnnounceClaim: the numbers of an announcement are written by formatting functions given as parameters. The two-decimal text of `std::fixed` and `std::setprecision(2)` is not modelled. A listener hears the values its parsers read back from that text (`NamedPipe.AnnouncedClaimHeard`). The flush by `ProcessMessageQueue` that follows is pipe I/O.
- KdTree.Build: `std::nth_element` is modelled as a full sort by the split key. Any arrangement nth_element may leave meets the properties proved, which use only the partition around the median.
- The tree is an inductive datatype, not an array of `KDNode` records with -1 for a missing child. The default `KDNode` is therefore not modelled.
- `GetOtherBotsOnServer`, `ProcessLocalBotMessage` and the local-bot tagging in NamedPipe.cpp are not modelled.
- The hull constants and the unduck spline of `SimulateUnduckGroundSnap` are declared but unused, since that simulation is an input.

## Findings

| source | as written | input that shows it | evidently intended | confidence | as-written member | corrected member |
|---|---|---|---|---|---|---|
| Amalgam/src/Features/NavBot/NavEngine/FileReader/CNavFile.h:174-176 with Amalgam/src/Features/NavBot/NavEngine/FileReader/nav.h:84 | the reader takes the 16-bit place-name length from the file and reads that many bytes into the 256-byte `m_sName` | a place record announcing length 300 | read the whole announced name, so that the stream stays in step, but store at most 256 bytes | not executed | NavCodec.PlaceOverflow (on NavCodec.GetPlaceAsWritten) | NavCodec.GetPlace, with NavCodec.PlaceTrip |
