# Board air-wire graph construction (LibrePCB)

This project models `BoardAirWiresBuilder::buildAirWires`. That function
builds the connectivity graph for one net signal on one board. The air-wire
(ratsnest) computation then runs on that graph. The graph is built in three
passes:

1. **Registration.**
   - Every footprint pad of the net that lies on this board gets a point. A
     through-hole pad is on all layers; any other pad is on its copper layer.
   - Every via of a net segment on this board gets a point on all layers.
   - Every net point of such a segment that has a layer of lines gets a point
     on that layer.
   - The anchor map sends each pad, via or net point to the id of its point.
     The layer map gives each id its layer.
2. **Net lines.** Each net line of a segment on this board adds one edge. The
   edge joins the points of the line's start anchor and end anchor.
3. **Planes.** For each fragment of each plane of the net on this board, the
   points are scanned in builder order. A point qualifies when it is on all
   layers or on the plane's layer, and the fragment contains it. Each
   qualifying point is joined to the previous qualifying point.

The resulting points and edges are handed to the library air-wire builder.

The model has three layers:

- `AirWires` models the library builder. It is a class whose point and edge
  lists `AddPoint` and `AddEdge` grow in place; a point's id is its index.
  The module also defines undirected connectivity over a list of edges.
- `NetGraph`, `PlaneChain` and `Collection` describe the result as
  functions. They also hold the lemmas that state what the construction
  guarantees:
  - which anchors get points, at which positions and on which layers;
  - one edge per net line;
  - `max(0, k - 1)` chaining edges for a fragment with `k` qualifying
    points, which connect all `k` of them;
  - the error case.
- `BoardAirWires` mirrors the C++ loops one method per loop. The builder is
  updated in place. The two hash maps are map values threaded through each
  loop. Each method is proved to compute the corresponding function.

Board entities are plain datatypes (`BoardItems`):

- An anchor is a reference to a pad, a via or a net point.
- The "all layers" marker is the `None` layer.
- The containment test of a fragment is a parameter `contains`.

## Model

| member | source | states |
|---|---|---|
| AirWires.AirWiresBuilder.AddPoint | libs/librepcb/project/boards/boardairwiresbuilder.cpp:75 | adding a point appends it and returns a fresh id, the number of points before it; the edges are unchanged |
| AirWires.AirWiresBuilder.AddEdge | libs/librepcb/project/boards/boardairwiresbuilder.cpp:108-109 | adding an edge appends exactly that edge and leaves the points unchanged |
| AirWires.WalkConnects | libs/librepcb/project/boards/boardairwiresbuilder.cpp:118-130 | if each id of a list is joined by an edge to the next id, then every two ids of the list are connected, in either direction |
| NetGraph.Register | libs/librepcb/project/boards/boardairwiresbuilder.cpp:75-101 | registering points keeps the graph well formed: every id has a layer entry, and anchors and edges refer to existing points |
| NetGraph.RegisterPoints | libs/librepcb/project/boards/boardairwiresbuilder.cpp:75-101 | each registered item adds one point at its position, in order, after the existing points. Its id gets its layer. Old points, old layer entries and edges are untouched |
| NetGraph.RegisterAnchors | libs/librepcb/project/boards/boardairwiresbuilder.cpp:75-101 | after registration the anchor map holds exactly the old anchors and the registered ones. An anchor that is not registered again keeps its id. An item whose anchor is not registered again later maps to its own new point |
| NetGraph.RegisterAppend | libs/librepcb/project/boards/boardairwiresbuilder.cpp:71-103 | registering two batches in a row equals registering their concatenation, so the pad loop and the segment loops compose |
| NetGraph.RegisterIgnoresEdges | libs/librepcb/project/boards/boardairwiresbuilder.cpp:75-101 | registration does not depend on the edges already present |
| NetGraph.PadEntriesMembers | libs/librepcb/project/boards/boardairwiresbuilder.cpp:73-82 | a pad of a component signal is registered if and only if it is on this board. It is registered with its own anchor and position. Its layer is "all layers" when through-hole and its layer name otherwise |
| NetGraph.SignalPadEntriesMembers | libs/librepcb/project/boards/boardairwiresbuilder.cpp:71-84 | across all component signals of the net, the registered pads are exactly the pads on this board, each with its anchor, position and layer rule |
| NetGraph.ViaEntriesAll | libs/librepcb/project/boards/boardairwiresbuilder.cpp:90-95 | every via of a segment is registered, one entry per via in order, at its position, on all layers |
| NetGraph.NetPointEntriesMembers | libs/librepcb/project/boards/boardairwiresbuilder.cpp:96-103 | a net point is registered if and only if it has a layer of lines, and then on that layer |
| NetGraph.AddNetLines | libs/librepcb/project/boards/boardairwiresbuilder.cpp:104-110 | the net-line pass adds edges only: points, anchor map and layer map are unchanged, and well-formedness is kept |
| NetGraph.AddNetLinesSpec | libs/librepcb/project/boards/boardairwiresbuilder.cpp:104-110 | the pass succeeds if and only if every line's two anchors are registered. On success each line adds exactly one edge, in order, from the id of its start anchor to the id of its end anchor, after the old edges. On failure the reported anchor is an unregistered endpoint of one of the lines |
| NetGraph.CollectSegment | libs/librepcb/project/boards/boardairwiresbuilder.cpp:87-111 | one segment's vias, net points and net lines keep the graph well formed |
| NetGraph.CollectSegments | libs/librepcb/project/boards/boardairwiresbuilder.cpp:87-111 | the segment pass keeps the graph well formed |
| NetGraph.SegmentsEntriesMembers | libs/librepcb/project/boards/boardairwiresbuilder.cpp:87-103 | the items registered by the segment pass are exactly the via and net-point entries of the segments on this board; segments on another board contribute nothing |
| NetGraph.CollectSegmentsRegisters | libs/librepcb/project/boards/boardairwiresbuilder.cpp:87-111 | a successful segment pass registers exactly the segments' entries. It keeps the old edges as a prefix and appends one edge per net line of the segments on this board |
| NetGraph.SegmentLineEdges | libs/librepcb/project/boards/boardairwiresbuilder.cpp:88-110 | one segment on this board adds its vias' and net points' anchors to the anchor map. After the old edges, the n-th new edge joins the ids of the n-th net line's start and end anchors |
| NetGraph.LinesAsEdgesAppend | libs/librepcb/project/boards/boardairwiresbuilder.cpp:87-111 | the edges of one segment's net lines stay in place when later segments only append edges and add new anchors |
| NetGraph.CollectSegmentsLineEdges | libs/librepcb/project/boards/boardairwiresbuilder.cpp:87-111 | when no anchor is registered twice, a successful segment pass adds, after the old edges, one edge per net line of the segments on this board, in order. Each edge joins the final ids of the line's start and end anchors |
| NetGraph.SegmentsLinesMembers | libs/librepcb/project/boards/boardairwiresbuilder.cpp:87-110 | every net line of a segment on this board is among the lines the segment pass connects |
| NetGraph.SegmentSucceeds | libs/librepcb/project/boards/boardairwiresbuilder.cpp:88-110 | a segment on this board succeeds if and only if each of its net lines ends at anchors mapped before it or registered by it. On success exactly the old anchors and its own are mapped |
| NetGraph.CollectSegmentsSuccess | libs/librepcb/project/boards/boardairwiresbuilder.cpp:87-111 | the segment pass succeeds if and only if each net line's anchors were registered before the pass or by its own segment or an earlier one |
| NetGraph.DistinctAnchorsAppend | libs/librepcb/project/boards/boardairwiresbuilder.cpp:71-103 | two batches register every anchor at most once together if and only if each does and they share no anchor |
| NetGraph.SignalPadEntriesDistinct | libs/librepcb/project/boards/boardairwiresbuilder.cpp:71-84 | pads with pairwise distinct keys register each pad anchor at most once |
| NetGraph.SegmentsEntriesDistinct | libs/librepcb/project/boards/boardairwiresbuilder.cpp:87-103 | vias and net points with pairwise distinct keys register each anchor at most once |
| NetGraph.SegmentsAnchorsNotPads | libs/librepcb/project/boards/boardairwiresbuilder.cpp:87-103 | the segment pass registers no pad anchor |
| NetGraph.CollectSegmentsFailure | libs/librepcb/project/boards/boardairwiresbuilder.cpp:104-110 | a failing segment pass names an anchor without a point that ends a net line of a segment on this board |
| PlaneChain.QualifyingSpec | libs/librepcb/project/boards/boardairwiresbuilder.cpp:119-123 | an id is in the scan's qualifying list if and only if it is an existing point whose layer is "all layers" or the plane's layer and that the fragment contains. The list is in builder order without repeats |
| PlaneChain.ChainShape | libs/librepcb/project/boards/boardairwiresbuilder.cpp:118-128 | k qualifying ids give max(0, k - 1) edges, and the n-th edge joins the n-th qualifying id to the next one |
| PlaneChain.FragmentChain | libs/librepcb/project/boards/boardairwiresbuilder.cpp:118-130 | one fragment with k qualifying points adds max(0, k - 1) edges, each joining consecutive qualifying points in increasing id order, and these edges connect every two qualifying points |
| PlaneChain.PlanesEdgesInRange | libs/librepcb/project/boards/boardairwiresbuilder.cpp:114-132 | every plane edge joins two existing points |
| PlaneChain.FragmentsEdgesInRange | libs/librepcb/project/boards/boardairwiresbuilder.cpp:117-131 | every edge added for the fragments of one plane joins two existing points |
| PlaneChain.PlanesEdgesMembers | libs/librepcb/project/boards/boardairwiresbuilder.cpp:114-132 | the plane edges are exactly the edges of the fragments of planes on this board; a plane on another board adds none |
| PlaneChain.FragmentsEdgesMembers | libs/librepcb/project/boards/boardairwiresbuilder.cpp:117-131 | the edges of one plane are exactly the union of the edges of its fragments |
| Collection.CollectRegisters | libs/librepcb/project/boards/boardairwiresbuilder.cpp:65-132 | a successful build is well formed: one point per registered item, in order, at its position, with its layer. The anchor map holds exactly the registered anchors, each mapped to its own point unless registered again later. The plane pass adds only edges, and they come last |
| Collection.CollectIsRegister | libs/librepcb/project/boards/boardairwiresbuilder.cpp:65-132 | apart from its edges, a successful build is the registration of all pads, then all segment items, on an empty builder. It has one edge per net line of the segments on this board, followed by the plane edges |
| Collection.CollectValid | libs/librepcb/project/boards/boardairwiresbuilder.cpp:65-132 | a successful build is well formed: every id has a layer entry and every anchor and edge refers to an existing point |
| Collection.CollectNetLineEdges | libs/librepcb/project/boards/boardairwiresbuilder.cpp:104-110 | when no anchor is registered twice, the first edges of a successful build are the net lines of the segments on this board, in order. Each joins the points of its start and end anchors |
| Collection.CollectNetLineEdge | libs/librepcb/project/boards/boardairwiresbuilder.cpp:104-110 | when no anchor is registered twice, each net line of a segment on this board has both anchors mapped, and the edge between their points is in the final graph |
| Collection.CollectSucceeds | libs/librepcb/project/boards/boardairwiresbuilder.cpp:71-111 | the build succeeds if and only if each net line's anchors are pads on this board or items of its own or an earlier segment on this board |
| Collection.UniqueItemsDistinct | libs/librepcb/project/boards/boardairwiresbuilder.cpp:71-103 | when every pad, via and net point of the net is a distinct item, no anchor is registered twice in the build |
| Collection.CollectAnchors | libs/librepcb/project/boards/boardairwiresbuilder.cpp:71-103 | an anchor gets a point if and only if it is a pad on this board, a via of a segment on this board, or a net point with a layer of lines of such a segment |
| Collection.CollectEntryPoint | libs/librepcb/project/boards/boardairwiresbuilder.cpp:75-101 | when no anchor is registered twice, each registered item's anchor maps to a point at its position with its layer |
| Collection.CollectPadPoint | libs/librepcb/project/boards/boardairwiresbuilder.cpp:73-82 | a pad on this board maps to a point at its position. The point's layer is "all layers" for a through-hole pad and the pad's layer name otherwise |
| Collection.CollectViaPoint | libs/librepcb/project/boards/boardairwiresbuilder.cpp:89-95 | every via of a segment on this board maps to a point at its position on all layers |
| Collection.CollectNetPointPoint | libs/librepcb/project/boards/boardairwiresbuilder.cpp:96-103 | a net point with a layer of lines on a segment on this board maps to a point at its position on that layer |
| Collection.FragmentEdgesKept | libs/librepcb/project/boards/boardairwiresbuilder.cpp:117-131 | in a successful build every id has a layer entry, and every chaining edge of a fragment of a plane on this board is among the final edges |
| Collection.CollectPlaneConnects | libs/librepcb/project/boards/boardairwiresbuilder.cpp:113-132 | every id has a layer entry, so the plane scan never reads a missing one. All points that qualify for one fragment of a plane on this board are connected by the final edges |
| BoardAirWires.RegisterPads | libs/librepcb/project/boards/boardairwiresbuilder.cpp:73-83 | the pad loop of one component signal leaves builder, anchor map and layer map equal to registering that signal's pads on this board |
| BoardAirWires.CollectPads | libs/librepcb/project/boards/boardairwiresbuilder.cpp:71-84 | the pad pass leaves the state equal to registering all pads of the net on this board |
| BoardAirWires.RegisterVias | libs/librepcb/project/boards/boardairwiresbuilder.cpp:90-95 | the via loop leaves the state equal to registering every via on all layers |
| BoardAirWires.RegisterNetPoints | libs/librepcb/project/boards/boardairwiresbuilder.cpp:96-103 | the net-point loop leaves the state equal to registering the net points that have a layer of lines |
| BoardAirWires.ConnectNetLines | libs/librepcb/project/boards/boardairwiresbuilder.cpp:104-110 | the net-line loop adds the edges of the net-line pass, or stops with its error at the first unregistered anchor, start before end |
| BoardAirWires.ProcessSegment | libs/librepcb/project/boards/boardairwiresbuilder.cpp:88-110 | one segment iteration computes the segment step: nothing for another board, else vias, net points and net lines |
| BoardAirWires.ProcessSegments | libs/librepcb/project/boards/boardairwiresbuilder.cpp:87-111 | the segment loop computes the segment pass, including its error |
| BoardAirWires.ConnectFragment | libs/librepcb/project/boards/boardairwiresbuilder.cpp:118-130 | the scan with `lastId` adds exactly the chaining edges of the fragment and no points |
| BoardAirWires.ConnectPlane | libs/librepcb/project/boards/boardairwiresbuilder.cpp:117-131 | the fragment loop adds the edges of every fragment of the plane, in order |
| BoardAirWires.ConnectPlanes | libs/librepcb/project/boards/boardairwiresbuilder.cpp:114-132 | the plane loop adds the edges of the planes on this board and skips the others |
| BoardAirWires.BuildAirWires | libs/librepcb/project/boards/boardairwiresbuilder.cpp:65-135 | the build fails exactly when the collection fails, with the same error; otherwise it returns the air-wire computation applied to the collected points and edges |

## Left out

- The air-wire computation at `boardairwiresbuilder.cpp:134` (the library `AirWiresBuilder::buildAirWires`, a connectivity/spanning-tree algorithm) is not part of this model. It is the parameter `airWires` of `BuildAirWires`. So the properties of the produced air-wire set (no wire inside one component, one wire fewer than the number of components) are not stated.
- The point-in-polygon test (`QPainterPath::contains` on floating-point pixel coordinates) is the parameter `contains`. Nothing is assumed about it.
- Qt containers, `foreach` and the board's accessor methods are plain sequences. The board, pad, via, net point, net line, segment and plane objects are datatypes. Their identity is an anchor reference or a board id.
- The `Q_ASSERT` null checks cannot fail, because datatype values are never null.
- The net-line anchor check is a `Q_ASSERT`, which fires only in debug builds. The model treats it as an error result `UnregisteredAnchor`. The release-build behaviour, where `anchorMap[...]` on a missing key inserts and yields id 0, is not modelled. Broken upstream data of this kind is a programming error that the build must not silently accept.
- Reading the layer map with `operator[]` inserts a default on a missing key. This is never reached: every id has an entry, as `Collection.CollectPlaneConnects` states.
- The constructor and destructor of `BoardAirWiresBuilder` only store and drop two references, and are not modelled.
- Collection.CollectEntryPoint: assumes that no anchor is registered twice in one build, which holds because each board item is one object. `Collection.UniqueItemsDistinct` derives that assumption from `BoardItems.UniqueItems`, which says that no two pads, vias or net points share a key. Without it, a later registration of the same anchor overwrites the earlier map entry, as `NetGraph.RegisterAnchors` states.
- Collection.CollectPadPoint: assumes that no anchor is registered twice in one build, which holds because each board item is one object. `Collection.UniqueItemsDistinct` derives that assumption from `BoardItems.UniqueItems`, which says that no two pads, vias or net points share a key. Without it, a later registration of the same anchor overwrites the earlier map entry, as `NetGraph.RegisterAnchors` states.
- Collection.CollectViaPoint: assumes that no anchor is registered twice in one build, which holds because each board item is one object. `Collection.UniqueItemsDistinct` derives that assumption from `BoardItems.UniqueItems`, which says that no two pads, vias or net points share a key. Without it, a later registration of the same anchor overwrites the earlier map entry, as `NetGraph.RegisterAnchors` states.
- Collection.CollectNetPointPoint: assumes that no anchor is registered twice in one build, which holds because each board item is one object. `Collection.UniqueItemsDistinct` derives that assumption from `BoardItems.UniqueItems`, which says that no two pads, vias or net points share a key. Without it, a later registration of the same anchor overwrites the earlier map entry, as `NetGraph.RegisterAnchors` states.
- Collection.CollectNetLineEdges: assumes that no anchor is registered twice in one build, which holds because each board item is one object. `Collection.UniqueItemsDistinct` derives that assumption from `BoardItems.UniqueItems`, which says that no two pads, vias or net points share a key. Without it, a later registration of the same anchor overwrites the earlier map entry, as `NetGraph.RegisterAnchors` states.
- Collection.CollectNetLineEdge: assumes that no anchor is registered twice in one build, which holds because each board item is one object. `Collection.UniqueItemsDistinct` derives that assumption from `BoardItems.UniqueItems`, which says that no two pads, vias or net points share a key. Without it, a later registration of the same anchor overwrites the earlier map entry, as `NetGraph.RegisterAnchors` states.
