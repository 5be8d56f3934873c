# City map interaction engine — a Dafny model

This project models the client-side engine of the Dijkstra city-map page
(`static/js/script.js`). It covers:

- how nodes are laid out on a grid;
- how the pointer picks the hovered node;
- how clicks pick a start and an end node;
- how a solved path becomes the set of highlighted edges;
- the per-edge and per-node choices the renderer makes.

Modules, one per part:

- `CityData` (`city_data.dfy`): nodes, edges, positions and path steps.
- `GridLayout` (`layout.dfy`): `calculateNodePositions` as the function `Layout`.
  - It writes into the position map it is given and never clears it.
  - `cols` is the least `c` with `N <= c*c`, that is `ceil(sqrt(N))`.
  - `rows` is `ceil(N / cols)`.
  - Coordinates are exact `real`s.
- `HitTest` (`hit_test.dfy`): the scan of the `mousemove` listener.
  - `FoundNode` is its specification and `FindNodeNear` is the loop.
  - The last qualifying node wins.
  - A node qualifies when it has a position and its squared distance to the pointer is at most 400.
- `PathOverlay` (`path_overlay.dfy`):
  - the pairs the submit handler pushes for a path (`PathEdges`, and the loop `BuildPathEdges`);
  - the undirected `isInPath` matcher.
- `Render` (`render.dfy`): what `drawCityMap` decides for each element:
  - whether an edge is drawn, and whether it is highlighted;
  - a node's radius, fill, outline and caption. The caption is the name, or `Node <id>` when the name is missing or empty.
- `MapPage` (`map_page.dfy`): the class `CityMapPage`.
  - Its fields are the page-level variables: canvas size, `cityData`, `nodePositions`, `selectedStart`, `selectedEnd`, `selectedPath` and `hoveredNode`.
  - Its methods are the load, resize, mousemove, click and submit handlers.
  - Each handler returns `redraw`, which is true exactly when the handler reaches its `drawCityMap(...)` statement. A submission before the data has loaded reaches that statement but throws while evaluating `cityData.nodes`, so nothing is drawn; `Submit` still returns `redraw` true there.
  - The selection's state machine is given as the functions `ClickStep` and `SubmitStep`.

In these places the code does something a reader might not expect; the model follows the code:

- The resize listener (static/js/script.js:14-19) redraws but does not recompute positions. `Resize` keeps `nodePositions` unchanged.
- `nodePositions` is one object (line 24) that `calculateNodePositions` writes into without clearing. `Layout(before, …)` keeps every entry of `before` whose id is not a node (`LayoutKeepsOthers`). In general the keys afterwards are the old keys plus the node ids (`LayoutKeys`), so from an empty map they are exactly the node ids. The page lays out only once, into the empty `{}` (static/js/script.js:24, 37, 317).
- The position map has one entry per node only when ids are unique. With a repeated id, the later node overwrites the earlier one (`LayoutLastWins`).
- The hit test does not look for the nearest node. Among the nodes within the radius, the last one in list order wins.
- A reply counts as an error only when its `error` field is truthy. A reply whose `error` is the empty string is treated as a success.

## Model

| member | source | states |
|---|---|---|
| GridLayout.ColsFromLeast | static/js/script.js:52 | the upward search ends at a c whose square reaches n and whose predecessor's square does not |
| GridLayout.ColsIsCeilSqrt | static/js/script.js:52 | cols = Math.ceil(Math.sqrt(N)): N <= cols², and (cols-1)² < N when cols > 0 |
| GridLayout.Cols | static/js/script.js:52 | there is at least one column exactly when there is at least one node |
| GridLayout.RowsIsCeilDiv | static/js/script.js:53 | rows = Math.ceil(N / cols): (rows-1)·cols < N <= rows·cols |
| GridLayout.Rows | static/js/script.js:53 | there is at least one row exactly when there is at least one node |
| GridLayout.CellInGrid | static/js/script.js:58-60 | node i < N goes to column i % cols < cols and row floor(i / cols) < rows |
| GridLayout.CellsDistinct | static/js/script.js:58-60 | two different indices never share a grid cell |
| GridLayout.PositionAtCell | static/js/script.js:55-63 | the loop's padding + col·cellWidth + cellWidth/2 (and the same for y) is the cell centre PositionAt |
| GridLayout.PositionInBounds | static/js/script.js:46-63 | on a canvas of at least 100×100, x lies in [50, width-50] and y in [50, height-50] |
| GridLayout.PositionsDistinct | static/js/script.js:55-63 | on a canvas larger than 100×100, no two nodes share a centre |
| GridLayout.LayoutKeys | static/js/script.js:58-66 | after the layout the map's keys are its old keys plus every node id, and nothing else |
| GridLayout.LayoutLastWins | static/js/script.js:58-66 | a node gets the position of its index; a later node with the same id overwrites it |
| GridLayout.LayoutKeepsOthers | static/js/script.js:58-66 | the map is not cleared: an entry whose id is not a node survives unchanged |
| GridLayout.LayoutInBounds | static/js/script.js:45-66 | on a canvas of at least 100×100 every node's stored position lies inside the 50-pixel margin |
| GridLayout.LayoutOnlyIds | static/js/script.js:58-66 | the layout depends on node order, canvas size and ids only, not on names |
| MapPage.CityMapPage.CalculateNodePositions | static/js/script.js:45-67 | the forEach loop leaves nodePositions equal to Layout of the old map, the nodes and the canvas size |
| HitTest.FindNodeNear | static/js/script.js:165-176 | the overwrite-on-every-match loop returns FoundNode, the last-match-wins scan result |
| HitTest.FoundNoneIff | static/js/script.js:165-176 | the scan finds nothing iff no positioned node lies within distance 20 of the pointer |
| HitTest.FoundIsLastHit | static/js/script.js:165-176 | a found node is within the radius and no later node in the list is |
| HitTest.LastHitterIsFound | static/js/script.js:165-176 | conversely, the last node in list order within the radius is the one found |
| MapPage.CityMapPage.MouseMove | static/js/script.js:165-184 | hoveredNode becomes the scan result; a redraw happens iff that differs from the previous hoveredNode |
| MapPage.CityMapPage.Click | static/js/script.js:187-208 | the selection moves by ClickStep on the hovered node; no hovered node means no change and no redraw |
| MapPage.ClickPhase | static/js/script.js:188-205 | a click moves Empty and Complete to StartPicked and StartPicked to Complete; from Empty it sets only start, to the clicked node; from StartPicked it sets end to the clicked node and keeps start and path; a reset sets start to the clicked node and clears end and path |
| MapPage.ClickAllFromNoSelection | static/js/script.js:187-208 | from a fresh page, after an odd number of clicks only a start (the last node) is set; after an even number, the last two nodes are start and end (they may be equal) |
| MapPage.CityMapPage.Submit | static/js/script.js:212-269 | the selection moves by SubmitStep; a redraw happens iff the submission is accepted |
| MapPage.SubmitPhase | static/js/script.js:221-269 | unparsable fields, a failed request or a truthy error leave the selection unchanged; otherwise start and end are the submitted values, the path is the pairs of the reply's path (none when it is absent), and the selection is Complete |
| MapPage.CityMapPage.LoadCityData | static/js/script.js:31-43 | on success the graph is stored and laid out, and a redraw happens; on failure nothing changes |
| MapPage.CityMapPage.Resize | static/js/script.js:14-19 | the canvas takes the new size; positions are not recomputed; a redraw happens iff data is loaded |
| MapPage.CityMapPage.constructor | static/js/script.js:21-28 | the page starts with no data, no positions, no selection, no path and no hovered node |
| PathOverlay.BuildPathEdges | static/js/script.js:261-269 | the counted push loop yields PathEdges(path) |
| PathOverlay.PathEdgesShape | static/js/script.js:261-269 | a path of n >= 2 nodes gives n-1 pairs, pair i being (path[i], path[i+1]); shorter paths give none |
| PathOverlay.PathEdgesRoundTrip | static/js/script.js:261-269 | the path of two or more nodes is recovered from its pairs |
| PathOverlay.IsInPath | static/js/script.js:79-83 | an edge is in the path iff some pair equals (start, end) or (end, start) |
| PathOverlay.IsInPathSymmetric | static/js/script.js:79-83 | highlighting does not depend on the direction the edge is stored in |
| PathOverlay.PathStepHighlighted | static/js/script.js:79-83 | an edge joining two consecutive path nodes, either way round, is highlighted |
| PathOverlay.HighlightedIsPathStep | static/js/script.js:79-83 | only edges joining two consecutive path nodes are highlighted |
| Render.EdgeLook | static/js/script.js:73-90 | an edge with an endpoint that has no position is skipped; otherwise it is drawn between the positions, highlighted iff matched by a pair |
| Render.NodeLookOf | static/js/script.js:116-142 | a node without a position is skipped; the fill is start before end before default, whatever the hover; radius 22 and outline iff hovered, else radius 20 |
| Render.NodeCaption | static/js/script.js:154 | the caption is the name when it is non-empty, else a non-empty text starting "Node " |
| Render.FallbackCaptionNamesNode | static/js/script.js:154 | the fallback caption is "Node " followed by text that reads back as the node's id |
| Render.NatToDecimal | static/js/script.js:154 | the id is spelled with decimal digits and no leading zero |
| Render.NatToDecimalRoundTrip | static/js/script.js:154 | the decimal spelling of a natural number reads back as that number |
| Render.IntToDecimalRoundTrip | static/js/script.js:154 | the spelling of an integer id, with a leading '-' when negative, reads back as the id |

## Left out

- Canvas drawing is not modelled: clearing, lines, arcs, colours, fonts, the weight label and its text box (static/js/script.js:70-155). Only the choices of what to draw and in which style are modelled.
- These are I/O and page plumbing, and are not modelled: `fetch`, reading a response body, `console` output, `alert`, the result card's HTML and visibility, `scrollIntoView`, and disabling and restoring the submit button. The load reply and the submit outcome are parameters of `LoadCityData` and `Submit`.
- The pointer's canvas coordinates (`getBoundingClientRect`) are a parameter of `MouseMove`. Cursor styling is not modelled. This includes the `!foundNode` test, which treats node id 0 like "no node", but only for the cursor.
- `resizeCanvas` reads the container's size. That size is a parameter of the constructor and of `Resize`.
- `Number.parseInt` and `isNaN` are not modelled. The form fields arrive already parsed, as `Option<int>`, where None means NaN.
- Click: the writes of the hovered id into the start and end form fields (static/js/script.js:191, 194, 200-201) are not modelled. `Submit` takes the fields as free parameters, so the model does not capture that a click followed by a submit sends the clicked ids.
- Node ids are unbounded integers; the page holds them as doubles. `IntToDecimal` matches a template literal only for |id| <= 2^53. Above that, JavaScript writes the shortest digits that read back as the same double, padded with zeros (2^60 is written "1152921504606847000"). From 1e21 on it writes exponent form, such as "1e+21". Integer primary keys (models.py:6) can exceed 2^53, and the model does not capture those captions.
- `Math.sqrt` and floating point are replaced by exact reals and a squared-distance test. `Cols` is the exact ceiling of the square root. The double-precision computation can round differently only for node counts near 2^52.
- For an empty node list the source divides by zero: `cols` is 0, so `cellWidth` is (width-100)/0, which is ±Infinity (NaN when the width is exactly 100); `rows` is NaN, so `cellHeight` is NaN. No node reads either value. The model uses 0 columns and 0 rows and does not divide.
- MouseMove and Click require loaded data, because the page attaches their listeners only after a successful load (static/js/script.js:39).
- A submission before the data has loaded updates the selection; then the redraw throws, and the error is caught and reported. The model keeps the same state change. The error display is not modelled.
- The path text with node names and the distance line (static/js/script.js:279-296) are display only.
- Overlapping in-flight path requests and the ordering of asynchronous events are not modelled. Each handler runs to completion.
- The Flask application (`app.py`, `routes.py`, `models.py`) is not part of this model. It consists of HTTP routes, the database schema and seeding, and the `networkx` shortest-path call, a foreign library.
