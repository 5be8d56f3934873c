// The page-level state of the city map and the handlers that change it:
// data load, window resize, pointer move (hover), click (start/end selection)
// and the shortest-path form submission.
module MapPage {
  import opened CityData
  import opened GridLayout
  import opened HitTest
  import opened PathOverlay

  /** The selection fields together: `selectedStart`, `selectedEnd`, `selectedPath`. */
  datatype Selection = Selection(start: Option<NodeId>, end: Option<NodeId>, path: seq<PathEdge>)

  const NoSelection := Selection(None, None, [])

  /** The states the handlers keep the selection in: an end only with a start, a path only with both. */
  predicate WellFormed(s: Selection)
  {
    (s.end.Some? ==> s.start.Some?) && (s.path != [] ==> s.end.Some?)
  }

  /** The three phases of start/end picking. */
  datatype Phase = Empty | StartPicked | Complete

  function PhaseOf(s: Selection): Phase
  {
    if s.start.None? then Empty else if s.end.None? then StartPicked else Complete
  }

  /** What a click does to the selection, given the hovered node. */
  function ClickStep(s: Selection, hovered: Option<NodeId>): Selection
  {
    match hovered
    case None => s
    case Some(_) =>
      if s.start.None? then s.(start := hovered)
      else if s.end.None? then s.(end := hovered)
      else Selection(hovered, None, [])
  }

  /** The body of a reply to POST /shortest-path; `distance` is only displayed. */
  datatype PathReply = PathReply(error: Option<string>, path: Option<seq<NodeId>>, distance: Option<real>)

  /** How the request ended: a parsed reply, or a failure of the request or of reading its body. */
  datatype SubmitOutcome = Replied(reply: PathReply) | RequestFailed

  /** The submission changes the selection: both fields parse, the request succeeds and the reply's error is absent or empty. */
  predicate Accepted(startField: Option<int>, endField: Option<int>, outcome: SubmitOutcome)
  {
    startField.Some? && endField.Some? && outcome.Replied? &&
    (outcome.reply.error.None? || outcome.reply.error.value == "")
  }

  /** What a form submission does to the selection. */
  function SubmitStep(s: Selection, startField: Option<int>, endField: Option<int>, outcome: SubmitOutcome): Selection
  {
    if !Accepted(startField, endField, outcome) then s
    else
      var path := match outcome.reply.path case Some(p) => p case None => [];
      Selection(startField, endField, PathEdges(path))
  }

  /** A click moves Empty and Complete to StartPicked and StartPicked to Complete; Empty is never re-entered. */
  lemma ClickPhase(s: Selection, h: NodeId)
    requires WellFormed(s)
    ensures WellFormed(ClickStep(s, Some(h)))
    ensures PhaseOf(ClickStep(s, Some(h))) == if PhaseOf(s) == StartPicked then Complete else StartPicked
    ensures PhaseOf(s) == Empty ==> ClickStep(s, Some(h)) == Selection(Some(h), None, [])
    ensures PhaseOf(s) == StartPicked ==> ClickStep(s, Some(h)) == s.(end := Some(h))
    ensures PhaseOf(s) == Complete ==> ClickStep(s, Some(h)) == Selection(Some(h), None, [])
    ensures PhaseOf(s) != Complete ==> ClickStep(s, Some(h)).path == s.path
  {
  }

  /** The selection after clicking on the nodes `hs` in turn, each while hovered. */
  function ClickAll(s: Selection, hs: seq<NodeId>): Selection
  {
    if hs == [] then s else ClickStep(ClickAll(s, hs[..|hs| - 1]), Some(hs[|hs| - 1]))
  }

  /** From a fresh page, an odd number of clicks leaves only a start (the last node), an even number leaves the last two as start and end. */
  lemma {:induction false} ClickAllFromNoSelection(hs: seq<NodeId>)
    requires |hs| > 0
    ensures |hs| % 2 == 1 ==> ClickAll(NoSelection, hs) == Selection(Some(hs[|hs| - 1]), None, [])
    ensures |hs| % 2 == 0 ==> ClickAll(NoSelection, hs) == Selection(Some(hs[|hs| - 2]), Some(hs[|hs| - 1]), [])
  {
    if |hs| > 1 {
      var front := hs[..|hs| - 1];
      ClickAllFromNoSelection(front);
      assert front[|front| - 1] == hs[|hs| - 2];
      if |hs| > 2 {
        assert front[|front| - 2] == hs[|hs| - 3];
      }
    }
  }

  /** A submission keeps the selection well formed; an accepted one makes it Complete with the reply's path pairs. */
  lemma SubmitPhase(s: Selection, startField: Option<int>, endField: Option<int>, outcome: SubmitOutcome)
    requires WellFormed(s)
    ensures WellFormed(SubmitStep(s, startField, endField, outcome))
    ensures !Accepted(startField, endField, outcome) ==> SubmitStep(s, startField, endField, outcome) == s
    ensures Accepted(startField, endField, outcome) ==> PhaseOf(SubmitStep(s, startField, endField, outcome)) == Complete
    ensures Accepted(startField, endField, outcome) ==> SubmitStep(s, startField, endField, outcome).start == startField
    ensures Accepted(startField, endField, outcome) ==> SubmitStep(s, startField, endField, outcome).end == endField
    ensures Accepted(startField, endField, outcome) && outcome.reply.path.Some? ==> SubmitStep(s, startField, endField, outcome).path == PathEdges(outcome.reply.path.value)
    ensures Accepted(startField, endField, outcome) && outcome.reply.path.None? ==> SubmitStep(s, startField, endField, outcome).path == []
  {
  }

  /** The state of the page, one object for its lifetime. */
  class CityMapPage {
    var width: nat
    var height: nat
    var cityData: Option<Graph>
    var nodePositions: map<NodeId, Pos>
    var selectedStart: Option<NodeId>
    var selectedEnd: Option<NodeId>
    var selectedPath: seq<PathEdge>
    var hoveredNode: Option<NodeId>

    function Selected(): Selection
      reads this
    {
      Selection(selectedStart, selectedEnd, selectedPath)
    }

    ghost predicate Valid()
      reads this
    {
      WellFormed(Selected()) &&
      (cityData.Some? ==> NodeIds(cityData.value.nodes) <= nodePositions.Keys) &&
      (hoveredNode.Some? ==> hoveredNode.value in nodePositions)
    }

    /** The page as it starts, after the first sizing of the canvas. */
    constructor (width: nat, height: nat)
      ensures Valid()
      ensures this.width == width && this.height == height
      ensures cityData == None && nodePositions == map[]
      ensures Selected() == NoSelection && hoveredNode == None
    {
      this.width := width;
      this.height := height;
      cityData := None;
      nodePositions := map[];
      selectedStart := None;
      selectedEnd := None;
      selectedPath := [];
      hoveredNode := None;
    }

    /** The end of GET /city-data: on success store the graph, lay it out and draw; on failure nothing changes. */
    method LoadCityData(reply: Option<Graph>) returns (redraw: bool)
      requires Valid()
      modifies this`cityData, this`nodePositions
      ensures Valid()
      ensures redraw == reply.Some?
      ensures reply.None? ==> cityData == old(cityData) && nodePositions == old(nodePositions)
      ensures reply.Some? ==> cityData == reply
      ensures reply.Some? ==> nodePositions == Layout(old(nodePositions), reply.value.nodes, width, height)
    {
      redraw := false;
      if reply.None? {
        return;
      }
      cityData := reply;
      CalculateNodePositions();
      LayoutKeys(old(nodePositions), reply.value.nodes, width, height);
      redraw := true;
    }

    /** calculateNodePositions: write every node's grid position into `nodePositions`, which is not cleared first. */
    method CalculateNodePositions()
      requires cityData.Some?
      modifies this`nodePositions
      ensures nodePositions == Layout(old(nodePositions), cityData.value.nodes, width, height)
    {
      var nodes := cityData.value.nodes;
      var availableWidth := width as real - 2.0 * Padding;
      var availableHeight := height as real - 2.0 * Padding;
      var nodeCount := |nodes|;
      var cols := Cols(nodeCount);
      var rows := Rows(nodeCount);
      // With no nodes the source divides by zero; no node ever reads the result.
      var cellWidth := if cols > 0 then availableWidth / cols as real else 0.0;
      var cellHeight := if rows > 0 then availableHeight / rows as real else 0.0;
      ghost var before := nodePositions;
      for index := 0 to nodeCount
        invariant nodePositions == PlaceFirst(before, nodes, index, width, height)
      {
        var col := index % cols;
        var row := index / cols;
        var x := Padding + col as real * cellWidth + cellWidth / 2.0;
        var y := Padding + row as real * cellHeight + cellHeight / 2.0;
        PositionAtCell(index, nodeCount, width, height, cellWidth, cellHeight);
        assert Pos(x, y) == PositionAt(index, nodeCount, width, height);
        nodePositions := nodePositions[nodes[index].id := Pos(x, y)];
      }
    }

    /** The resize listener: the canvas takes the new size and the map is redrawn, but positions are not recomputed. */
    method Resize(newWidth: nat, newHeight: nat) returns (redraw: bool)
      requires Valid()
      modifies this`width, this`height
      ensures Valid()
      ensures width == newWidth && height == newHeight
      ensures redraw == cityData.Some?
    {
      width := newWidth;
      height := newHeight;
      redraw := cityData.Some?;
    }

    /** The mousemove listener: hover the last node under the pointer; redraw only when that changes the hovered node. */
    method MouseMove(mouse: Pos) returns (redraw: bool)
      requires Valid() && cityData.Some?
      modifies this`hoveredNode
      ensures Valid()
      ensures hoveredNode == FoundNode(cityData.value.nodes, nodePositions, mouse)
      ensures redraw == (hoveredNode != old(hoveredNode))
    {
      var foundNode := FindNodeNear(cityData.value.nodes, nodePositions, mouse);
      redraw := false;
      if foundNode != hoveredNode {
        hoveredNode := foundNode;
        redraw := true;
      }
      if foundNode.Some? {
        var i := FoundIsLastHit(cityData.value.nodes, nodePositions, mouse);
      }
    }

    /** The click listener: with a node hovered, advance the start/end selection; without one, do nothing. */
    method Click() returns (redraw: bool)
      requires Valid() && cityData.Some?
      modifies this`selectedStart, this`selectedEnd, this`selectedPath
      ensures Valid()
      ensures Selected() == ClickStep(old(Selected()), hoveredNode)
      ensures redraw == hoveredNode.Some?
    {
      redraw := false;
      if hoveredNode != None {
        if selectedStart == None {
          selectedStart := hoveredNode;
        } else if selectedEnd == None {
          selectedEnd := hoveredNode;
        } else {
          selectedStart := hoveredNode;
          selectedEnd := None;
          selectedPath := [];
        }
        redraw := true;
      }
    }

    /** The form's submit listener, given the parsed fields and how the request ended. */
    method Submit(startField: Option<int>, endField: Option<int>, outcome: SubmitOutcome) returns (redraw: bool)
      requires Valid()
      modifies this`selectedStart, this`selectedEnd, this`selectedPath
      ensures Valid()
      ensures Selected() == SubmitStep(old(Selected()), startField, endField, outcome)
      ensures redraw == Accepted(startField, endField, outcome)
    {
      redraw := false;
      if startField.None? || endField.None? {
        return;
      }
      match outcome {
        case RequestFailed =>
          return;
        case Replied(reply) =>
          if reply.error.Some? && reply.error.value != "" {
            return;
          }
          selectedStart := startField;
          selectedEnd := endField;
          var path := match reply.path case Some(p) => p case None => [];
          selectedPath := BuildPathEdges(path);
          redraw := true;
      }
    }
  }
}
