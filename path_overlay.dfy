// The path overlay: the submit handler turns the node sequence of a solved path
// into one pair per step, and drawCityMap highlights an edge when some pair
// joins its two ends, in either direction.
module PathOverlay {
  import opened CityData

  /** The pairs pushed into `selectedPath` for a path: one per consecutive two nodes. */
  function PathEdges(path: seq<NodeId>): seq<PathEdge>
  {
    if |path| < 2 then [] else [PathEdge(path[0], path[1])] + PathEdges(path[1..])
  }

  /** A path of n >= 2 nodes gives n - 1 pairs, pair i joining node i to node i + 1; a shorter path gives none. */
  lemma {:induction false} PathEdgesShape(path: seq<NodeId>)
    ensures |PathEdges(path)| == if |path| < 2 then 0 else |path| - 1
    ensures forall i :: 0 <= i < |PathEdges(path)| ==> PathEdges(path)[i] == PathEdge(path[i], path[i + 1])
  {
    if |path| >= 2 {
      PathEdgesShape(path[1..]);
    }
  }

  /** The counted loop of the submit handler that pushes one pair per step. */
  method BuildPathEdges(path: seq<NodeId>) returns (pairs: seq<PathEdge>)
    ensures pairs == PathEdges(path)
  {
    PathEdgesShape(path);
    pairs := [];
    if |path| > 1 {
      for i := 0 to |path| - 1
        invariant pairs == PathEdges(path)[..i]
      {
        pairs := pairs + [PathEdge(path[i], path[i + 1])];
      }
    }
  }

  /** The node sequence a list of chained pairs walks through. */
  function PathOfEdges(pairs: seq<PathEdge>): seq<NodeId>
  {
    if |pairs| == 0 then []
    else if |pairs| == 1 then [pairs[0].start, pairs[0].end]
    else [pairs[0].start] + PathOfEdges(pairs[1..])
  }

  /** No information is lost: a path of two or more nodes is recovered from its pairs. */
  lemma {:induction false} PathEdgesRoundTrip(path: seq<NodeId>)
    requires |path| >= 2
    ensures PathOfEdges(PathEdges(path)) == path
  {
    if |path| > 2 {
      PathEdgesRoundTrip(path[1..]);
      assert PathEdges(path)[1..] == PathEdges(path[1..]);
      assert [path[0]] + path[1..] == path;
    }
  }

  /** Pair `pe` joins a and b, in either direction. */
  predicate Matches(pe: PathEdge, a: NodeId, b: NodeId)
  {
    (pe.start == a && pe.end == b) || (pe.start == b && pe.end == a)
  }

  /** The `isInPath` test of drawCityMap: some pair joins the edge's two ends. */
  function IsInPath(pathEdges: seq<PathEdge>, e: Edge): (r: bool)
    ensures r <==> exists i :: 0 <= i < |pathEdges| && Matches(pathEdges[i], e.start, e.end)
  {
    if pathEdges == [] then false
    else if Matches(pathEdges[0], e.start, e.end) then true
    else
      var r := IsInPath(pathEdges[1..], e);
      assert r ==> exists i :: 0 < i < |pathEdges| && Matches(pathEdges[i], e.start, e.end) by {
        if r {
          var i :| 0 <= i < |pathEdges[1..]| && Matches(pathEdges[1..][i], e.start, e.end);
          assert Matches(pathEdges[i + 1], e.start, e.end);
        }
      }
      r
  }

  /** Whether an edge is highlighted does not depend on which end it names first. */
  lemma IsInPathSymmetric(pathEdges: seq<PathEdge>, a: NodeId, b: NodeId, w1: real, w2: real)
    ensures IsInPath(pathEdges, Edge(a, b, w1)) == IsInPath(pathEdges, Edge(b, a, w2))
  {
    if IsInPath(pathEdges, Edge(a, b, w1)) {
      var i :| 0 <= i < |pathEdges| && Matches(pathEdges[i], a, b);
      assert Matches(pathEdges[i], b, a);
    }
    if IsInPath(pathEdges, Edge(b, a, w2)) {
      var i :| 0 <= i < |pathEdges| && Matches(pathEdges[i], b, a);
      assert Matches(pathEdges[i], a, b);
    }
  }

  /** An edge between two consecutive path nodes is highlighted, whichever way round the edge is stored. */
  lemma PathStepHighlighted(path: seq<NodeId>, i: nat, e: Edge)
    requires i + 1 < |path|
    requires Matches(PathEdge(path[i], path[i + 1]), e.start, e.end)
    ensures IsInPath(PathEdges(path), e)
  {
    PathEdgesShape(path);
    assert Matches(PathEdges(path)[i], e.start, e.end);
  }

  /** Only edges between consecutive path nodes are highlighted. */
  lemma HighlightedIsPathStep(path: seq<NodeId>, e: Edge) returns (i: nat)
    requires IsInPath(PathEdges(path), e)
    ensures i + 1 < |path| && Matches(PathEdge(path[i], path[i + 1]), e.start, e.end)
  {
    PathEdgesShape(path);
    var k :| 0 <= k < |PathEdges(path)| && Matches(PathEdges(path)[k], e.start, e.end);
    i := k;
  }
}
