// The hit test of the mousemove listener: scan the nodes in order and let every
// node within 20 pixels of the pointer overwrite the answer, so the last one wins.
// Distances are compared squared (d <= 20 iff d * d <= 400 for d >= 0).
module HitTest {
  import opened CityData

  /** The selection radius, in pixels. */
  const HitRadius: real := 20.0

  function SquaredDistance(p: Pos, q: Pos): real
  {
    (p.x - q.x) * (p.x - q.x) + (p.y - q.y) * (p.y - q.y)
  }

  /** Node `id` qualifies: it has a position, and the pointer lies within the selection radius of it. */
  predicate Hits(positions: map<NodeId, Pos>, id: NodeId, mouse: Pos)
  {
    id in positions && SquaredDistance(mouse, positions[id]) <= HitRadius * HitRadius
  }

  /** `foundNode` after the scan has visited the first k nodes. */
  function LastHit(nodes: seq<Node>, positions: map<NodeId, Pos>, mouse: Pos, k: nat): Option<NodeId>
    requires k <= |nodes|
  {
    if k == 0 then None
    else if Hits(positions, nodes[k - 1].id, mouse) then Some(nodes[k - 1].id)
    else LastHit(nodes, positions, mouse, k - 1)
  }

  /** `foundNode` once the scan is over. */
  function FoundNode(nodes: seq<Node>, positions: map<NodeId, Pos>, mouse: Pos): Option<NodeId>
  {
    LastHit(nodes, positions, mouse, |nodes|)
  }

  /** The scan itself: one pass over the nodes, overwriting `found` on every qualifying node. */
  method FindNodeNear(nodes: seq<Node>, positions: map<NodeId, Pos>, mouse: Pos) returns (found: Option<NodeId>)
    ensures found == FoundNode(nodes, positions, mouse)
  {
    found := None;
    for i := 0 to |nodes|
      invariant found == LastHit(nodes, positions, mouse, i)
    {
      var id := nodes[i].id;
      if id in positions {
        var pos := positions[id];
        if SquaredDistance(mouse, pos) <= HitRadius * HitRadius {
          found := Some(id);
        }
      }
    }
  }

  lemma {:induction false} LastHitNone(nodes: seq<Node>, positions: map<NodeId, Pos>, mouse: Pos, k: nat)
    requires k <= |nodes|
    ensures LastHit(nodes, positions, mouse, k) == None <==> forall j :: 0 <= j < k ==> !Hits(positions, nodes[j].id, mouse)
  {
    if k > 0 {
      LastHitNone(nodes, positions, mouse, k - 1);
    }
  }

  /** The scan finds nothing exactly when no positioned node lies within the radius. */
  lemma FoundNoneIff(nodes: seq<Node>, positions: map<NodeId, Pos>, mouse: Pos)
    ensures FoundNode(nodes, positions, mouse) == None <==> forall j :: 0 <= j < |nodes| ==> !Hits(positions, nodes[j].id, mouse)
  {
    LastHitNone(nodes, positions, mouse, |nodes|);
  }

  lemma {:induction false} LastHitWitness(nodes: seq<Node>, positions: map<NodeId, Pos>, mouse: Pos, k: nat) returns (i: nat)
    requires k <= |nodes| && LastHit(nodes, positions, mouse, k).Some?
    ensures i < k && nodes[i].id == LastHit(nodes, positions, mouse, k).value
    ensures Hits(positions, nodes[i].id, mouse)
    ensures forall j :: i < j < k ==> !Hits(positions, nodes[j].id, mouse)
  {
    if Hits(positions, nodes[k - 1].id, mouse) {
      i := k - 1;
    } else {
      i := LastHitWitness(nodes, positions, mouse, k - 1);
    }
  }

  /** A found node is a qualifying node with no qualifying node after it in the list. */
  lemma FoundIsLastHit(nodes: seq<Node>, positions: map<NodeId, Pos>, mouse: Pos) returns (i: nat)
    requires FoundNode(nodes, positions, mouse).Some?
    ensures i < |nodes| && nodes[i].id == FoundNode(nodes, positions, mouse).value
    ensures Hits(positions, nodes[i].id, mouse)
    ensures forall j :: i < j < |nodes| ==> !Hits(positions, nodes[j].id, mouse)
  {
    i := LastHitWitness(nodes, positions, mouse, |nodes|);
  }

  lemma {:induction false} LastHitOfLastHitter(nodes: seq<Node>, positions: map<NodeId, Pos>, mouse: Pos, k: nat, i: nat)
    requires i < k <= |nodes| && Hits(positions, nodes[i].id, mouse)
    requires forall j :: i < j < k ==> !Hits(positions, nodes[j].id, mouse)
    ensures LastHit(nodes, positions, mouse, k) == Some(nodes[i].id)
  {
    if i < k - 1 {
      LastHitOfLastHitter(nodes, positions, mouse, k - 1, i);
    }
  }

  /** Conversely, the last qualifying node in the list is the one found. */
  lemma LastHitterIsFound(nodes: seq<Node>, positions: map<NodeId, Pos>, mouse: Pos, i: nat)
    requires i < |nodes| && Hits(positions, nodes[i].id, mouse)
    requires forall j :: i < j < |nodes| ==> !Hits(positions, nodes[j].id, mouse)
    ensures FoundNode(nodes, positions, mouse) == Some(nodes[i].id)
  {
    LastHitOfLastHitter(nodes, positions, mouse, |nodes|, i);
  }
}
