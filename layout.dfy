// The grid layout of calculateNodePositions: node i, in the order the server
// sent the nodes, is placed at the centre of grid cell (i % cols, i / cols)
// inside a 50-pixel margin, with cols = ceil(sqrt(N)) and rows = ceil(N / cols).
module GridLayout {
  import opened CityData

  /** The margin kept free on every side of the canvas. */
  const Padding: real := 50.0

  /** Math.ceil(Math.sqrt(n)); ColsIsCeilSqrt shows it is the least c with n <= c * c. */
  function Cols(n: nat): (c: nat)
    ensures n > 0 <==> c > 0
  {
    ColsFromLeast(n, 0);
    ColsFrom(n, 0)
  }

  /** Search upwards from c for the least square that reaches n. */
  function ColsFrom(n: nat, c: nat): nat
    decreases n - c
  {
    if n <= c * c then c else ColsFrom(n, c + 1)
  }

  lemma {:induction false} ColsFromLeast(n: nat, c: nat)
    requires c == 0 || (c - 1) * (c - 1) < n
    ensures n <= ColsFrom(n, c) * ColsFrom(n, c)
    ensures ColsFrom(n, c) == 0 || (ColsFrom(n, c) - 1) * (ColsFrom(n, c) - 1) < n
    decreases n - c
  {
    if n > c * c {
      SquareAtLeast(c);
      ColsFromLeast(n, c + 1);
    }
  }

  lemma SquareAtLeast(c: nat)
    ensures c <= c * c
  {
    if c > 0 {
      assert c * c == c * (c - 1) + c;
    }
  }

  /** The column count is the ceiling of the square root: the least c whose square reaches n. */
  lemma ColsIsCeilSqrt(n: nat)
    ensures n <= Cols(n) * Cols(n)
    ensures Cols(n) == 0 || (Cols(n) - 1) * (Cols(n) - 1) < n
  {
    ColsFromLeast(n, 0);
  }

  /** Math.ceil(n / cols). For n == 0 the source divides 0 by 0; no node reads it. */
  function Rows(n: nat): (r: nat)
    ensures n > 0 <==> r > 0
  {
    if n == 0 then 0
    else
      var c := Cols(n);
      assert (n + c - 1) / c >= 1 by {
        assert (n + c - 1) / c * c + (n + c - 1) % c == n + c - 1;
      }
      (n + c - 1) / c
  }

  /** The row count is the ceiling of n / cols: the least r with n <= r * cols. */
  lemma RowsIsCeilDiv(n: nat)
    requires n > 0
    ensures (Rows(n) - 1) * Cols(n) < n <= Rows(n) * Cols(n)
  {
    var c := Cols(n);
    var q := (n + c - 1) / c;
    assert q == Rows(n);
    assert q * c + (n + c - 1) % c == n + c - 1;
    assert (q - 1) * c == q * c - c;
  }

  lemma MulCancel(a: nat, b: nat, c: nat)
    requires a * c < b * c
    ensures a < b
  {
  }

  /** Every index below N falls into a cell of the cols x rows grid. */
  lemma CellInGrid(i: nat, n: nat)
    requires i < n
    ensures Cols(n) > 0 && Rows(n) > 0
    ensures i % Cols(n) < Cols(n) && i / Cols(n) < Rows(n)
  {
    var c, r := Cols(n), Rows(n);
    RowsIsCeilDiv(n);
    assert (i / c) * c + i % c == i;
    MulCancel(i / c, r, c);
  }

  /** Two different indices never share a grid cell. */
  lemma CellsDistinct(i: nat, j: nat, n: nat)
    requires i < n && j < n && i != j
    ensures i % Cols(n) != j % Cols(n) || i / Cols(n) != j / Cols(n)
  {
    CellInGrid(i, n);
    var c := Cols(n);
    assert (i / c) * c + i % c == i;
    assert (j / c) * c + j % c == j;
  }

  /** The centre of grid cell `k` along one axis, `span` pixels split into `cells` cells. */
  function Centre(k: nat, cells: nat, span: real): real
    requires cells > 0
  {
    var cell := span / cells as real;
    Padding + k as real * cell + cell / 2.0
  }

  /** Where calculateNodePositions puts the node at index i of n, on a width x height canvas. */
  function PositionAt(i: nat, n: nat, width: nat, height: nat): Pos
    requires i < n
  {
    var cols := Cols(n);
    Pos(Centre(i % cols, cols, width as real - 2.0 * Padding),
        Centre(i / cols, Rows(n), height as real - 2.0 * Padding))
  }

  /** The grid arithmetic of the layout loop computes PositionAt. */
  lemma PositionAtCell(i: nat, n: nat, width: nat, height: nat, cellWidth: real, cellHeight: real)
    requires i < n
    requires cellWidth == (width as real - 2.0 * Padding) / Cols(n) as real
    requires cellHeight == (height as real - 2.0 * Padding) / Rows(n) as real
    ensures PositionAt(i, n, width, height) ==
      Pos(Padding + (i % Cols(n)) as real * cellWidth + cellWidth / 2.0,
          Padding + (i / Cols(n)) as real * cellHeight + cellHeight / 2.0)
  {
  }

  lemma CentreInRange(k: nat, cells: nat, span: real)
    requires k < cells && span >= 0.0
    ensures Padding <= Centre(k, cells, span) <= Padding + span
  {
    var cell := span / cells as real;
    var m := cells - 1 - k;
    assert cell * cells as real == span;
    assert cell >= 0.0;
    MulNonNegative(k as real, cell);
    MulNonNegative(m as real, cell);
    assert cells as real * cell == k as real * cell + cell + m as real * cell;
  }

  lemma MulNonNegative(a: real, b: real)
    requires a >= 0.0 && b >= 0.0
    ensures a * b >= 0.0
  {
  }

  lemma CentreInjective(a: nat, b: nat, cells: nat, span: real)
    requires cells > 0 && span > 0.0
    requires Centre(a, cells, span) == Centre(b, cells, span)
    ensures a == b
  {
    var cell := span / cells as real;
    assert cell > 0.0;
    assert (a as real - b as real) * cell == 0.0;
  }

  /** The predicate of "lies inside the margin" for a canvas of the given size. */
  predicate InBounds(p: Pos, width: nat, height: nat)
  {
    Padding <= p.x <= width as real - Padding && Padding <= p.y <= height as real - Padding
  }

  /** On a canvas of at least 100 x 100, every node lies inside the 50-pixel margin. */
  lemma PositionInBounds(i: nat, n: nat, width: nat, height: nat)
    requires i < n && width >= 100 && height >= 100
    ensures InBounds(PositionAt(i, n, width, height), width, height)
  {
    CellInGrid(i, n);
    var c, r := Cols(n), Rows(n);
    var spanX, spanY := width as real - 2.0 * Padding, height as real - 2.0 * Padding;
    var col, row := i % c, i / c;
    CentreInRange(col, c, spanX);
    CentreInRange(row, r, spanY);
    assert PositionAt(i, n, width, height) == Pos(Centre(col, c, spanX), Centre(row, r, spanY));
  }

  /** On a canvas wider and taller than 100, no two nodes share a centre. */
  lemma PositionsDistinct(i: nat, j: nat, n: nat, width: nat, height: nat)
    requires i < n && j < n && i != j && width > 100 && height > 100
    ensures PositionAt(i, n, width, height) != PositionAt(j, n, width, height)
  {
    CellInGrid(i, n);
    CellInGrid(j, n);
    CellsDistinct(i, j, n);
    var c := Cols(n);
    if PositionAt(i, n, width, height) == PositionAt(j, n, width, height) {
      CentreInjective(i % c, j % c, c, width as real - 2.0 * Padding);
      CentreInjective(i / c, j / c, Rows(n), height as real - 2.0 * Padding);
      assert false;
    }
  }

  /** `nodePositions` after the forEach of calculateNodePositions has visited the first k nodes. */
  function PlaceFirst(before: map<NodeId, Pos>, nodes: seq<Node>, k: nat, width: nat, height: nat): map<NodeId, Pos>
    requires k <= |nodes|
  {
    if k == 0 then before
    else PlaceFirst(before, nodes, k - 1, width, height)[nodes[k - 1].id := PositionAt(k - 1, |nodes|, width, height)]
  }

  /** `nodePositions` after calculateNodePositions, which writes into the map it finds without clearing it. */
  function Layout(before: map<NodeId, Pos>, nodes: seq<Node>, width: nat, height: nat): map<NodeId, Pos>
  {
    PlaceFirst(before, nodes, |nodes|, width, height)
  }

  lemma {:induction false} PlaceFirstKeys(before: map<NodeId, Pos>, nodes: seq<Node>, k: nat, width: nat, height: nat)
    requires k <= |nodes|
    ensures PlaceFirst(before, nodes, k, width, height).Keys == before.Keys + NodeIds(nodes[..k])
  {
    if k > 0 {
      PlaceFirstKeys(before, nodes, k - 1, width, height);
      assert nodes[..k] == nodes[..k - 1] + [nodes[k - 1]];
      assert NodeIds(nodes[..k]) == NodeIds(nodes[..k - 1]) + {nodes[k - 1].id};
    }
  }

  /** Every node gets a position; old entries stay; nothing else is added. */
  lemma LayoutKeys(before: map<NodeId, Pos>, nodes: seq<Node>, width: nat, height: nat)
    ensures Layout(before, nodes, width, height).Keys == before.Keys + NodeIds(nodes)
  {
    PlaceFirstKeys(before, nodes, |nodes|, width, height);
    assert nodes[..|nodes|] == nodes;
  }

  lemma {:induction false} PlaceFirstLastWins(before: map<NodeId, Pos>, nodes: seq<Node>, k: nat, width: nat, height: nat, i: nat)
    requires i < k <= |nodes|
    requires forall j :: i < j < k ==> nodes[j].id != nodes[i].id
    ensures nodes[i].id in PlaceFirst(before, nodes, k, width, height)
    ensures PlaceFirst(before, nodes, k, width, height)[nodes[i].id] == PositionAt(i, |nodes|, width, height)
  {
    if i < k - 1 {
      PlaceFirstLastWins(before, nodes, k - 1, width, height, i);
    }
  }

  /** A node's position is that of its last index: a later node with the same id overwrites an earlier one. */
  lemma LayoutLastWins(before: map<NodeId, Pos>, nodes: seq<Node>, width: nat, height: nat, i: nat)
    requires i < |nodes|
    requires forall j :: i < j < |nodes| ==> nodes[j].id != nodes[i].id
    ensures nodes[i].id in Layout(before, nodes, width, height)
    ensures Layout(before, nodes, width, height)[nodes[i].id] == PositionAt(i, |nodes|, width, height)
  {
    PlaceFirstLastWins(before, nodes, |nodes|, width, height, i);
  }

  lemma {:induction false} PlaceFirstKeepsOthers(before: map<NodeId, Pos>, nodes: seq<Node>, k: nat, width: nat, height: nat, id: NodeId)
    requires k <= |nodes| && id in before
    requires forall j :: 0 <= j < k ==> nodes[j].id != id
    ensures id in PlaceFirst(before, nodes, k, width, height)
    ensures PlaceFirst(before, nodes, k, width, height)[id] == before[id]
  {
    if k > 0 {
      PlaceFirstKeepsOthers(before, nodes, k - 1, width, height, id);
    }
  }

  /** The map is not cleared: an entry whose id is not among the nodes survives unchanged. */
  lemma LayoutKeepsOthers(before: map<NodeId, Pos>, nodes: seq<Node>, width: nat, height: nat, id: NodeId)
    requires id in before && id !in NodeIds(nodes)
    ensures id in Layout(before, nodes, width, height)
    ensures Layout(before, nodes, width, height)[id] == before[id]
  {
    forall j | 0 <= j < |nodes| ensures nodes[j].id != id {
      assert nodes[j].id in NodeIds(nodes);
    }
    PlaceFirstKeepsOthers(before, nodes, |nodes|, width, height, id);
  }

  lemma {:induction false} PlaceFirstInBounds(before: map<NodeId, Pos>, nodes: seq<Node>, k: nat, width: nat, height: nat, id: NodeId)
    requires k <= |nodes| && width >= 100 && height >= 100
    requires exists j :: 0 <= j < k && nodes[j].id == id
    ensures id in PlaceFirst(before, nodes, k, width, height)
    ensures InBounds(PlaceFirst(before, nodes, k, width, height)[id], width, height)
  {
    if nodes[k - 1].id == id {
      PositionInBounds(k - 1, |nodes|, width, height);
    } else {
      PlaceFirstInBounds(before, nodes, k - 1, width, height, id);
    }
  }

  /** On a canvas of at least 100 x 100 every node's position lies inside the margin, whatever the map held before. */
  lemma LayoutInBounds(before: map<NodeId, Pos>, nodes: seq<Node>, width: nat, height: nat, id: NodeId)
    requires width >= 100 && height >= 100 && id in NodeIds(nodes)
    ensures id in Layout(before, nodes, width, height)
    ensures InBounds(Layout(before, nodes, width, height)[id], width, height)
  {
    PlaceFirstInBounds(before, nodes, |nodes|, width, height, id);
  }

  lemma {:induction false} PlaceFirstOnlyIds(before: map<NodeId, Pos>, a: seq<Node>, b: seq<Node>, k: nat, width: nat, height: nat)
    requires k <= |a| == |b|
    requires forall j :: 0 <= j < |a| ==> a[j].id == b[j].id
    ensures PlaceFirst(before, a, k, width, height) == PlaceFirst(before, b, k, width, height)
  {
    if k > 0 {
      PlaceFirstOnlyIds(before, a, b, k - 1, width, height);
    }
  }

  /** The layout depends on the order of the ids only, not on the names. */
  lemma LayoutOnlyIds(before: map<NodeId, Pos>, a: seq<Node>, b: seq<Node>, width: nat, height: nat)
    requires |a| == |b|
    requires forall j :: 0 <= j < |a| ==> a[j].id == b[j].id
    ensures Layout(before, a, width, height) == Layout(before, b, width, height)
  {
    PlaceFirstOnlyIds(before, a, b, |a|, width, height);
  }
}
