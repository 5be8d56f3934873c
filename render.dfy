// The choices drawCityMap makes for each edge and each node: whether it is drawn
// at all, the edge style, and the node's radius, fill, outline and caption.
// The canvas calls themselves (colours, fonts, text boxes) are not modelled.
module Render {
  import opened CityData
  import opened PathOverlay

  /** An edge as drawn: a line between its endpoints' positions, highlighted or not. */
  datatype EdgeLine = EdgeLine(from: Pos, to: Pos, onPath: bool)

  /** How drawCityMap draws edge `e`: not at all when either endpoint has no position. */
  function EdgeLook(positions: map<NodeId, Pos>, pathEdges: seq<PathEdge>, e: Edge): (r: Option<EdgeLine>)
    ensures r.None? <==> e.start !in positions || e.end !in positions
    ensures r.Some? ==> r.value.from == positions[e.start] && r.value.to == positions[e.end]
    ensures r.Some? ==> (r.value.onPath <==> exists i :: 0 <= i < |pathEdges| && Matches(pathEdges[i], e.start, e.end))
  {
    if e.start !in positions || e.end !in positions then None
    else Some(EdgeLine(positions[e.start], positions[e.end], IsInPath(pathEdges, e)))
  }

  /** The three fill colours: start, end and default. */
  datatype Fill = StartFill | EndFill | DefaultFill

  /** A node as drawn: a circle at `centre` with its caption below it. */
  datatype NodeLook = NodeLook(centre: Pos, radius: real, fill: Fill, outlined: bool, caption: string)

  /** How drawCityMap draws `node`: skipped without a position; start beats end beats default; hover only enlarges and outlines. */
  function NodeLookOf(positions: map<NodeId, Pos>, node: Node, selectedStart: Option<NodeId>,
                      selectedEnd: Option<NodeId>, hoveredNode: Option<NodeId>): (r: Option<NodeLook>)
    ensures r.None? <==> node.id !in positions
    ensures r.Some? ==> r.value.centre == positions[node.id] && r.value.caption == NodeCaption(node)
    ensures r.Some? ==> (r.value.fill == StartFill <==> selectedStart == Some(node.id))
    ensures r.Some? ==> (r.value.fill == EndFill <==> selectedStart != Some(node.id) && selectedEnd == Some(node.id))
    ensures r.Some? ==> (r.value.outlined <==> hoveredNode == Some(node.id))
    ensures r.Some? ==> r.value.radius == if hoveredNode == Some(node.id) then 22.0 else 20.0
  {
    if node.id !in positions then None
    else
      var isStart := selectedStart == Some(node.id);
      var isEnd := selectedEnd == Some(node.id);
      var isHovered := hoveredNode == Some(node.id);
      var fill := if isStart then StartFill else if isEnd then EndFill else DefaultFill;
      Some(NodeLook(positions[node.id], if isHovered then 22.0 else 20.0, fill, isHovered, NodeCaption(node)))
  }

  /** The caption under a node: its name, or "Node <id>" when the name is missing or empty. */
  function NodeCaption(node: Node): (s: string)
    ensures |s| > 0
    ensures node.name.Some? && node.name.value != "" ==> s == node.name.value
    ensures node.name.None? || node.name.value == "" ==> |s| > 5 && s[..5] == "Node "
  {
    match node.name
    case Some(name) => if name != "" then name else "Node " + IntToDecimal(node.id)
    case None => "Node " + IntToDecimal(node.id)
  }

  function DigitChar(d: nat): (c: char)
    requires d < 10
    ensures '0' <= c <= '9' && c as int - '0' as int == d
  {
    ('0' as int + d) as char
  }

  predicate AllDigits(s: string)
  {
    forall i :: 0 <= i < |s| ==> '0' <= s[i] <= '9'
  }

  /** The decimal spelling of a natural number, without leading zeros. */
  function NatToDecimal(n: nat): (s: string)
    ensures |s| > 0 && AllDigits(s)
    ensures n > 0 ==> s[0] != '0'
  {
    if n < 10 then [DigitChar(n)]
    else NatToDecimal(n / 10) + [DigitChar(n % 10)]
  }

  /** The decimal spelling of an integer, as a template literal writes it for |n| <= 2^53 (exact doubles with no rounded digits). */
  function IntToDecimal(n: int): string
  {
    if n < 0 then "-" + NatToDecimal(-n) else NatToDecimal(n)
  }

  /** The number a string of decimal digits stands for. */
  function DecimalValue(s: string): nat
    requires AllDigits(s)
  {
    if s == [] then 0 else DecimalValue(s[..|s| - 1]) * 10 + (s[|s| - 1] as int - '0' as int)
  }

  /** The number an optionally signed decimal string stands for. */
  function SignedDecimalValue(s: string): int
  {
    if |s| > 0 && s[0] == '-' && AllDigits(s[1..]) then -(DecimalValue(s[1..]) as int)
    else if AllDigits(s) then DecimalValue(s)
    else 0
  }

  lemma {:induction false} NatToDecimalRoundTrip(n: nat)
    ensures DecimalValue(NatToDecimal(n)) == n
  {
    if n >= 10 {
      NatToDecimalRoundTrip(n / 10);
      var s := NatToDecimal(n);
      assert s[..|s| - 1] == NatToDecimal(n / 10);
    }
  }

  /** The spelled id reads back as the id. */
  lemma IntToDecimalRoundTrip(n: int)
    ensures SignedDecimalValue(IntToDecimal(n)) == n
  {
    if n < 0 {
      NatToDecimalRoundTrip(-n);
      assert IntToDecimal(n)[1..] == NatToDecimal(-n);
    } else {
      NatToDecimalRoundTrip(n);
    }
  }

  /** A fallback caption names the node: the text after "Node " reads back as its id. */
  lemma FallbackCaptionNamesNode(node: Node)
    requires node.name.None? || node.name.value == ""
    ensures |NodeCaption(node)| > 5 && NodeCaption(node)[..5] == "Node "
    ensures SignedDecimalValue(NodeCaption(node)[5..]) == node.id
  {
    IntToDecimalRoundTrip(node.id);
    assert NodeCaption(node)[5..] == IntToDecimal(node.id);
  }
}
