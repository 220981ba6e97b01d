/** The grid the A* tests build from a picture of 35 symbols: 7 columns by 5 rows,
    given row by row. A black circle is a blocked cell, a red one the start,
    a blue one the end; every other symbol is a free cell. */
module AStarGrid {
  import opened Wrappers

  const Width := 7
  const Height := 5

  const StartSymbol: string := "\U{1F534}"
  const EndSymbol: string := "\U{1F535}"
  const BusySymbol: string := "\U{26AB}\U{FE0F}"

  /** The node type: free unless marked busy. */
  datatype NodeType = Free | Busy

  /** A grid node: its column, its row and its type. */
  datatype Node = Node(x: int, y: int, kind: NodeType)

  predicate OnGrid(n: Node)
  {
    0 <= n.x < Width && 0 <= n.y < Height
  }

  /** Where the node of column `x`, row `y` lands in the node list: columns are visited first. */
  function Slot(x: int, y: int): (k: int)
    ensures 0 <= x < Width && 0 <= y < Height ==> 0 <= k < Width * Height
  {
    x * Height + y
  }

  /** Where the symbol of column `x`, row `y` sits in the picture: row-major. */
  function Cell(x: int, y: int): (c: int)
    ensures 0 <= x < Width && 0 <= y < Height ==> 0 <= c < Width * Height
  {
    y * Width + x
  }

  lemma SlotInjective(a: Node, b: Node)
    requires OnGrid(a) && OnGrid(b) && Slot(a.x, a.y) == Slot(b.x, b.y)
    ensures a.x == b.x && a.y == b.y
  {
  }

  /** Every node so far sits at its own slot, on the grid, and is busy exactly
      when its symbol is the black circle. */
  ghost predicate Laid(data: seq<string>, points: seq<Node>)
    requires |data| >= Width * Height
  {
    forall k :: 0 <= k < |points| ==>
      && OnGrid(points[k])
      && Slot(points[k].x, points[k].y) == k
      && (points[k].kind == Busy <==> data[Cell(points[k].x, points[k].y)] == BusySymbol)
  }

  /** `found` is the node of the last cell visited so far that shows `symbol`, if any. */
  ghost predicate LastWith(data: seq<string>, points: seq<Node>, symbol: string, found: Option<Node>)
    requires |data| >= Width * Height && Laid(data, points)
  {
    && (found.Some? ==> found.value in points && OnGrid(found.value) && data[Cell(found.value.x, found.value.y)] == symbol)
    && forall k :: 0 <= k < |points| && OnGrid(points[k]) && data[Cell(points[k].x, points[k].y)] == symbol ==>
         found.Some? && k <= Slot(found.value.x, found.value.y)
  }

  /** A full list of nodes has a node for every cell of the picture. */
  lemma CellCovered(data: seq<string>, points: seq<Node>, c: int)
    requires |data| >= Width * Height && |points| == Width * Height && Laid(data, points)
    requires 0 <= c < Width * Height
    ensures exists k :: 0 <= k < |points| && Cell(points[k].x, points[k].y) == c
  {
    var k := Slot(c % Width, c / Width);
    SlotInjective(points[k], Node(c % Width, c / Width, Free));
  }

  /** fillNodes(from:): one node per cell, columns outer and rows inner, with the start
      and end taken from the last red and blue cells visited. Both must be present. */
  method FillNodes(data: seq<string>) returns (start: Node, end: Node, points: seq<Node>)
    requires |data| >= Width * Height
    requires StartSymbol in data[..Width * Height] && EndSymbol in data[..Width * Height]
    ensures |points| == Width * Height
    ensures forall k :: 0 <= k < |points| ==> OnGrid(points[k]) && Slot(points[k].x, points[k].y) == k
    ensures forall x, y :: 0 <= x < Width && 0 <= y < Height ==>
      points[Slot(x, y)].x == x && points[Slot(x, y)].y == y
    ensures forall k :: 0 <= k < |points| && OnGrid(points[k]) ==>
      (points[k].kind == Busy <==> data[Cell(points[k].x, points[k].y)] == BusySymbol)
    ensures start in points && OnGrid(start) && data[Cell(start.x, start.y)] == StartSymbol
    ensures forall k :: 0 <= k < |points| && OnGrid(points[k]) && data[Cell(points[k].x, points[k].y)] == StartSymbol ==>
      k <= Slot(start.x, start.y)
    ensures end in points && OnGrid(end) && data[Cell(end.x, end.y)] == EndSymbol
    ensures forall k :: 0 <= k < |points| && OnGrid(points[k]) && data[Cell(points[k].x, points[k].y)] == EndSymbol ==>
      k <= Slot(end.x, end.y)
  {
    points := [];
    var startPoint: Option<Node> := None;
    var endPoint: Option<Node> := None;
    for x := 0 to Width
      invariant |points| == x * Height
      invariant Laid(data, points)
      invariant LastWith(data, points, StartSymbol, startPoint)
      invariant LastWith(data, points, EndSymbol, endPoint)
    {
      for y := 0 to Height
        invariant |points| == x * Height + y
        invariant Laid(data, points)
        invariant LastWith(data, points, StartSymbol, startPoint)
        invariant LastWith(data, points, EndSymbol, endPoint)
      {
        var symbol := data[Cell(x, y)];
        var node := Node(x, y, Free);
        if symbol == StartSymbol {
          startPoint := Some(node);
        } else if symbol == EndSymbol {
          endPoint := Some(node);
        } else if symbol == BusySymbol {
          node := node.(kind := Busy);
        }
        points := points + [node];
      }
    }
    forall x, y | 0 <= x < Width && 0 <= y < Height
      ensures points[Slot(x, y)].x == x && points[Slot(x, y)].y == y
    {
      SlotInjective(points[Slot(x, y)], Node(x, y, Free));
    }
    var s :| 0 <= s < Width * Height && data[s] == StartSymbol;
    CellCovered(data, points, s);
    var e :| 0 <= e < Width * Height && data[e] == EndSymbol;
    CellCovered(data, points, e);
    start, end := startPoint.value, endPoint.value;
  }
}
