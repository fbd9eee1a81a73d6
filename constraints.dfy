/** Constraint helpers of the Kropki Sudoku solver: the dot markers, the
    values a dot leaves to a cell next to an assigned neighbour, the cells of
    a 3x3 box, and the order in which the row, column and box peers of a
    cell are visited by the propagation loops. */
module Constraints {

  datatype Option<T> = None | Some(value: T)

  /** A dot marker between two orthogonally adjacent cells; the puzzle
      encodes them as 0 (none), 1 (white) and 2 (black). */
  datatype Dot = NoDot | White | Black

  /** A board position (row, column). */
  type Pos = (int, int)

  predicate InGrid(p: Pos) {
    0 <= p.0 < 9 && 0 <= p.1 < 9
  }

  /** Two positions lie in the same 3x3 box. */
  predicate SameBox(p: Pos, q: Pos) {
    p.0 / 3 == q.0 / 3 && p.1 / 3 == q.1 / 3
  }

  /** q shares a row, a column or a box with a, and is not a itself. */
  predicate IsPeer(a: Pos, q: Pos) {
    InGrid(q) && q != a && (q.0 == a.0 || q.1 == a.1 || SameBox(q, a))
  }

  predicate Distinct(ps: seq<Pos>) {
    forall a, b | 0 <= a < b < |ps| :: ps[a] != ps[b]
  }

  /** The relation a dot imposes between the neighbour's value v and the
      cell's value w: a white dot joins consecutive values, a black dot
      joins a value and its double. */
  predicate DotHolds(d: Dot, v: int, w: int) {
    match d
    case NoDot => true
    case White => w == v - 1 || w == v + 1
    case Black => w == 2 * v || 2 * w == v
  }

  /** The dot rule reads the same from either end. */
  lemma DotHoldsSymmetric(d: Dot, v: int, w: int)
    ensures DotHolds(d, v, w) <==> DotHolds(d, w, v)
  {
  }

  /** The values a cell may still take when it shares dot `d` with a
      neighbour holding `v` (`dot_remains`). */
  function DotRemains(d: Dot, v: int): (r: seq<int>)
    requires d != NoDot
    ensures 1 <= v <= 9 ==> forall w :: w in r <==> 1 <= w <= 9 && DotHolds(d, v, w)
    ensures d == White ==> r != []
    ensures d == Black ==> (r == [] <==> v % 2 == 1 && v > 3)
  {
    if d == White then
      if v == 1 then [v + 1]
      else if v == 9 then [v - 1]
      else [v - 1, v + 1]
    else
      if v % 2 == 0 && v <= 4 then [v / 2, v * 2]
      else if v % 2 == 0 && v > 4 then [v / 2]
      else if v % 2 == 1 && v <= 3 then [v * 2]
      else []
  }

  /** A dot constrains its two cells alike: w is allowed next to v exactly
      when v is allowed next to w. This is `DotHoldsSymmetric` read through
      the value lists `dot_remains` actually returns, which is the form that
      says the solver's pruning in one direction agrees with the other; the
      proofs about boards use the relation form instead. */
  lemma DotSymmetric(d: Dot, v: int, w: int)
    requires d != NoDot && 1 <= v <= 9 && 1 <= w <= 9
    ensures w in DotRemains(d, v) <==> v in DotRemains(d, w)
  {
    DotHoldsSymmetric(d, v, w);
  }

  /** The nine cells of the 3x3 box holding (i, j), row by row: the zip of
      the row offsets 0,0,0,1,1,1,2,2,2 and the column offsets
      0,1,2,0,1,2,0,1,2 from the box origin (`box_indexes`). */
  function BoxIndexes(i: int, j: int): (r: seq<Pos>)
    ensures |r| == 9 && Distinct(r)
    ensures forall p :: p in r <==> SameBox(p, (i, j))
    ensures forall p | p in r :: 3 * (i / 3) <= p.0 < 3 * (i / 3) + 3 && 3 * (j / 3) <= p.1 < 3 * (j / 3) + 3
    ensures (i, j) in r
  {
    var istart := (i / 3) * 3;
    var jstart := (j / 3) * 3;
    [(istart, jstart), (istart, jstart + 1), (istart, jstart + 2),
     (istart + 1, jstart), (istart + 1, jstart + 1), (istart + 1, jstart + 2),
     (istart + 2, jstart), (istart + 2, jstart + 1), (istart + 2, jstart + 2)]
  }

  /** The cells of row i, left to right. */
  function Row(i: int): (r: seq<Pos>)
    ensures |r| == 9 && Distinct(r)
    ensures forall p :: p in r <==> p.0 == i && 0 <= p.1 < 9
  {
    var r := seq(9, k requires 0 <= k < 9 => (i, k));
    assert forall p: Pos | p.0 == i && 0 <= p.1 < 9 :: r[p.1] == p;
    r
  }

  /** The cells of column j, top to bottom. */
  function Column(j: int): (r: seq<Pos>)
    ensures |r| == 9 && Distinct(r)
    ensures forall p :: p in r <==> p.1 == j && 0 <= p.0 < 9
  {
    var r := seq(9, k requires 0 <= k < 9 => (k, j));
    assert forall p: Pos | p.1 == j && 0 <= p.0 < 9 :: r[p.0] == p;
    r
  }

  /** The positions of `ps`, in order, that a loop with `continue` on
      `skip` goes on to handle. */
  function Visit(ps: seq<Pos>, skip: Pos -> bool): (r: seq<Pos>)
    ensures forall p :: p in r <==> p in ps && !skip(p)
    ensures Distinct(ps) ==> Distinct(r)
  {
    if ps == [] then []
    else (if skip(ps[0]) then [] else [ps[0]]) + Visit(ps[1..], skip)
  }

  /** The peers of (i, j) in the order the propagation loops visit them:
      the row skipping column j, the column skipping row i, then the box
      skipping every cell on row i or column j. */
  function PeerList(i: int, j: int): (r: seq<Pos>)
    requires InGrid((i, j))
    ensures Distinct(r)
    ensures forall p :: p in r <==> IsPeer((i, j), p)
  {
    var rowPeers := Visit(Row(i), (p: Pos) => p.1 == j);
    var colPeers := Visit(Column(j), (p: Pos) => p.0 == i);
    var boxPeers := Visit(BoxIndexes(i, j), (p: Pos) => p.0 == i || p.1 == j);
    DistinctJoin(rowPeers, colPeers);
    DistinctJoin(rowPeers + colPeers, boxPeers);
    PeersCovered(i, j, rowPeers, colPeers, boxPeers);
    rowPeers + colPeers + boxPeers
  }

  /** Membership in the peer list, one position at a time. */
  lemma PeerListMember(i: int, j: int, p: Pos)
    requires InGrid((i, j))
    ensures p in PeerList(i, j) <==> IsPeer((i, j), p)
  {
  }

  lemma PeersCovered(i: int, j: int, rowPeers: seq<Pos>, colPeers: seq<Pos>, boxPeers: seq<Pos>)
    requires InGrid((i, j))
    requires forall p :: p in rowPeers <==> p.0 == i && 0 <= p.1 < 9 && p.1 != j
    requires forall p :: p in colPeers <==> p.1 == j && 0 <= p.0 < 9 && p.0 != i
    requires forall p :: p in boxPeers <==> SameBox(p, (i, j)) && p.0 != i && p.1 != j
    ensures forall p :: p in rowPeers + colPeers + boxPeers <==> IsPeer((i, j), p)
  {
    forall p: Pos
      ensures p in rowPeers + colPeers + boxPeers <==> IsPeer((i, j), p)
    {
      if SameBox(p, (i, j)) {
        assert 0 <= p.0 < 9 && 0 <= p.1 < 9;
      }
    }
  }

  lemma DistinctJoin(a: seq<Pos>, b: seq<Pos>)
    requires Distinct(a) && Distinct(b)
    requires forall p | p in a :: p !in b
    ensures Distinct(a + b)
  {
    forall x, y | 0 <= x < y < |a + b|
      ensures (a + b)[x] != (a + b)[y]
    {
      if y >= |a| && x < |a| {
        assert (a + b)[x] in a && (a + b)[y] in b;
      }
    }
  }
}
