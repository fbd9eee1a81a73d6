/** The solver's board: a 9x9 array of cells that forward checking prunes
    in place, that undo writes back, and that the search assigns. */
module Solver {
  import opened Constraints
  import opened Cells
  import opened Propagation
  import opened Search
  import opened Wiring

  /** `c` differs from `e` at most in its `left` and `right` links. */
  predicate KeepsRowLinks(c: Cell, e: Cell) {
    c.value == e.value && c.domain == e.domain && c.up == e.up && c.down == e.down
  }

  /** `c` differs from `e` at most in its `up` and `down` links. */
  predicate KeepsColumnLinks(c: Cell, e: Cell) {
    c.value == e.value && c.domain == e.domain && c.left == e.left && c.right == e.right
  }

  class Board {
    /** The cells, indexed [row, column]. */
    const cells: array2<Cell>

    /** Builds the starting board from the parsed puzzle (`parse_file`):
        each cell takes its given value and the full domain, every dot is
        attached to both cells it separates, and every given is then
        propagated in row-major order. When the givens keep the rules
        among themselves, the board the search starts from is
        consistent. */
    constructor (values: seq<seq<int>>, horizontal: seq<seq<Dot>>, vertical: seq<seq<Dot>>)
      requires GivensShape(values, horizontal, vertical)
      ensures fresh(cells) && Valid()
      ensures Grid() == Passed(Wired(values, horizontal, vertical), 81)
      ensures GivensAgree(Wired(values, horizontal, vertical)) ==> Consistent(Grid())
      ensures forall s: Grid | IsGrid(s) && Solution(s) && Refines(s, Wired(values, horizontal, vertical)) ::
        Refines(s, Grid())
    {
      cells := new Cell[9, 9]((k, l) requires 0 <= k < 9 && 0 <= l < 9 =>
        Cell(values[k][l], FullDomain, NoDot, NoDot, NoDot, NoDot));
      new;
      WireRows(horizontal);
      WireColumns(vertical);
      ghost var w := Wired(values, horizontal, vertical);
      forall k, l | 0 <= k < 9 && 0 <= l < 9
        ensures Grid()[k][l] == w[k][l]
      {
        assert w[k][l] == WiredCell(values, horizontal, vertical, k, l);
      }
      GridEq(Grid(), w);
      WiredLinks(values, horizontal, vertical);
      PropagateGivens(w);
      if GivensAgree(w) {
        StartConsistent(w);
      }
      forall s: Grid | IsGrid(s) && Solution(s) && Refines(s, w)
        ensures Refines(s, Grid())
      {
        PuzzleSolutionRefinesStart(w, s);
      }
    }

    /** Attaches every dot between horizontal neighbours to both cells: the
        `right` link of the cell before it and the `left` link of the cell
        after it. Nothing else changes. */
    method WireRows(horizontal: seq<seq<Dot>>)
      requires cells.Length0 == 9 && cells.Length1 == 9
      requires |horizontal| == 9 && forall k | 0 <= k < 9 :: |horizontal[k]| == 8
      requires forall k, l | 0 <= k < 9 && 0 <= l < 9 :: cells[k, l].left == NoDot
      requires forall k, l | 0 <= k < 9 && 0 <= l < 9 :: cells[k, l].right == NoDot
      modifies cells
      ensures forall k, l | 0 <= k < 9 && 0 <= l < 9 :: KeepsRowLinks(cells[k, l], old(cells[k, l]))
      ensures forall k, l | 0 <= k < 9 && 0 <= l < 9 :: cells[k, l].left == if l > 0 then horizontal[k][l - 1] else NoDot
      ensures forall k, l | 0 <= k < 9 && 0 <= l < 9 :: cells[k, l].right == if l < 8 then horizontal[k][l] else NoDot
    {
      for i := 0 to 9
        invariant forall k, l | 0 <= k < 9 && 0 <= l < 9 :: KeepsRowLinks(cells[k, l], old(cells[k, l]))
        invariant forall k, l | 0 <= k < 9 && 0 <= l < 9 :: cells[k, l].left == if k < i && l > 0 then horizontal[k][l - 1] else NoDot
        invariant forall k, l | 0 <= k < 9 && 0 <= l < 9 :: cells[k, l].right == if k < i && l < 8 then horizontal[k][l] else NoDot
      {
        WireRow(i, horizontal[i]);
      }
    }

    /** Attaches the eight dots of row `i` to the cells on both sides. */
    method WireRow(i: int, dots: seq<Dot>)
      requires cells.Length0 == 9 && cells.Length1 == 9 && 0 <= i < 9 && |dots| == 8
      requires forall l | 0 <= l < 9 :: cells[i, l].left == NoDot
      requires forall l | 0 <= l < 9 :: cells[i, l].right == NoDot
      modifies cells
      ensures forall k, l | 0 <= k < 9 && 0 <= l < 9 && k != i :: cells[k, l] == old(cells[k, l])
      ensures forall l | 0 <= l < 9 :: KeepsRowLinks(cells[i, l], old(cells[i, l]))
      ensures forall l | 0 <= l < 9 :: cells[i, l].left == if l > 0 then dots[l - 1] else NoDot
      ensures forall l | 0 <= l < 9 :: cells[i, l].right == if l < 8 then dots[l] else NoDot
    {
      for j := 0 to 8
        invariant forall k, l | 0 <= k < 9 && 0 <= l < 9 && k != i :: cells[k, l] == old(cells[k, l])
        invariant forall l | 0 <= l < 9 :: KeepsRowLinks(cells[i, l], old(cells[i, l]))
        invariant forall l | 0 <= l < 9 :: cells[i, l].left == if 0 < l <= j then dots[l - 1] else NoDot
        invariant forall l | 0 <= l < 9 :: cells[i, l].right == if l < j then dots[l] else NoDot
      {
        LinkSideways(i, j, dots[j]);
      }
    }

    /** Records a present dot `d` as the `right` link of (i, j) and the
        `left` link of (i, j + 1); an absent dot leaves both as they are. */
    method LinkSideways(i: int, j: int, d: Dot)
      requires cells.Length0 == 9 && cells.Length1 == 9 && 0 <= i < 9 && 0 <= j < 8
      requires cells[i, j].right == NoDot && cells[i, j + 1].left == NoDot
      modifies cells
      ensures forall k, l | 0 <= k < 9 && 0 <= l < 9 && k != i :: cells[k, l] == old(cells[k, l])
      ensures forall l | 0 <= l < 9 && l != j && l != j + 1 :: cells[i, l] == old(cells[i, l])
      ensures KeepsRowLinks(cells[i, j], old(cells[i, j])) && cells[i, j].left == old(cells[i, j]).left && cells[i, j].right == d
      ensures KeepsRowLinks(cells[i, j + 1], old(cells[i, j + 1])) && cells[i, j + 1].left == d && cells[i, j + 1].right == old(cells[i, j + 1]).right
    {
      if d != NoDot {
        cells[i, j] := cells[i, j].(right := d);
        cells[i, j + 1] := cells[i, j + 1].(left := d);
      }
    }

    /** Attaches every dot between vertical neighbours to both cells: the
        `down` link of the cell above it and the `up` link of the cell below
        it. Nothing else changes. */
    method WireColumns(vertical: seq<seq<Dot>>)
      requires cells.Length0 == 9 && cells.Length1 == 9
      requires |vertical| == 8 && forall k | 0 <= k < 8 :: |vertical[k]| == 9
      requires forall k, l | 0 <= k < 9 && 0 <= l < 9 :: cells[k, l].up == NoDot
      requires forall k, l | 0 <= k < 9 && 0 <= l < 9 :: cells[k, l].down == NoDot
      modifies cells
      ensures forall k, l | 0 <= k < 9 && 0 <= l < 9 :: KeepsColumnLinks(cells[k, l], old(cells[k, l]))
      ensures forall k, l | 0 <= k < 9 && 0 <= l < 9 :: cells[k, l].up == if k > 0 then vertical[k - 1][l] else NoDot
      ensures forall k, l | 0 <= k < 9 && 0 <= l < 9 :: cells[k, l].down == if k < 8 then vertical[k][l] else NoDot
    {
      for i := 0 to 8
        invariant forall k, l | 0 <= k < 9 && 0 <= l < 9 :: KeepsColumnLinks(cells[k, l], old(cells[k, l]))
        invariant forall k, l | 0 <= k < 9 && 0 <= l < 9 :: cells[k, l].up == if 0 < k <= i then vertical[k - 1][l] else NoDot
        invariant forall k, l | 0 <= k < 9 && 0 <= l < 9 :: cells[k, l].down == if k < i then vertical[k][l] else NoDot
      {
        WireColumnRow(i, vertical[i]);
      }
    }

    /** Attaches the nine dots between rows `i` and `i + 1` to the cells
        above and below them. */
    method WireColumnRow(i: int, dots: seq<Dot>)
      requires cells.Length0 == 9 && cells.Length1 == 9 && 0 <= i < 8 && |dots| == 9
      requires forall k, l | 0 <= k < 9 && 0 <= l < 9 && k == i :: cells[k, l].down == NoDot
      requires forall k, l | 0 <= k < 9 && 0 <= l < 9 && k == i + 1 :: cells[k, l].up == NoDot
      modifies cells
      ensures forall k, l | 0 <= k < 9 && 0 <= l < 9 && k != i && k != i + 1 :: cells[k, l] == old(cells[k, l])
      ensures forall k, l | 0 <= k < 9 && 0 <= l < 9 && (k == i || k == i + 1) :: KeepsColumnLinks(cells[k, l], old(cells[k, l]))
      ensures forall k, l | 0 <= k < 9 && 0 <= l < 9 && k == i :: cells[k, l].down == dots[l]
      ensures forall k, l | 0 <= k < 9 && 0 <= l < 9 && k == i :: cells[k, l].up == old(cells[k, l]).up
      ensures forall k, l | 0 <= k < 9 && 0 <= l < 9 && k == i + 1 :: cells[k, l].up == dots[l]
      ensures forall k, l | 0 <= k < 9 && 0 <= l < 9 && k == i + 1 :: cells[k, l].down == old(cells[k, l]).down
    {
      for j := 0 to 9
        invariant forall k, l | 0 <= k < 9 && 0 <= l < 9 && k != i && k != i + 1 :: cells[k, l] == old(cells[k, l])
        invariant forall k, l | 0 <= k < 9 && 0 <= l < 9 && (k == i || k == i + 1) :: KeepsColumnLinks(cells[k, l], old(cells[k, l]))
        invariant forall k, l | 0 <= k < 9 && 0 <= l < 9 && k == i :: cells[k, l].down == if l < j then dots[l] else NoDot
        invariant forall k, l | 0 <= k < 9 && 0 <= l < 9 && k == i :: cells[k, l].up == old(cells[k, l]).up
        invariant forall k, l | 0 <= k < 9 && 0 <= l < 9 && k == i + 1 :: cells[k, l].up == if l < j then dots[l] else NoDot
        invariant forall k, l | 0 <= k < 9 && 0 <= l < 9 && k == i + 1 :: cells[k, l].down == old(cells[k, l]).down
      {
        LinkUpDown(i, j, dots[j]);
      }
    }

    /** Records a present dot `d` as the `down` link of (i, j) and the `up`
        link of (i + 1, j); an absent dot leaves both as they are. */
    method LinkUpDown(i: int, j: int, d: Dot)
      requires cells.Length0 == 9 && cells.Length1 == 9 && 0 <= i < 8 && 0 <= j < 9
      requires cells[i, j].down == NoDot && cells[i + 1, j].up == NoDot
      modifies cells
      ensures forall k, l | 0 <= k < 9 && 0 <= l < 9 && k != i && k != i + 1 :: cells[k, l] == old(cells[k, l])
      ensures forall k, l | 0 <= k < 9 && 0 <= l < 9 && (k == i || k == i + 1) && l != j :: cells[k, l] == old(cells[k, l])
      ensures KeepsColumnLinks(cells[i, j], old(cells[i, j])) && cells[i, j].up == old(cells[i, j]).up && cells[i, j].down == d
      ensures KeepsColumnLinks(cells[i + 1, j], old(cells[i + 1, j])) && cells[i + 1, j].up == d && cells[i + 1, j].down == old(cells[i + 1, j]).down
    {
      if d != NoDot {
        cells[i, j] := cells[i, j].(down := d);
        cells[i + 1, j] := cells[i + 1, j].(up := d);
      }
    }

    /** Propagates every given in row-major order, skipping the empty cells
        (the last loop of `parse_file`), which gives the closed-form pass
        result. */
    method PropagateGivens(ghost w: Grid)
      requires Valid() && Grid() == w
      modifies cells
      ensures Valid() && Grid() == Passed(w, 81)
    {
      PassedStart(w);
      for i := 0 to 9
        invariant Valid() && Grid() == Passed(w, 9 * i)
      {
        for j := 0 to 9
          invariant Valid() && Grid() == Passed(w, 9 * i + j)
        {
          PropagateGiven(w, i, j);
        }
      }
    }

    /** One step of the pass: propagates the cell at (i, j) when it holds a
        given. */
    method PropagateGiven(ghost w: Grid, i: int, j: int)
      requires ValidGrid(w) && 0 <= i < 9 && 0 <= j < 9
      requires Valid() && Grid() == Passed(w, 9 * i + j)
      modifies cells
      ensures Valid() && Grid() == Passed(w, 9 * i + j + 1)
    {
      ghost var n := 9 * i + j;
      PassStep(w, n);
      assert (n / 9, n % 9) == (i, j);
      if cells[i, j].Assigned() {
        UpdateNeighbors(i, j);
      }
    }

    /** The board as a value. */
    ghost function Grid(): (g: Grid)
      reads cells
      requires cells.Length0 == 9 && cells.Length1 == 9
      ensures IsGrid(g)
      ensures forall k, l | 0 <= k < 9 && 0 <= l < 9 :: g[k][l] == cells[k, l]
    {
      seq(9, k requires 0 <= k < 9 reads cells => RowOf(k))
    }

    ghost function RowOf(k: int): (row: seq<Cell>)
      reads cells
      requires cells.Length0 == 9 && cells.Length1 == 9 && 0 <= k < 9
      ensures |row| == 9 && forall l | 0 <= l < 9 :: row[l] == cells[k, l]
    {
      seq(9, l requires 0 <= l < 9 reads cells => cells[k, l])
    }

    ghost predicate Valid()
      reads cells
    {
      cells.Length0 == 9 && cells.Length1 == 9 && ValidGrid(Grid())
    }

    /** Clears, flag by flag, every value of the cell at `p` that `remain`
        does not list (the inner loop of the dot updates). */
    method RestrictDomain(p: Pos, remain: seq<int>)
      requires Valid() && InGrid(p)
      modifies cells
      ensures Valid()
      ensures cells[p.0, p.1] == old(cells[p.0, p.1]).(domain := Restrict(old(cells[p.0, p.1].domain), remain))
      ensures forall k, l | 0 <= k < 9 && 0 <= l < 9 && (k, l) != p :: cells[k, l] == old(cells[k, l])
    {
      ghost var before := cells[p.0, p.1];
      assert WellFormed(before, p) by { assert At(Grid(), p) == before; }
      for m := 0 to |cells[p.0, p.1].domain|
        invariant forall k, l | 0 <= k < 9 && 0 <= l < 9 && (k, l) != p :: cells[k, l] == old(cells[k, l])
        invariant SameButDomain(cells[p.0, p.1], before) && |cells[p.0, p.1].domain| == 9
        invariant forall x | 0 <= x < 9 ::
          cells[p.0, p.1].domain[x] == (before.domain[x] && (x >= m || (x + 1) in remain))
      {
        if (m + 1) !in remain {
          cells[p.0, p.1] := cells[p.0, p.1].(domain := cells[p.0, p.1].domain[m := false]);
        }
      }
      assert cells[p.0, p.1].domain == Restrict(before.domain, remain);
      assert WellFormed(cells[p.0, p.1], p);
      ValidAfter(old(Grid()));
    }

    /** The board is well formed again when every cell keeps the value and
        links it had in a well-formed board and still holds nine flags. */
    lemma ValidAfter(g: Grid)
      requires cells.Length0 == 9 && cells.Length1 == 9 && ValidGrid(g)
      requires forall k, l | 0 <= k < 9 && 0 <= l < 9 ::
        SameButDomain(cells[k, l], g[k][l]) && |cells[k, l].domain| == 9
      ensures Valid()
    {
    }

    /** Removes `v` from the domain of every unassigned cell of `ps`, in
        order (the row, column and box loops of `update_neighbors`). */
    method ClearValue(ps: seq<Pos>, v: int)
      requires Valid() && 1 <= v <= 9 && forall p | p in ps :: InGrid(p)
      modifies cells
      ensures Valid() && ClearedAll(Grid(), old(Grid()), ps, v)
    {
      ghost var g := Grid();
      assert forall k, l | 0 <= k < 9 && 0 <= l < 9 :: |cells[k, l].domain| == 9 by {
        assert forall k, l | 0 <= k < 9 && 0 <= l < 9 :: WellFormed(g[k][l], (k, l));
      }
      for t := 0 to |ps|
        invariant forall k, l | 0 <= k < 9 && 0 <= l < 9 :: ClearedTo(cells[k, l], g[k][l], (k, l) in ps[..t], v)
      {
        var (k, l) := ps[t];
        assert ps[t] in ps;
        assert ps[..t + 1] == ps[..t] + [ps[t]];
        if !cells[k, l].Assigned() {
          cells[k, l] := cells[k, l].(domain := cells[k, l].domain[v - 1 := false]);
        }
      }
      assert ps[..|ps|] == ps;
      ValidAfter(g);
    }

    /** The cells hold `g` with `v` cleared from the unassigned cells of
        `ps`. */
    lemma ClearedSoFar(g: Grid, ps: seq<Pos>, v: int)
      requires cells.Length0 == 9 && cells.Length1 == 9 && ValidGrid(g)
      requires forall k, l | 0 <= k < 9 && 0 <= l < 9 :: ClearedTo(cells[k, l], g[k][l], (k, l) in ps, v)
      ensures Valid() && ClearedAll(Grid(), g, ps, v)
    {
      forall k, l | 0 <= k < 9 && 0 <= l < 9
        ensures SameButDomain(cells[k, l], g[k][l]) && |cells[k, l].domain| == 9
      {
        assert WellFormed(g[k][l], (k, l));
      }
      ValidAfter(g);
    }

    /** Like `ClearValue`, but stops and answers false as soon as a cell is
        left with no value (the pruning loops of `forward_check`); `n`
        counts the cells of `ps` handled, the last of them the emptied one
        when the answer is false. */
    method ClearValueChecked(ps: seq<Pos>, v: int) returns (ok: bool, ghost n: int)
      requires Valid() && 1 <= v <= 9 && forall p | p in ps :: InGrid(p)
      modifies cells
      ensures Valid() && 0 <= n <= |ps| && ClearedAll(Grid(), old(Grid()), ps[..n], v)
      ensures ok ==> n == |ps| && ClearedAll(Grid(), old(Grid()), ps, v) && NoneEmptied(Grid(), old(Grid()), ps)
      ensures !ok ==> EmptiedFirst(Grid(), old(Grid()), ps, n)
    {
      ghost var g := Grid();
      assert forall k, l | 0 <= k < 9 && 0 <= l < 9 :: |cells[k, l].domain| == 9 by {
        assert forall k, l | 0 <= k < 9 && 0 <= l < 9 :: WellFormed(g[k][l], (k, l));
      }
      n := 0;
      for t := 0 to |ps|
        invariant n == t
        invariant forall k, l | 0 <= k < 9 && 0 <= l < 9 :: ClearedTo(cells[k, l], g[k][l], (k, l) in ps[..t], v)
        invariant forall k, l | 0 <= k < 9 && 0 <= l < 9 && (k, l) in ps[..t] && !g[k][l].Assigned() ::
          cells[k, l].RemainingValueCount() > 0
      {
        n := t + 1;
        var emptied := ClearNext(g, ps, t, v);
        if emptied {
          return false, n;
        }
      }
      assert ps[..|ps|] == ps;
      ClearedSoFar(g, ps, v);
      return true, n;
    }

    /** One step of `ClearValueChecked`: clears `v` from the t-th cell of
        `ps`, keeping the loop's invariant when that cell keeps a value and
        reaching the early return when it does not. */
    method ClearNext(ghost g: Grid, ps: seq<Pos>, t: int, v: int) returns (emptied: bool)
      requires cells.Length0 == 9 && cells.Length1 == 9 && ValidGrid(g) && 1 <= v <= 9
      requires 0 <= t < |ps| && forall p | p in ps :: InGrid(p)
      requires forall k, l | 0 <= k < 9 && 0 <= l < 9 :: ClearedTo(cells[k, l], g[k][l], (k, l) in ps[..t], v)
      requires forall k, l | 0 <= k < 9 && 0 <= l < 9 && (k, l) in ps[..t] && !g[k][l].Assigned() ::
        cells[k, l].RemainingValueCount() > 0
      modifies cells
      ensures !emptied ==> forall k, l | 0 <= k < 9 && 0 <= l < 9 :: ClearedTo(cells[k, l], g[k][l], (k, l) in ps[..t + 1], v)
      ensures !emptied ==> forall k, l | 0 <= k < 9 && 0 <= l < 9 && (k, l) in ps[..t + 1] && !g[k][l].Assigned() ::
        cells[k, l].RemainingValueCount() > 0
      ensures emptied ==> Valid() && ClearedAll(Grid(), g, ps[..t + 1], v) && EmptiedFirst(Grid(), g, ps, t + 1)
    {
      var (k, l) := ps[t];
      assert ps[t] in ps;
      assert ps[..t + 1] == ps[..t] + [ps[t]];
      assert WellFormed(g[k][l], (k, l));
      emptied := ClearOne(k, l, v);
      if emptied {
        StoppedSoFar(g, ps, t, v);
      }
    }

    /** The cells hold `g` with `v` cleared from the first t + 1 cells of
        `ps`, and the last of them is the first unassigned one left without
        a value. */
    lemma StoppedSoFar(g: Grid, ps: seq<Pos>, t: int, v: int)
      requires cells.Length0 == 9 && cells.Length1 == 9 && ValidGrid(g) && 0 <= t < |ps| && InGrid(ps[t])
      requires forall k, l | 0 <= k < 9 && 0 <= l < 9 :: ClearedTo(cells[k, l], g[k][l], (k, l) in ps[..t + 1], v)
      requires forall k, l | 0 <= k < 9 && 0 <= l < 9 && (k, l) in ps[..t] && (k, l) != ps[t] && !g[k][l].Assigned() ::
        cells[k, l].RemainingValueCount() > 0
      requires !At(g, ps[t]).Assigned() && cells[ps[t].0, ps[t].1].RemainingValueCount() == 0
      ensures Valid() && ClearedAll(Grid(), g, ps[..t + 1], v) && EmptiedFirst(Grid(), g, ps, t + 1)
    {
      ClearedSoFar(g, ps[..t + 1], v);
      assert ps[..t + 1][..t] == ps[..t];
    }

    /** Removes `v` from the cell at (k, l) when it is unassigned, and
        tells whether that left it with no value (one step of the pruning
        loops of `forward_check`). */
    method ClearOne(k: int, l: int, v: int) returns (emptied: bool)
      requires cells.Length0 == 9 && cells.Length1 == 9 && 0 <= k < 9 && 0 <= l < 9 && 1 <= v <= 9
      requires |cells[k, l].domain| == 9
      modifies cells
      ensures forall a, b | 0 <= a < 9 && 0 <= b < 9 && (a != k || b != l) :: cells[a, b] == old(cells[a, b])
      ensures ClearedTo(cells[k, l], old(cells[k, l]), true, v)
      ensures emptied <==> !old(cells[k, l]).Assigned() && cells[k, l].RemainingValueCount() == 0
    {
      emptied := false;
      if !cells[k, l].Assigned() {
        cells[k, l] := cells[k, l].(domain := cells[k, l].domain[v - 1 := false]);
        emptied := cells[k, l].RemainingValueCount() == 0;
      }
    }

    /** One dot branch of the propagation of (i, j): when the dot `d`
        towards `n` is present and `n` is unassigned, `n` keeps only the
        values the dot allows next to the value at (i, j); `emptied` tells
        whether `n` is left with none. `g` is the board before the
        propagation and `done` the dot neighbours already handled. */
    method NarrowDotNeighbour(i: int, j: int, n: Pos, d: Dot, ghost g: Grid, ghost done: set<Pos>) returns (emptied: bool)
      requires Valid() && ValidGrid(g) && InGrid((i, j)) && g[i][j].Assigned()
      requires Staged(Grid(), g, i, j, done) && n !in done && d == Link(g[i][j], (i, j), n)
      modifies cells
      ensures Valid() && Staged(Grid(), g, i, j, done + {n})
      ensures emptied <==> !DotKept(g, i, j, n)
    {
      ghost var h0 := Grid();
      StagedAt(h0, g, i, j, done, (i, j));
      var v := cells[i, j].value;
      emptied := false;
      if d != NoDot && !cells[n.0, n.1].Assigned() {
        RestrictDomain(n, DotRemains(d, v));
        emptied := cells[n.0, n.1].RemainingValueCount() == 0;
      }
      StagedStep(h0, Grid(), g, i, j, done, n);
      if InGrid(n) {
        StagedAt(h0, g, i, j, done, n);
        StagedAt(Grid(), g, i, j, done + {n}, n);
      }
    }

    /** Narrows each unassigned dot neighbour of (i, j) by its dot, in the
        order up, down, left, right (the dot updates of
        `update_neighbors`); `g` is the board before the propagation. */
    method NarrowByDots(i: int, j: int, ghost g: Grid)
      requires Valid() && ValidGrid(g) && InGrid((i, j)) && g[i][j].Assigned()
      requires Staged(Grid(), g, i, j, {})
      modifies cells
      ensures Valid() && Grid() == Propagate(g, i, j)
    {
      StagedAt(Grid(), g, i, j, {}, (i, j));
      var c := cells[i, j];
      var up, down, left, right := (i - 1, j), (i + 1, j), (i, j - 1), (i, j + 1);
      NarrowDotPair(i, j, up, c.up, down, c.down, g, {});
      NarrowDotPair(i, j, left, c.left, right, c.right, g, {up, down});
      StagedDone(Grid(), g, i, j, {up, down, left, right});
    }

    /** Narrows the dot neighbours `a` and then `b` of (i, j). */
    method NarrowDotPair(i: int, j: int, a: Pos, da: Dot, b: Pos, db: Dot, ghost g: Grid, ghost done: set<Pos>)
      requires Valid() && ValidGrid(g) && InGrid((i, j)) && g[i][j].Assigned()
      requires Staged(Grid(), g, i, j, done) && a !in done && b !in done && a != b
      requires da == Link(g[i][j], (i, j), a) && db == Link(g[i][j], (i, j), b)
      modifies cells
      ensures Valid() && Staged(Grid(), g, i, j, done + {a, b})
    {
      var _ := NarrowDotNeighbour(i, j, a, da, g, done);
      var _ := NarrowDotNeighbour(i, j, b, db, g, done + {a});
      assert done + {a} + {b} == done + {a, b};
    }

    /** Like `NarrowByDots`, but stops and answers false as soon as a dot
        neighbour is left with no value (the dot updates of
        `forward_check`). */
    method NarrowByDotsChecked(i: int, j: int, ghost g: Grid) returns (ok: bool)
      requires Valid() && ValidGrid(g) && InGrid((i, j)) && g[i][j].Assigned()
      requires Staged(Grid(), g, i, j, {})
      modifies cells
      ensures Valid() && Between(Grid(), g, Propagate(g, i, j))
      ensures ok ==> Grid() == Propagate(g, i, j)
      ensures ok ==> forall e | e in DotNeighbours(g[i][j], i, j) :: DotKept(g, i, j, e.0)
      ensures !ok ==> WipesOut(g, i, j)
    {
      StagedAt(Grid(), g, i, j, {}, (i, j));
      var c := cells[i, j];
      var up, down, left, right := (i - 1, j), (i + 1, j), (i, j - 1), (i, j + 1);
      assert c.up == Link(g[i][j], (i, j), up) && c.down == Link(g[i][j], (i, j), down);
      assert c.left == Link(g[i][j], (i, j), left) && c.right == Link(g[i][j], (i, j), right);
      ghost var done: set<Pos> := {up, down};
      assert {} + {up, down} == done && left !in done && right !in done;
      ok := NarrowDotPairChecked(i, j, up, c.up, down, c.down, g, {});
      if !ok {
        return;
      }
      ok := NarrowDotPairChecked(i, j, left, c.left, right, c.right, g, done);
      if !ok {
        return;
      }
      StagedDone(Grid(), g, i, j, done + {left, right});
      AllDotsKept(g, i, j);
    }

    /** Narrows the dot neighbours `a`, then `b`, stopping as soon as one
        of them is left with no value. */
    method NarrowDotPairChecked(i: int, j: int, a: Pos, da: Dot, b: Pos, db: Dot, ghost g: Grid, ghost done: set<Pos>)
      returns (ok: bool)
      requires Valid() && ValidGrid(g) && InGrid((i, j)) && g[i][j].Assigned()
      requires Staged(Grid(), g, i, j, done) && a !in done && b !in done && a != b
      requires da == Link(g[i][j], (i, j), a) && db == Link(g[i][j], (i, j), b)
      modifies cells
      ensures Valid() && Between(Grid(), g, Propagate(g, i, j))
      ensures ok ==> Staged(Grid(), g, i, j, done + {a, b}) && DotKept(g, i, j, a) && DotKept(g, i, j, b)
      ensures !ok ==> WipesOut(g, i, j)
    {
      var emptied := NarrowDotNeighbour(i, j, a, da, g, done);
      if emptied {
        DotLost(g, i, j, a);
        StagedBetween(Grid(), g, i, j, done + {a});
        return false;
      }
      emptied := NarrowDotNeighbour(i, j, b, db, g, done + {a});
      assert done + {a} + {b} == done + {a, b};
      StagedBetween(Grid(), g, i, j, done + {a, b});
      if emptied {
        DotLost(g, i, j, b);
        return false;
      }
      return true;
    }

    /** The snapshot list of the unassigned cells of `ps`, in order (the
        first three loops of `forward_check`). */
    method SaveDomains(ps: seq<Pos>) returns (original: Record)
      requires Valid() && forall p | p in ps :: InGrid(p)
      ensures original == Snapshots(Grid(), ps)
      ensures Distinct(ps) ==> forall a, b | 0 <= a < b < |original| :: original[a].0 != original[b].0
    {
      original := [];
      for t := 0 to |ps|
        invariant original == Snapshots(Grid(), ps[..t])
      {
        var (k, l) := ps[t];
        assert ps[t] in ps;
        assert ps[..t + 1][..t] == ps[..t];
        if !cells[k, l].Assigned() {
          original := original + [((k, l), cells[k, l].domain)];
        }
      }
      assert ps[..|ps|] == ps;
    }

    /** Saves the domains of the unassigned peers of (i, j), then removes
        the value at (i, j) from every unassigned peer and narrows every
        unassigned dot neighbour by its dot, stopping as soon as a domain
        becomes empty (`forward_check`). */
    method ForwardCheck(i: int, j: int) returns (consistent: bool, original: Record)
      requires Valid() && InGrid((i, j)) && cells[i, j].Assigned()
      modifies cells
      ensures Valid()
      ensures original == Snapshots(old(Grid()), PeerList(i, j))
      ensures forall a, b | 0 <= a < b < |original| :: original[a].0 != original[b].0
      ensures Between(Grid(), old(Grid()), Propagate(old(Grid()), i, j))
      ensures consistent <==> !WipesOut(old(Grid()), i, j)
      ensures consistent ==> Grid() == Propagate(old(Grid()), i, j)
    {
      ghost var g := Grid();
      var peers := PeerList(i, j);
      original := SaveDomains(peers);
      var v := cells[i, j].value;
      ghost var n;
      consistent, n := ClearValueChecked(peers, v);
      if !consistent {
        ClearStopped(Grid(), g, i, j, n);
        return;
      }
      ghost var h1 := Grid();
      StagedStart(h1, g, i, j);
      consistent := NarrowByDotsChecked(i, j, g);
      if consistent {
        NoWipeOut(h1, g, i, j);
      }
    }

    /** Propagates the value just assigned at (i, j) to its unassigned peers
        and dot neighbours, without snapshots and without the wipe-out check
        (`update_neighbors`). */
    method UpdateNeighbors(i: int, j: int)
      requires Valid() && InGrid((i, j)) && cells[i, j].Assigned()
      modifies cells
      ensures Valid()
      ensures Grid() == Propagate(old(Grid()), i, j)
    {
      ghost var g := Grid();
      var peers := PeerList(i, j);
      var v := cells[i, j].value;
      ClearValue(peers, v);
      StagedStart(Grid(), g, i, j);
      NarrowByDots(i, j, g);
    }
  

    /** Writes every saved domain of `original` back into its cell, in list
        order (`remove_inferences`). */
    method RemoveInferences(original: Record)
      requires Valid() && forall e | e in original :: InGrid(e.0) && |e.1| == 9
      modifies cells
      ensures Valid()
      ensures Grid() == Undo(old(Grid()), original)
    {
      ghost var g := Grid();
      for t := 0 to |original|
        invariant forall k, l | 0 <= k < 9 && 0 <= l < 9 ::
          cells[k, l] == Restored(g[k][l], LastEntry(original[..t], (k, l)))
      {
        var ((i, j), dom) := original[t];
        assert original[t] in original;
        LastEntryStep(original, t);
        cells[i, j] := cells[i, j].(domain := dom);
      }
      assert original[..|original|] == original;
      UndoWritten(g, original);
    }

    /** The cells hold `g` with the record written back. */
    lemma UndoWritten(g: Grid, original: Record)
      requires cells.Length0 == 9 && cells.Length1 == 9 && ValidGrid(g)
      requires forall e | e in original :: |e.1| == 9
      requires forall k, l | 0 <= k < 9 && 0 <= l < 9 :: cells[k, l] == Restored(g[k][l], LastEntry(original, (k, l)))
      ensures Valid() && Grid() == Undo(g, original)
    {
      GridEq(Grid(), Undo(g, original));
      ValidAfter(g);
    }

    /** Whether every cell holds a value (`assignment_complete`). */
    method AssignmentComplete() returns (complete: bool)
      requires Valid()
      ensures complete <==> Complete(Grid())
    {
      for i := 0 to 9
        invariant forall k, l | 0 <= k < i && 0 <= l < 9 :: cells[k, l].Assigned()
      {
        for j := 0 to 9
          invariant forall l | 0 <= l < j :: cells[i, l].Assigned()
          invariant forall k, l | 0 <= k < i && 0 <= l < 9 :: cells[k, l].Assigned()
        {
          if !cells[i, j].Assigned() {
            return false;
          }
        }
      }
      return true;
    }

    /** The number of unassigned peers of (i, j), counted along the
        row, column and box loops (`unassigned_neighbors_count`). */
    method UnassignedNeighborsCount(i: int, j: int) returns (cons: int)
      requires Valid() && InGrid((i, j))
      ensures cons == Degree(Grid(), (i, j))
    {
      cons := CountUnassigned(PeerList(i, j));
      DegreeCountsPeers(Grid(), (i, j));
    }

    /** The number of unassigned cells of `ps`, one at a time. */
    method CountUnassigned(ps: seq<Pos>) returns (cons: int)
      requires Valid() && forall p | p in ps :: InGrid(p)
      ensures cons == UnassignedCount(Grid(), ps)
    {
      cons := 0;
      for t := 0 to |ps|
        invariant cons == UnassignedCount(Grid(), ps[..t])
      {
        var (k, l) := ps[t];
        assert ps[t] in ps;
        assert ps[..t + 1][..t] == ps[..t];
        if !cells[k, l].Assigned() {
          cons := cons + 1;
        }
      }
      assert ps[..|ps|] == ps;
    }

    /** The next cell to branch on: among the unassigned cells with the
        fewest remaining values, the first in row-major order of those with
        the most unassigned peers; None when every cell holds a value
        (`select_variable`). */
    method SelectVariable() returns (selected: Option<Pos>)
      requires Valid()
      ensures selected.None? <==> Complete(Grid())
      ensures selected.Some? ==> MrvDegreeChoice(Grid(), selected.value)
    {
      var mrv, currMrv := FewestRemaining();
      MrvEmptyWhenComplete(Grid(), mrv, currMrv);
      assert forall s | 0 <= s < |mrv| :: InGrid(mrv[s]);
      ghost var at;
      selected, at := MostConstrained(mrv);
      if selected.Some? {
        MrvDegreeScan(Grid(), mrv, currMrv, at);
      }
    }

    /** The degree pass of `select_variable`: the first cell of `mrv` with
        the most unassigned peers, a later one replacing it only with
        strictly more; None for an empty list. */
    method MostConstrained(mrv: seq<Pos>) returns (selected: Option<Pos>, ghost at: int)
      requires Valid() && forall s | 0 <= s < |mrv| :: InGrid(mrv[s])
      ensures selected.None? <==> mrv == []
      ensures selected.Some? ==> 0 <= at < |mrv| && selected.value == mrv[at]
      ensures selected.Some? ==> forall s | 0 <= s < |mrv| :: Degree(Grid(), mrv[s]) <= Degree(Grid(), mrv[at])
      ensures selected.Some? ==> forall s | 0 <= s < at :: Degree(Grid(), mrv[s]) < Degree(Grid(), mrv[at])
    {
      ghost var g := Grid();
      selected := None;
      var selectedDegree := 0;
      at := 0;
      for t := 0 to |mrv|
        invariant 0 <= at <= t
        invariant selected.None? <==> t == 0
        invariant t > 0 ==> at < t && selected == Some(mrv[at]) && selectedDegree == Degree(g, mrv[at])
        invariant forall s | 0 <= s < t :: Degree(g, mrv[s]) <= selectedDegree
        invariant forall s | 0 <= s < at :: Degree(g, mrv[s]) < selectedDegree
      {
        var (i, j) := mrv[t];
        var degree := UnassignedNeighborsCount(i, j);
        assert degree == Degree(g, mrv[t]);
        if selected.None? || degree > selectedDegree {
          selected, selectedDegree, at := Some((i, j)), degree, t;
        }
      }
    }

    /** The minimum-remaining-values pass of `select_variable`: the fewest
        remaining values of an unassigned cell (10, standing for infinity,
        when there is none) and the unassigned cells that have that many,
        in row-major order. */
    method FewestRemaining() returns (mrv: seq<Pos>, currMrv: int)
      requires Valid()
      ensures MrvSoFar(Grid(), mrv, currMrv, 81)
    {
      ghost var g := Grid();
      mrv, currMrv := [], 10;
      for i := 0 to 9
        invariant MrvSoFar(g, mrv, currMrv, 9 * i)
      {
        for j := 0 to 9
          invariant MrvSoFar(g, mrv, currMrv, 9 * i + j)
        {
          var cell := cells[i, j];
          assert cell == At(g, (i, j));
          if cell.Assigned() {
            MrvScanStep(g, mrv, currMrv, (i, j), mrv, currMrv);
            continue;
          }
          var remainVal := cell.RemainingValueCount();
          if remainVal > currMrv {
            MrvScanStep(g, mrv, currMrv, (i, j), mrv, currMrv);
            continue;
          } else if remainVal == currMrv {
            MrvScanStep(g, mrv, currMrv, (i, j), mrv + [(i, j)], currMrv);
            mrv := mrv + [(i, j)];
          } else {
            MrvScanStep(g, mrv, currMrv, (i, j), [(i, j)], remainVal);
            currMrv := remainVal;
            mrv := [(i, j)];
          }
        }
      }
    }

    /** Stores `v` as the value of the cell at (i, j) (`var.value = ...`). */
    method SetValue(i: int, j: int, v: int)
      requires Valid() && InGrid((i, j)) && 0 <= v <= 9
      modifies cells
      ensures Valid() && Grid() == Assign(old(Grid()), (i, j), v)
    {
      ghost var g := Grid();
      cells[i, j] := cells[i, j].(value := v);
      GridEq(Grid(), Assign(g, (i, j), v));
      assert WellFormed(g[i][j], (i, j));
    }

    /** Takes back a failed branch: restores the snapshot domains of the
        peers, then clears the value at (i, j), which gives back the board
        as it was before the value was tried. */
    method Retract(i: int, j: int, original: Record, ghost g: Grid, ghost v: int)
      requires Valid() && ValidGrid(g) && InGrid((i, j)) && !g[i][j].Assigned() && 1 <= v <= 9
      requires ValidGrid(Assign(g, (i, j), v)) && Assign(g, (i, j), v)[i][j].Assigned()
      requires Between(Grid(), Assign(g, (i, j), v), Propagate(Assign(g, (i, j), v), i, j))
      requires original == Snapshots(Assign(g, (i, j), v), PeerList(i, j))
      modifies cells
      ensures Valid() && Grid() == g
    {
      ghost var a := Assign(g, (i, j), v);
      UndoRestores(a, Grid(), i, j);
      SnapshotsOfPeers(a, i, j);
      RemoveInferences(original);
      SetValue(i, j, 0);
      AssignUndone(g, (i, j), v);
    }

    /** Depth-first search with forward checking (`backtrack`): picks a
        cell, tries each value its domain still allows in increasing order,
        propagates it, recurses while no domain empties, and undoes the
        propagation and the assignment when the branch fails. A success
        leaves a complete board that extends the starting one; a failure
        leaves the board as it was and means that no solution extends it. */
    method Backtrack() returns (solved: bool)
      requires Valid()
      modifies cells
      decreases Holes(Grid())
      ensures Valid()
      ensures solved ==> Complete(Grid()) && Refines(Grid(), old(Grid()))
      ensures solved && Consistent(old(Grid())) ==> Solution(Grid())
      ensures !solved ==> Grid() == old(Grid())
      ensures !solved ==> forall s: Grid | IsGrid(s) && Solution(s) :: !Refines(s, old(Grid()))
    {
      var complete := AssignmentComplete();
      if complete {
        if Consistent(Grid()) {
          CompleteConsistentSolves(Grid());
        }
        return true;
      }
      var selected := SelectVariable();
      var (i, j) := selected.value;
      ghost var g := Grid();
      var n := |cells[i, j].domain|;
      for val := 1 to n + 1
        invariant Valid() && Grid() == g
        invariant forall s: Grid | IsGrid(s) && Solution(s) && Refines(s, g) :: s[i][j].value >= val
      {
        if !cells[i, j].domain[val - 1] {
          ValueRuledOut(g, i, j, val);
          continue;
        }
        SetValue(i, j, val);
        ghost var a := Grid();
        var consistent, original := ForwardCheck(i, j);
        AssignRefines(g, i, j, val);
        if consistent {
          var result := Backtrack();
          if result {
            RefinesTransitive(Grid(), Propagate(a, i, j), g);
            if Consistent(g) {
              ConsistentAfterAssign(g, i, j, val);
            }
            return true;
          }
        }
        BranchFails(g, i, j, val);
        Retract(i, j, original, g, val);
      }
      return false;
    }
  }
}
