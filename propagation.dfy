/** Forward checking as functions on a board value: what propagating one
    assignment does to the board, the record of the domains it may touch,
    and how replaying that record undoes the propagation. */
module Propagation {
  import opened Constraints
  import opened Cells

  /** The board as a value: nine rows of nine cells. */
  type Grid = seq<seq<Cell>>

  /** A propagation record: positions paired with the domain they held
      before the propagation (the `original` list). */
  type Record = seq<(Pos, seq<bool>)>

  predicate IsGrid(g: Grid) {
    |g| == 9 && forall k | 0 <= k < 9 :: |g[k]| == 9
  }

  function At(g: Grid, p: Pos): Cell
    requires IsGrid(g) && InGrid(p)
  {
    g[p.0][p.1]
  }

  predicate ValidGrid(g: Grid) {
    IsGrid(g) && forall k, l | 0 <= k < 9 && 0 <= l < 9 :: WellFormed(g[k][l], (k, l))
  }

  /** The cell at `q` once the assignment at `a` has been propagated:
      unassigned peers are narrowed, everything else is left alone. */
  function PropagatedCell(g: Grid, a: Pos, q: Pos): (r: Cell)
    requires ValidGrid(g) && InGrid(a) && InGrid(q) && At(g, a).Assigned()
    ensures WellFormed(r, q)
    ensures SameButDomain(r, At(g, q)) && SubDomain(r.domain, At(g, q).domain)
    ensures At(g, q).Assigned() || !IsPeer(a, q) ==> r == At(g, q)
    ensures !At(g, q).Assigned() && IsPeer(a, q) ==> !r.domain[At(g, a).value - 1]
    ensures forall m | 0 <= m < 9 && !At(g, q).Assigned() && r.domain[m] ::
      DotHolds(Link(At(g, a), a, q), At(g, a).value, m + 1)
  {
    var c := At(g, q);
    var s := At(g, a);
    if c.Assigned() || !IsPeer(a, q) then c else Narrow(c, s.value, Link(s, a, q))
  }

  /** The board after the value at (i, j) has been propagated to every
      unassigned row, column, box and dot neighbour (`update_neighbors`, and
      `forward_check` when it finds no wipe-out). */
  function Propagate(g: Grid, i: int, j: int): (r: Grid)
    requires ValidGrid(g) && InGrid((i, j)) && g[i][j].Assigned()
    ensures ValidGrid(r)
    ensures forall k, l | 0 <= k < 9 && 0 <= l < 9 && (g[k][l].Assigned() || !IsPeer((i, j), (k, l))) ::
      r[k][l] == g[k][l]
    ensures forall k, l | 0 <= k < 9 && 0 <= l < 9 && !g[k][l].Assigned() && IsPeer((i, j), (k, l)) ::
      !r[k][l].domain[g[i][j].value - 1]
  {
    var r := seq(9, k requires 0 <= k < 9 => PropagatedRow(g, i, j, k));
    PropagatedRows(g, i, j, r);
    r
  }

  lemma PropagatedRows(g: Grid, i: int, j: int, r: Grid)
    requires ValidGrid(g) && InGrid((i, j)) && g[i][j].Assigned()
    requires |r| == 9 && forall k | 0 <= k < 9 :: r[k] == PropagatedRow(g, i, j, k)
    ensures ValidGrid(r)
    ensures forall k, l | 0 <= k < 9 && 0 <= l < 9 :: r[k][l] == PropagatedCell(g, (i, j), (k, l))
  {
  }

  /** Each cell of the propagated board is the propagated cell. */
  lemma PropagateCells(g: Grid, i: int, j: int)
    requires ValidGrid(g) && InGrid((i, j)) && g[i][j].Assigned()
    ensures forall k, l | 0 <= k < 9 && 0 <= l < 9 :: Propagate(g, i, j)[k][l] == PropagatedCell(g, (i, j), (k, l))
  {
    PropagatedRows(g, i, j, Propagate(g, i, j));
  }

  function PropagatedRow(g: Grid, i: int, j: int, k: int): (row: seq<Cell>)
    requires ValidGrid(g) && InGrid((i, j)) && g[i][j].Assigned() && 0 <= k < 9
    ensures |row| == 9 && forall l | 0 <= l < 9 :: row[l] == PropagatedCell(g, (i, j), (k, l))
  {
    seq(9, l requires 0 <= l < 9 => PropagatedCell(g, (i, j), (k, l)))
  }

  /** Propagation keeps every value and link, only ever clears flags, and
      leaves each dot neighbour of (i, j) only values its dot allows. */
  lemma PropagateNarrows(g: Grid, i: int, j: int)
    requires ValidGrid(g) && InGrid((i, j)) && g[i][j].Assigned()
    ensures forall k, l | 0 <= k < 9 && 0 <= l < 9 ::
      SameButDomain(Propagate(g, i, j)[k][l], g[k][l]) && SubDomain(Propagate(g, i, j)[k][l].domain, g[k][l].domain)
    ensures forall k, l, m | 0 <= k < 9 && 0 <= l < 9 && 0 <= m < 9 && !g[k][l].Assigned() && Propagate(g, i, j)[k][l].domain[m] ::
      DotHolds(Link(g[i][j], (i, j), (k, l)), g[i][j].value, m + 1)
  {
    var r := Propagate(g, i, j);
    forall k, l | 0 <= k < 9 && 0 <= l < 9
      ensures SameButDomain(r[k][l], g[k][l]) && SubDomain(r[k][l].domain, g[k][l].domain)
      ensures forall m | 0 <= m < 9 && !g[k][l].Assigned() && r[k][l].domain[m] ::
        DotHolds(Link(g[i][j], (i, j), (k, l)), g[i][j].value, m + 1)
    {
      assert r[k][l] == PropagatedCell(g, (i, j), (k, l));
    }
  }

  /** The dot neighbours of the cell `c` at (i, j), each with the dot they
      share, in the order the propagation visits them: up, down, left,
      right. */
  function DotNeighbours(c: Cell, i: int, j: int): (r: seq<(Pos, Dot)>)
    ensures |r| == 4
    ensures forall t | 0 <= t < 4 :: r[t].1 == Link(c, (i, j), r[t].0)
    ensures forall q :: Link(c, (i, j), q) != NoDot ==> (q, Link(c, (i, j), q)) in r
  {
    [((i - 1, j), c.up), ((i + 1, j), c.down), ((i, j - 1), c.left), ((i, j + 1), c.right)]
  }

  /** `h` is `g` part way through the propagation of (i, j): every peer has
      lost the value, and of the dot neighbours only those in `done` have
      also been narrowed by their dot. */
  predicate Staged(h: Grid, g: Grid, i: int, j: int, done: set<Pos>)
    requires ValidGrid(g) && InGrid((i, j)) && g[i][j].Assigned() && IsGrid(h)
  {
    forall k, l | 0 <= k < 9 && 0 <= l < 9 ::
      h[k][l] ==
        if !g[k][l].Assigned() && IsPeer((i, j), (k, l)) && Link(g[i][j], (i, j), (k, l)) != NoDot && (k, l) !in done
        then Narrow(g[k][l], g[i][j].value, NoDot)
        else PropagatedCell(g, (i, j), (k, l))
  }

  /** Once every peer has lost the value, the propagation has reached its
      first stage. */
  lemma StagedStart(h: Grid, g: Grid, i: int, j: int)
    requires ValidGrid(g) && InGrid((i, j)) && g[i][j].Assigned() && IsGrid(h)
    requires Cleared(h, g, i, j)
    ensures Staged(h, g, i, j, {})
  {
  }

  /** `h` is `g` once `v` has been removed from every unassigned cell of
      `ps`. */
  predicate ClearedAll(h: Grid, g: Grid, ps: seq<Pos>, v: int)
    requires IsGrid(h) && IsGrid(g)
  {
    forall k, l | 0 <= k < 9 && 0 <= l < 9 :: ClearedTo(h[k][l], g[k][l], (k, l) in ps, v)
  }

  /** Every unassigned peer of (i, j), in the visiting order of the
      propagation loops, has lost the value at (i, j); nothing else has
      changed. */
  predicate Cleared(h: Grid, g: Grid, i: int, j: int)
    requires ValidGrid(g) && InGrid((i, j)) && g[i][j].Assigned() && IsGrid(h)
  {
    ClearedAll(h, g, PeerList(i, j), g[i][j].value)
  }

  /** No unassigned cell of `ps` is left without a value. */
  predicate NoneEmptied(h: Grid, g: Grid, ps: seq<Pos>)
    requires IsGrid(h) && IsGrid(g)
  {
    forall k, l | 0 <= k < 9 && 0 <= l < 9 && (k, l) in ps && !g[k][l].Assigned() :: Count(h[k][l].domain) > 0
  }

  /** The `n`-th cell of `ps` is unassigned in `g` and has no value left in
      `h`, and it is the first such cell: every other unassigned cell
      before it still has a value. */
  predicate EmptiedFirst(h: Grid, g: Grid, ps: seq<Pos>, n: int)
    requires IsGrid(h) && IsGrid(g)
  {
    0 < n <= |ps| && InGrid(ps[n - 1]) && !At(g, ps[n - 1]).Assigned() && Count(At(h, ps[n - 1]).domain) == 0 &&
    forall k, l | 0 <= k < 9 && 0 <= l < 9 && (k, l) in ps[..n - 1] && (k, l) != ps[n - 1] && !g[k][l].Assigned() ::
      Count(h[k][l].domain) > 0
  }

  /** Narrowing one more dot neighbour `n` by its dot (or skipping it when
      there is no dot or it is assigned) advances the propagation. */
  lemma StagedStep(h0: Grid, h1: Grid, g: Grid, i: int, j: int, done: set<Pos>, n: Pos)
    requires ValidGrid(g) && InGrid((i, j)) && g[i][j].Assigned() && IsGrid(h0) && IsGrid(h1)
    requires Staged(h0, g, i, j, done) && n !in done
    requires forall k, l | 0 <= k < 9 && 0 <= l < 9 && (k, l) != n :: h1[k][l] == h0[k][l]
    requires var d := Link(g[i][j], (i, j), n);
      InGrid(n) ==>
        At(h1, n) ==
          if d != NoDot && !At(h0, n).Assigned()
          then At(h0, n).(domain := Restrict(At(h0, n).domain, DotRemains(d, g[i][j].value)))
          else At(h0, n)
    ensures Staged(h1, g, i, j, done + {n})
  {
    var d := Link(g[i][j], (i, j), n);
    var v := g[i][j].value;
    forall k, l | 0 <= k < 9 && 0 <= l < 9
      ensures h1[k][l] ==
        if !g[k][l].Assigned() && IsPeer((i, j), (k, l)) && Link(g[i][j], (i, j), (k, l)) != NoDot && (k, l) !in done + {n}
        then Narrow(g[k][l], v, NoDot)
        else PropagatedCell(g, (i, j), (k, l))
    {
      if (k, l) == n && d != NoDot {
        assert IsPeer((i, j), n);
        var c := g[k][l];
        if !c.Assigned() {
          assert h0[k][l] == Narrow(c, v, NoDot);
          assert h1[k][l] == Narrow(c, v, d);
        }
      }
    }
  }

  /** After the last dot neighbour, the board is the full propagation. */
  lemma StagedDone(h: Grid, g: Grid, i: int, j: int, done: set<Pos>)
    requires ValidGrid(g) && InGrid((i, j)) && g[i][j].Assigned() && IsGrid(h)
    requires Staged(h, g, i, j, done)
    requires (i - 1, j) in done && (i + 1, j) in done && (i, j - 1) in done && (i, j + 1) in done
    ensures h == Propagate(g, i, j)
  {
    var r := Propagate(g, i, j);
    forall k, l | 0 <= k < 9 && 0 <= l < 9
      ensures h[k][l] == r[k][l]
    {
      StagedDoneAt(h, g, i, j, done, k, l);
      assert r[k][l] == PropagatedCell(g, (i, j), (k, l));
    }
    GridEq(h, r);
  }

  lemma StagedDoneAt(h: Grid, g: Grid, i: int, j: int, done: set<Pos>, k: int, l: int)
    requires ValidGrid(g) && InGrid((i, j)) && g[i][j].Assigned() && IsGrid(h) && 0 <= k < 9 && 0 <= l < 9
    requires Staged(h, g, i, j, done)
    requires (i - 1, j) in done && (i + 1, j) in done && (i, j - 1) in done && (i, j + 1) in done
    ensures h[k][l] == PropagatedCell(g, (i, j), (k, l))
  {
    var d := Link(g[i][j], (i, j), (k, l));
    if d != NoDot {
      assert (k, l) == (i - 1, j) || (k, l) == (i + 1, j) || (k, l) == (i, j - 1) || (k, l) == (i, j + 1);
      assert (k, l) in done;
    }
    assert !(!g[k][l].Assigned() && IsPeer((i, j), (k, l)) && d != NoDot && (k, l) !in done);
  }

  /** Propagating (i, j) empties the domain of some unassigned peer. */
  predicate WipesOut(g: Grid, i: int, j: int)
    requires ValidGrid(g) && InGrid((i, j)) && g[i][j].Assigned()
  {
    exists k, l | 0 <= k < 9 && 0 <= l < 9 && IsPeer((i, j), (k, l)) && !g[k][l].Assigned() ::
      Count(Propagate(g, i, j)[k][l].domain) == 0
  }

  /** The board holds between `hi` and `lo`: the same values and links,
      and every domain between the two. */
  predicate Between(h: Grid, hi: Grid, lo: Grid)
    requires IsGrid(h) && IsGrid(hi) && IsGrid(lo)
  {
    forall k, l | 0 <= k < 9 && 0 <= l < 9 ::
      SameButDomain(h[k][l], hi[k][l]) &&
      SubDomain(lo[k][l].domain, h[k][l].domain) && SubDomain(h[k][l].domain, hi[k][l].domain)
  }

  /** The value pass stopped at the `n`-th peer of (i, j), which it left
      with no value: the board lies between the boards before and after
      the whole propagation, and the propagation wipes a peer out. */
  lemma ClearStopped(h: Grid, g: Grid, i: int, j: int, n: int)
    requires ValidGrid(g) && InGrid((i, j)) && g[i][j].Assigned() && IsGrid(h)
    requires 0 < n <= |PeerList(i, j)| && ClearedAll(h, g, PeerList(i, j)[..n], g[i][j].value)
    requires InGrid(PeerList(i, j)[n - 1])
    requires !At(g, PeerList(i, j)[n - 1]).Assigned() && Count(At(h, PeerList(i, j)[n - 1]).domain) == 0
    ensures Between(h, g, Propagate(g, i, j)) && WipesOut(g, i, j)
  {
    var ps := PeerList(i, j);
    var p := ps[n - 1];
    assert p in ps[..n] && p in ps;
    assert ClearedTo(At(h, p), At(g, p), true, g[i][j].value);
    ClearWipesOut(g, i, j, p);
    ClearedPrefixBetween(h, g, i, j, n);
  }

  lemma ClearedPrefixBetween(h: Grid, g: Grid, i: int, j: int, n: int)
    requires ValidGrid(g) && InGrid((i, j)) && g[i][j].Assigned() && IsGrid(h)
    requires 0 <= n <= |PeerList(i, j)| && ClearedAll(h, g, PeerList(i, j)[..n], g[i][j].value)
    ensures Between(h, g, Propagate(g, i, j))
  {
    var ps := PeerList(i, j);
    forall k, l | 0 <= k < 9 && 0 <= l < 9
      ensures SameButDomain(h[k][l], g[k][l])
      ensures SubDomain(Propagate(g, i, j)[k][l].domain, h[k][l].domain) && SubDomain(h[k][l].domain, g[k][l].domain)
    {
      var touched := (k, l) in ps[..n];
      assert ClearedTo(h[k][l], g[k][l], touched, g[i][j].value);
      assert touched ==> (k, l) in ps;
      PeerListMember(i, j, (k, l));
      ClearedToBetween(h, g, i, j, k, l, touched);
    }
  }

  lemma ClearedToBetween(h: Grid, g: Grid, i: int, j: int, k: int, l: int, touched: bool)
    requires ValidGrid(g) && InGrid((i, j)) && g[i][j].Assigned() && IsGrid(h) && 0 <= k < 9 && 0 <= l < 9
    requires ClearedTo(h[k][l], g[k][l], touched, g[i][j].value) && (touched ==> IsPeer((i, j), (k, l)))
    ensures SameButDomain(h[k][l], g[k][l])
    ensures SubDomain(Propagate(g, i, j)[k][l].domain, h[k][l].domain) && SubDomain(h[k][l].domain, g[k][l].domain)
  {
    ClearedCellBetween(h, g, i, j, k, l);
  }

  lemma ClearedCellBetween(h: Grid, g: Grid, i: int, j: int, k: int, l: int)
    requires ValidGrid(g) && InGrid((i, j)) && g[i][j].Assigned() && IsGrid(h) && 0 <= k < 9 && 0 <= l < 9
    requires h[k][l] == g[k][l] ||
      (IsPeer((i, j), (k, l)) && !g[k][l].Assigned() && h[k][l] == Narrow(g[k][l], g[i][j].value, NoDot))
    ensures SameButDomain(h[k][l], g[k][l])
    ensures SubDomain(Propagate(g, i, j)[k][l].domain, h[k][l].domain) && SubDomain(h[k][l].domain, g[k][l].domain)
  {
    assert Propagate(g, i, j)[k][l] == PropagatedCell(g, (i, j), (k, l));
  }

  /** Every stage of the propagation lies between the board before and the
      board after it. */
  lemma StagedBetween(h: Grid, g: Grid, i: int, j: int, done: set<Pos>)
    requires ValidGrid(g) && InGrid((i, j)) && g[i][j].Assigned() && IsGrid(h)
    requires Staged(h, g, i, j, done)
    ensures Between(h, g, Propagate(g, i, j))
  {
    forall k, l | 0 <= k < 9 && 0 <= l < 9
      ensures SameButDomain(h[k][l], g[k][l])
      ensures SubDomain(Propagate(g, i, j)[k][l].domain, h[k][l].domain) && SubDomain(h[k][l].domain, g[k][l].domain)
    {
      if h[k][l] != Narrow(g[k][l], g[i][j].value, NoDot) || !IsPeer((i, j), (k, l)) || g[k][l].Assigned() {
        assert h[k][l] == Propagate(g, i, j)[k][l];
        PropagateNarrows(g, i, j);
      } else {
        ClearedCellBetween(h, g, i, j, k, l);
      }
    }
  }

  /** A peer whose domain is empty once the value is removed is also empty
      after the whole propagation. */
  lemma ClearWipesOut(g: Grid, i: int, j: int, p: Pos)
    requires ValidGrid(g) && InGrid((i, j)) && g[i][j].Assigned() && InGrid(p)
    requires p in PeerList(i, j) && !At(g, p).Assigned()
    requires Count(Narrow(At(g, p), g[i][j].value, NoDot).domain) == 0
    ensures WipesOut(g, i, j)
  {
    PeerEmptied(g, i, j, p.0, p.1);
  }

  lemma PeerEmptied(g: Grid, i: int, j: int, k: int, l: int)
    requires ValidGrid(g) && InGrid((i, j)) && g[i][j].Assigned() && 0 <= k < 9 && 0 <= l < 9
    requires IsPeer((i, j), (k, l)) && !g[k][l].Assigned()
    requires Count(Narrow(g[k][l], g[i][j].value, NoDot).domain) == 0
    ensures Count(Propagate(g, i, j)[k][l].domain) == 0
  {
    EmptyBelow(Propagate(g, i, j)[k][l].domain, Narrow(g[k][l], g[i][j].value, NoDot).domain) by {
      assert Propagate(g, i, j)[k][l] == PropagatedCell(g, (i, j), (k, l));
    }
  }

  lemma EmptyBelow(small: seq<bool>, big: seq<bool>)
    requires |small| == |big| && forall m | 0 <= m < |small| :: small[m] ==> big[m]
    requires Count(big) == 0
    ensures Count(small) == 0
  {
  }

  /** The dot neighbour `n` of (i, j), when it is one and is unassigned,
      keeps a value after the whole propagation. */
  predicate DotKept(g: Grid, i: int, j: int, n: Pos)
    requires ValidGrid(g) && InGrid((i, j)) && g[i][j].Assigned()
  {
    InGrid(n) && Link(g[i][j], (i, j), n) != NoDot && !At(g, n).Assigned() ==>
      Count(At(Propagate(g, i, j), n).domain) > 0
  }

  /** The four dot neighbours, checked one at a time, cover every entry
      of `DotNeighbours`. */
  lemma AllDotsKept(g: Grid, i: int, j: int)
    requires ValidGrid(g) && InGrid((i, j)) && g[i][j].Assigned()
    requires DotKept(g, i, j, (i - 1, j)) && DotKept(g, i, j, (i + 1, j))
    requires DotKept(g, i, j, (i, j - 1)) && DotKept(g, i, j, (i, j + 1))
    ensures forall e | e in DotNeighbours(g[i][j], i, j) :: DotKept(g, i, j, e.0)
  {
  }

  /** A dot neighbour that does not keep a value is a wiped-out peer. */
  lemma DotLost(g: Grid, i: int, j: int, n: Pos)
    requires ValidGrid(g) && InGrid((i, j)) && g[i][j].Assigned()
    requires !DotKept(g, i, j, n)
    ensures WipesOut(g, i, j)
  {
    assert IsPeer((i, j), n);
  }

  /** What a stage of the propagation says about one cell: it has the
      value and links it had before, and once narrowed by its dot it is as
      the whole propagation leaves it. */
  lemma StagedAt(h: Grid, g: Grid, i: int, j: int, done: set<Pos>, n: Pos)
    requires ValidGrid(g) && InGrid((i, j)) && g[i][j].Assigned() && IsGrid(h) && InGrid(n)
    requires Staged(h, g, i, j, done)
    ensures SameButDomain(At(h, n), At(g, n))
    ensures n in done ==> At(h, n) == At(Propagate(g, i, j), n)
  {
    var (k, l) := n;
    assert Propagate(g, i, j)[k][l] == PropagatedCell(g, (i, j), (k, l));
  }

  /** When every peer kept a value after losing the value at (i, j), and
      every dot neighbour kept one after its dot, no peer is wiped out. */
  lemma NoWipeOut(h: Grid, g: Grid, i: int, j: int)
    requires ValidGrid(g) && InGrid((i, j)) && g[i][j].Assigned() && IsGrid(h)
    requires Cleared(h, g, i, j) && NoneEmptied(h, g, PeerList(i, j))
    requires forall e | e in DotNeighbours(g[i][j], i, j) :: DotKept(g, i, j, e.0)
    ensures !WipesOut(g, i, j)
  {
    var peers := PeerList(i, j);
    forall k, l | 0 <= k < 9 && 0 <= l < 9 && IsPeer((i, j), (k, l)) && !g[k][l].Assigned()
      ensures Count(Propagate(g, i, j)[k][l].domain) > 0
    {
      PeerListMember(i, j, (k, l));
      assert ClearedTo(h[k][l], g[k][l], true, g[i][j].value) && Count(h[k][l].domain) > 0;
      assert h[k][l] == Narrow(g[k][l], g[i][j].value, NoDot);
      var d := Link(g[i][j], (i, j), (k, l));
      if d != NoDot {
        assert ((k, l), d) in DotNeighbours(g[i][j], i, j);
        assert DotKept(g, i, j, (k, l));
      }
      PeerKept(g, i, j, k, l);
    }
  }

  lemma PeerKept(g: Grid, i: int, j: int, k: int, l: int)
    requires ValidGrid(g) && InGrid((i, j)) && g[i][j].Assigned() && 0 <= k < 9 && 0 <= l < 9
    requires IsPeer((i, j), (k, l)) && !g[k][l].Assigned()
    requires Link(g[i][j], (i, j), (k, l)) == NoDot ==> Count(Narrow(g[k][l], g[i][j].value, NoDot).domain) > 0
    requires Link(g[i][j], (i, j), (k, l)) != NoDot ==> DotKept(g, i, j, (k, l))
    ensures Count(Propagate(g, i, j)[k][l].domain) > 0
  {
    assert Propagate(g, i, j)[k][l] == PropagatedCell(g, (i, j), (k, l));
  }

  /** The snapshot list built before any pruning: one entry per unassigned
      position of `ps`, in order, with its current domain; a list without
      repeats saves each position at most once. */
  function Snapshots(g: Grid, ps: seq<Pos>): (rec: Record)
    requires IsGrid(g) && forall p | p in ps :: InGrid(p)
    ensures forall e | e in rec :: e.0 in ps && !At(g, e.0).Assigned() && e.1 == At(g, e.0).domain
    ensures Distinct(ps) ==> forall a, b | 0 <= a < b < |rec| :: rec[a].0 != rec[b].0
  {
    if ps == [] then []
    else
      var front, p := ps[..|ps| - 1], ps[|ps| - 1];
      assert p in ps;
      assert forall q | q in front :: q in ps;
      var rest := Snapshots(g, front);
      assert Distinct(ps) ==> p !in front && Distinct(front) by {
        if Distinct(ps) {
          forall t | 0 <= t < |front|
            ensures front[t] != p
          {
            assert front[t] == ps[t];
          }
        }
      }
      assert forall t | 0 <= t < |rest| :: rest[t] in rest && rest[t].0 in front;
      rest + (if At(g, p).Assigned() then [] else [(p, At(g, p).domain)])
  }

  /** The domain the record restores at `p`: its last entry for `p`, since
      replaying the record in order lets the last write win. */
  function LastEntry(rec: Record, p: Pos): (r: Option<seq<bool>>)
    ensures r.None? <==> forall e | e in rec :: e.0 != p
    ensures r.Some? ==> (p, r.value) in rec
  {
    if rec == [] then None
    else if rec[|rec| - 1].0 == p then Some(rec[|rec| - 1].1)
    else
      assert rec == rec[..|rec| - 1] + [rec[|rec| - 1]];
      LastEntry(rec[..|rec| - 1], p)
  }

  /** Writing one more entry back: it wins at its own position. */
  lemma LastEntryStep(rec: Record, t: int)
    requires 0 <= t < |rec|
    ensures forall p :: LastEntry(rec[..t + 1], p) == if rec[t].0 == p then Some(rec[t].1) else LastEntry(rec[..t], p)
  {
    var front := rec[..t + 1];
    assert front[..t] == rec[..t] && front[t] == rec[t];
    forall p
      ensures LastEntry(front, p) == if rec[t].0 == p then Some(rec[t].1) else LastEntry(rec[..t], p)
    {
    }
  }

  /** The board after every entry of `rec` has been written back
      (`remove_inferences`). */
  function Undo(g: Grid, rec: Record): (r: Grid)
    requires IsGrid(g)
    ensures IsGrid(r)
  {
    seq(9, k requires 0 <= k < 9 => seq(9, l requires 0 <= l < 9 => Restored(g[k][l], LastEntry(rec, (k, l)))))
  }

  function Restored(c: Cell, saved: Option<seq<bool>>): Cell {
    match saved
    case None => c
    case Some(d) => c.(domain := d)
  }

  /** Every snapshot of the peers of (i, j) names a board position and
      holds nine flags. */
  lemma SnapshotsOfPeers(g: Grid, i: int, j: int)
    requires ValidGrid(g) && InGrid((i, j))
    ensures forall e | e in Snapshots(g, PeerList(i, j)) :: InGrid(e.0) && |e.1| == 9
  {
    var ps := PeerList(i, j);
    forall e | e in Snapshots(g, ps)
      ensures InGrid(e.0) && |e.1| == 9
    {
      assert e.0 in ps;
    }
  }

  /** Each position occurs in the snapshot list at most once, so the entry
      found for `p` is the domain `p` held before the propagation. */
  lemma {:induction false} SnapshotsLookup(g: Grid, ps: seq<Pos>, p: Pos)
    requires IsGrid(g) && (forall q | q in ps :: InGrid(q)) && InGrid(p)
    ensures LastEntry(Snapshots(g, ps), p) ==
      if p in ps && !At(g, p).Assigned() then Some(At(g, p).domain) else None
  {
    if ps != [] {
      var front, x := ps[..|ps| - 1], ps[|ps| - 1];
      assert ps == front + [x];
      assert x in ps;
      SnapshotsLookup(g, front, p);
      var rest := Snapshots(g, front);
      if At(g, x).Assigned() {
        assert Snapshots(g, ps) == rest;
      } else {
        var whole := rest + [(x, At(g, x).domain)];
        assert Snapshots(g, ps) == whole;
        assert whole[..|whole| - 1] == rest;
      }
    }
  }

  /** Undo after propagation: whatever part of the pruning of (i, j) has
      been applied, replaying the snapshots of its peers gives back the
      board as it was before. */
  lemma UndoRestores(g: Grid, h: Grid, i: int, j: int)
    requires ValidGrid(g) && InGrid((i, j)) && g[i][j].Assigned() && IsGrid(h)
    requires Between(h, g, Propagate(g, i, j))
    ensures Undo(h, Snapshots(g, PeerList(i, j))) == g
  {
    var ps := PeerList(i, j);
    var lo := Propagate(g, i, j);
    forall k, l | 0 <= k < 9 && 0 <= l < 9 && ((k, l) !in ps || g[k][l].Assigned())
      ensures lo[k][l] == g[k][l]
    {
      PeerListMember(i, j, (k, l));
    }
    UndoRestoresAll(g, h, ps, lo);
  }

  /** A board pruned no further than `lo`, where only unassigned cells of
      `ps` were pruned at all, gets its old state back from the snapshots
      of `ps`. */
  lemma UndoRestoresAll(g: Grid, h: Grid, ps: seq<Pos>, lo: Grid)
    requires IsGrid(g) && IsGrid(h) && IsGrid(lo) && forall q | q in ps :: InGrid(q)
    requires Between(h, g, lo)
    requires forall k, l | 0 <= k < 9 && 0 <= l < 9 && ((k, l) !in ps || g[k][l].Assigned()) :: lo[k][l] == g[k][l]
    ensures Undo(h, Snapshots(g, ps)) == g
  {
    var r := Undo(h, Snapshots(g, ps));
    forall k, l | 0 <= k < 9 && 0 <= l < 9
      ensures r[k][l] == g[k][l]
    {
      UndoRestoresCell(g, h, ps, lo[k][l], k, l);
    }
    GridEq(r, g);
  }

  /** The cell (k, l), pruned no further than `lo`, which differs from its
      old state only if it is an unassigned cell of `ps`, gets its old
      state back from the snapshots of `ps`. */
  lemma UndoRestoresCell(g: Grid, h: Grid, ps: seq<Pos>, lo: Cell, k: int, l: int)
    requires IsGrid(g) && IsGrid(h) && (forall q | q in ps :: InGrid(q)) && 0 <= k < 9 && 0 <= l < 9
    requires SameButDomain(h[k][l], g[k][l])
    requires SubDomain(lo.domain, h[k][l].domain) && SubDomain(h[k][l].domain, g[k][l].domain)
    requires (k, l) !in ps || g[k][l].Assigned() ==> lo == g[k][l]
    ensures Undo(h, Snapshots(g, ps))[k][l] == g[k][l]
  {
    SnapshotsLookup(g, ps, (k, l));
    CellRestored(g[k][l], h[k][l], lo, LastEntry(Snapshots(g, ps), (k, l)), (k, l) in ps);
  }

  /** Two boards that agree cell by cell are equal. */
  lemma GridEq(a: Grid, b: Grid)
    requires IsGrid(a) && IsGrid(b)
    requires forall k, l | 0 <= k < 9 && 0 <= l < 9 :: a[k][l] == b[k][l]
    ensures a == b
  {
    forall k | 0 <= k < 9
      ensures a[k] == b[k]
    {
      assert forall l | 0 <= l < 9 :: a[k][l] == b[k][l];
    }
  }

  lemma CellRestored(c: Cell, now: Cell, lo: Cell, saved: Option<seq<bool>>, touched: bool)
    requires SameButDomain(now, c) && SubDomain(lo.domain, now.domain) && SubDomain(now.domain, c.domain)
    requires saved == if touched && !c.Assigned() then Some(c.domain) else None
    requires saved.None? ==> lo == c
    ensures Restored(now, saved) == c
  {
    if saved.None? {
      assert now.domain == c.domain;
    }
  }
}
