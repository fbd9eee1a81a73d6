/** The backtracking search as properties of board values: when a board is
    complete, how many unassigned peers a cell has, which cell the
    selection heuristics pick, what it means for a board to refine another
    and to be a solution, and why assigning a value and propagating it
    keeps the board consistent and loses no solution. */
module Search {
  import opened Constraints
  import opened Cells
  import opened Propagation

  /** Every cell holds a value. */
  predicate Complete(g: Grid)
    requires IsGrid(g)
  {
    forall k, l | 0 <= k < 9 && 0 <= l < 9 :: g[k][l].Assigned()
  }

  /** The positions still to be assigned. */
  function Holes(g: Grid): (r: set<Pos>)
    requires IsGrid(g)
    ensures forall p :: p in r <==> InGrid(p) && !At(g, p).Assigned()
    ensures r == {} <==> Complete(g)
  {
    var r := set k, l | 0 <= k < 9 && 0 <= l < 9 && !g[k][l].Assigned() :: (k, l);
    assert forall k, l | 0 <= k < 9 && 0 <= l < 9 && !g[k][l].Assigned() :: (k, l) in r;
    r
  }

  /** The position of a cell in the row-major order of the selection
      loops. */
  function RowMajor(p: Pos): int {
    9 * p.0 + p.1
  }

  /** The number of unassigned cells of `ps`. */
  function UnassignedCount(g: Grid, ps: seq<Pos>): (n: nat)
    requires IsGrid(g) && forall p | p in ps :: InGrid(p)
    ensures n <= |ps|
  {
    if ps == [] then 0
    else
      var p := ps[|ps| - 1];
      assert p in ps;
      UnassignedCount(g, ps[..|ps| - 1]) + (if At(g, p).Assigned() then 0 else 1)
  }

  /** The degree of `p`: how many of its peers are unassigned. */
  function Degree(g: Grid, p: Pos): nat
    requires IsGrid(g)
  {
    |UnassignedPeers(g, p)|
  }

  /** Counting along a list without repeats counts a set. */
  lemma {:induction false} UnassignedCountIsSize(g: Grid, ps: seq<Pos>)
    requires IsGrid(g) && (forall p | p in ps :: InGrid(p)) && Distinct(ps)
    ensures UnassignedCount(g, ps) == |set p | p in ps && !At(g, p).Assigned()|
  {
    if ps != [] {
      var front, x := ps[..|ps| - 1], ps[|ps| - 1];
      assert ps == front + [x];
      assert x in ps;
      assert forall p | p in front :: p in ps;
      UnassignedCountIsSize(g, front);
      var before := set p | p in front && !At(g, p).Assigned();
      var after := set p | p in ps && !At(g, p).Assigned();
      assert x !in front by {
        forall s | 0 <= s < |front|
          ensures front[s] != x
        {
          assert front[s] == ps[s];
        }
      }
      if At(g, x).Assigned() {
        assert after == before;
      } else {
        assert after == before + {x};
      }
    }
  }

  /** The unassigned peers of `p`. */
  function UnassignedPeers(g: Grid, p: Pos): set<Pos>
    requires IsGrid(g)
  {
    set k, l | 0 <= k < 9 && 0 <= l < 9 && IsPeer(p, (k, l)) && !g[k][l].Assigned() :: (k, l)
  }

  /** Counting the unassigned cells along the peer visiting order
      (`unassigned_neighbors_count`) gives the degree. */
  lemma DegreeCountsPeers(g: Grid, p: Pos)
    requires IsGrid(g) && InGrid(p)
    ensures UnassignedCount(g, PeerList(p.0, p.1)) == Degree(g, p)
  {
    PeersCounted(g, PeerList(p.0, p.1), p);
  }

  lemma PeersCounted(g: Grid, ps: seq<Pos>, p: Pos)
    requires IsGrid(g) && Distinct(ps) && (forall q | q in ps :: InGrid(q)) && forall q :: q in ps <==> IsPeer(p, q)
    ensures UnassignedCount(g, ps) == Degree(g, p)
  {
    UnassignedCountIsSize(g, ps);
    assert (set q | q in ps && !At(g, q).Assigned()) == UnassignedPeers(g, p);
  }

  /** The cell the selection heuristics pick: an unassigned cell with the
      fewest remaining values; among those, one with the most unassigned
      peers; among those, the first in row-major order. */
  ghost predicate MrvDegreeChoice(g: Grid, p: Pos)
    requires IsGrid(g)
  {
    InGrid(p) && !At(g, p).Assigned() &&
    forall q | InGrid(q) && !At(g, q).Assigned() ::
      At(g, p).RemainingValueCount() <= At(g, q).RemainingValueCount() &&
      (At(g, p).RemainingValueCount() == At(g, q).RemainingValueCount() ==>
        Degree(g, q) <= Degree(g, p) &&
        (Degree(g, q) == Degree(g, p) ==> RowMajor(p) <= RowMajor(q)))
  }

  /** The heuristics leave no choice: at most one cell fits. */
  lemma MrvDegreeChoiceUnique(g: Grid, p: Pos, q: Pos)
    requires IsGrid(g) && MrvDegreeChoice(g, p) && MrvDegreeChoice(g, q)
    ensures p == q
  {
  }

  /** The state of the minimum-remaining-values scan after the first `n`
      cells in row-major order: `cur` is the fewest remaining values of
      an unassigned cell seen so far (10, above any count, when none was
      seen), and `mrv` lists, in row-major order, exactly the unassigned
      cells seen with that many. */
  ghost predicate MrvSoFar(g: Grid, mrv: seq<Pos>, cur: int, n: int)
    requires ValidGrid(g)
  {
    cur <= 10 && (mrv == [] <==> cur == 10) &&
    (forall s | 0 <= s < |mrv| ::
      InGrid(mrv[s]) && RowMajor(mrv[s]) < n && !At(g, mrv[s]).Assigned() && At(g, mrv[s]).RemainingValueCount() == cur) &&
    (forall s, t | 0 <= s < t < |mrv| :: RowMajor(mrv[s]) < RowMajor(mrv[t])) &&
    (forall p | InGrid(p) && RowMajor(p) < n && !At(g, p).Assigned() ::
      cur <= At(g, p).RemainingValueCount() && (At(g, p).RemainingValueCount() == cur ==> p in mrv))
  }

  /** One cell of the scan: an assigned cell or one with more remaining
      values than the minimum so far is skipped, one with as many joins the
      list, one with fewer starts a new list. */
  lemma MrvScanStep(g: Grid, mrv: seq<Pos>, cur: int, p: Pos, mrv': seq<Pos>, cur': int)
    requires ValidGrid(g) && InGrid(p) && MrvSoFar(g, mrv, cur, RowMajor(p))
    requires At(g, p).Assigned() || At(g, p).RemainingValueCount() > cur ==> mrv' == mrv && cur' == cur
    requires !At(g, p).Assigned() && At(g, p).RemainingValueCount() == cur ==> mrv' == mrv + [p] && cur' == cur
    requires !At(g, p).Assigned() && At(g, p).RemainingValueCount() < cur ==>
      mrv' == [p] && cur' == At(g, p).RemainingValueCount()
    ensures MrvSoFar(g, mrv', cur', RowMajor(p) + 1)
  {
    assert At(g, p).RemainingValueCount() <= 9;
    forall q | InGrid(q) && RowMajor(q) < RowMajor(p) + 1 && !At(g, q).Assigned()
      ensures cur' <= At(g, q).RemainingValueCount() && (At(g, q).RemainingValueCount() == cur' ==> q in mrv')
    {
      if q != p {
        assert RowMajor(q) < RowMajor(p);
      }
    }
  }

  /** An unassigned cell with the minimum count is on the finished MRV
      list. */
  lemma MrvListed(g: Grid, mrv: seq<Pos>, cur: int, q: Pos)
    requires ValidGrid(g) && MrvSoFar(g, mrv, cur, 81)
    requires InGrid(q) && !At(g, q).Assigned()
    ensures cur <= At(g, q).RemainingValueCount()
    ensures At(g, q).RemainingValueCount() == cur ==> exists s | 0 <= s < |mrv| :: mrv[s] == q
  {
    assert RowMajor(q) < 81;
  }

  /** The degree scan over the finished MRV list keeps the first cell of
      largest degree; that cell is the heuristics' choice. */
  lemma MrvDegreeScan(g: Grid, mrv: seq<Pos>, cur: int, at: int)
    requires ValidGrid(g) && MrvSoFar(g, mrv, cur, 81) && 0 <= at < |mrv|
    requires forall s | 0 <= s < |mrv| :: Degree(g, mrv[s]) <= Degree(g, mrv[at])
    requires forall s | 0 <= s < at :: Degree(g, mrv[s]) < Degree(g, mrv[at])
    ensures MrvDegreeChoice(g, mrv[at])
  {
    var p := mrv[at];
    assert InGrid(p) && !At(g, p).Assigned() && At(g, p).RemainingValueCount() == cur;
    forall q | InGrid(q) && !At(g, q).Assigned()
      ensures At(g, p).RemainingValueCount() <= At(g, q).RemainingValueCount()
      ensures At(g, p).RemainingValueCount() == At(g, q).RemainingValueCount() ==>
        Degree(g, q) <= Degree(g, p) && (Degree(g, q) == Degree(g, p) ==> RowMajor(p) <= RowMajor(q))
    {
      MrvListed(g, mrv, cur, q);
      if At(g, q).RemainingValueCount() == cur {
        var s :| 0 <= s < |mrv| && mrv[s] == q;
        assert Degree(g, q) <= Degree(g, p);
        if Degree(g, q) == Degree(g, p) && s != at {
          assert at < s;
        }
      }
    }
  }

  /** When the scan has seen every cell, its list is empty exactly when the
      board is complete. */
  lemma MrvEmptyWhenComplete(g: Grid, mrv: seq<Pos>, cur: int)
    requires ValidGrid(g) && MrvSoFar(g, mrv, cur, 81)
    ensures mrv == [] <==> Complete(g)
  {
    if !Complete(g) {
      var k, l :| 0 <= k < 9 && 0 <= l < 9 && !g[k][l].Assigned();
      MrvListed(g, mrv, cur, (k, l));
      assert At(g, (k, l)).RemainingValueCount() <= 9;
    } else {
      MrvHeadUnassigned(g, mrv, cur);
    }
  }

  lemma MrvHeadUnassigned(g: Grid, mrv: seq<Pos>, cur: int)
    requires ValidGrid(g) && MrvSoFar(g, mrv, cur, 81)
    ensures mrv != [] ==> !Complete(g)
  {
    if mrv != [] {
      var p := mrv[0];
      assert InGrid(p) && !At(g, p).Assigned();
    }
  }

  /** `h` is `g` taken further by the search: the same links, every value
      of `g` kept, every new value one that `g` still allowed there, and
      every domain of a cell still open narrowed. */
  predicate Refines(h: Grid, g: Grid)
    requires IsGrid(h) && IsGrid(g)
  {
    forall k, l | 0 <= k < 9 && 0 <= l < 9 :: CellRefines(h[k][l], g[k][l])
  }

  predicate CellRefines(c: Cell, e: Cell) {
    c.up == e.up && c.down == e.down && c.left == e.left && c.right == e.right &&
    (e.Assigned() ==> c.value == e.value) &&
    (!e.Assigned() && c.Assigned() ==> 1 <= c.value <= 9 && |e.domain| == 9 && e.domain[c.value - 1]) &&
    (!e.Assigned() && !c.Assigned() ==> SubDomain(c.domain, e.domain))
  }

  lemma RefinesTransitive(a: Grid, b: Grid, c: Grid)
    requires IsGrid(a) && IsGrid(b) && IsGrid(c)
    requires Refines(a, b) && Refines(b, c)
    ensures Refines(a, c)
  {
    forall k, l | 0 <= k < 9 && 0 <= l < 9
      ensures CellRefines(a[k][l], c[k][l])
    {
      assert CellRefines(a[k][l], b[k][l]) && CellRefines(b[k][l], c[k][l]);
    }
  }

  /** The board with the value at `p` set to `v`. */
  function Assign(g: Grid, p: Pos, v: int): (r: Grid)
    requires IsGrid(g) && InGrid(p)
    ensures IsGrid(r) && At(r, p) == At(g, p).(value := v)
    ensures forall k, l | 0 <= k < 9 && 0 <= l < 9 && (k, l) != p :: r[k][l] == g[k][l]
  {
    g[p.0 := g[p.0][p.1 := At(g, p).(value := v)]]
  }

  /** Setting a value back to what it was undoes the assignment. */
  lemma AssignUndone(g: Grid, p: Pos, v: int)
    requires IsGrid(g) && InGrid(p)
    ensures Assign(Assign(g, p, v), p, At(g, p).value) == g
  {
    var r := Assign(Assign(g, p, v), p, At(g, p).value);
    assert At(r, p) == At(g, p);
    GridEq(r, g);
  }

  /** A filled board that keeps every rule: each value 1..9, different from
      the value of every peer, and related to the value of each dot
      neighbour as the dot demands. */
  ghost predicate Solution(s: Grid)
    requires IsGrid(s)
  {
    (forall k, l | 0 <= k < 9 && 0 <= l < 9 :: 1 <= s[k][l].value <= 9) &&
    forall a, b | InGrid(a) && IsPeer(a, b) ::
      At(s, a).value != At(s, b).value && DotHolds(Link(At(s, a), a, b), At(s, a).value, At(s, b).value)
  }

  /** The two ends of every dot carry it: the `right` of a cell is the
      `left` of its right neighbour, the `down` of a cell the `up` of the
      cell below. */
  ghost predicate LinksSymmetric(g: Grid)
    requires IsGrid(g)
  {
    forall a, b | InGrid(a) && InGrid(b) :: Link(At(g, a), a, b) == Link(At(g, b), b, a)
  }

  /** The board a propagation has been applied to: assigned peers are
      compatible, and an unassigned peer of an assigned cell allows only
      values compatible with it. */
  ghost predicate Consistent(g: Grid)
    requires ValidGrid(g)
  {
    LinksSymmetric(g) && forall a, b | InGrid(a) && IsPeer(a, b) :: PairConsistent(g, a, b)
  }

  predicate PairConsistent(g: Grid, a: Pos, b: Pos)
    requires ValidGrid(g) && InGrid(a) && InGrid(b)
  {
    Compatible(At(g, a), At(g, b), Link(At(g, a), a, b))
  }

  /** An assigned cell `x` and a cell `y` joined by dot `d` as a peer: if
      `y` is assigned too, their values differ and keep the dot; if not,
      every value `y` still allows does. */
  predicate Compatible(x: Cell, y: Cell, d: Dot) {
    x.Assigned() ==>
      (y.Assigned() ==> x.value != y.value && DotHolds(d, x.value, y.value)) &&
      (!y.Assigned() ==> forall m | 0 <= m < |y.domain| && y.domain[m] :: m + 1 != x.value && DotHolds(d, x.value, m + 1))
  }

  /** Assigning `v` at an unassigned (i, j) whose domain allows it, then
      propagating, takes the board further: one hole fewer, and nothing the
      board had decided is undone. */
  lemma AssignRefines(g: Grid, i: int, j: int, v: int)
    requires ValidGrid(g) && InGrid((i, j)) && !g[i][j].Assigned() && 1 <= v <= 9 && g[i][j].domain[v - 1]
    ensures ValidGrid(Assign(g, (i, j), v)) && Assign(g, (i, j), v)[i][j].Assigned()
    ensures Refines(Propagate(Assign(g, (i, j), v), i, j), g)
    ensures Holes(Propagate(Assign(g, (i, j), v), i, j)) == Holes(g) - {(i, j)}
  {
    AssignValid(g, i, j, v);
    var r := Propagate(Assign(g, (i, j), v), i, j);
    forall k, l | 0 <= k < 9 && 0 <= l < 9
      ensures CellRefines(r[k][l], g[k][l])
      ensures r[k][l].Assigned() <==> g[k][l].Assigned() || (k, l) == (i, j)
    {
      AssignRefinesAt(g, i, j, v, k, l);
    }
    HolesFilled(r, g, (i, j));
  }

  /** Filling one more hole removes it from the holes. */
  lemma HolesFilled(r: Grid, g: Grid, p: Pos)
    requires IsGrid(r) && IsGrid(g)
    requires forall k, l | 0 <= k < 9 && 0 <= l < 9 :: r[k][l].Assigned() <==> g[k][l].Assigned() || (k, l) == p
    ensures Holes(r) == Holes(g) - {p}
  {
  }

  lemma AssignValid(g: Grid, i: int, j: int, v: int)
    requires ValidGrid(g) && InGrid((i, j)) && 1 <= v <= 9
    ensures ValidGrid(Assign(g, (i, j), v)) && Assign(g, (i, j), v)[i][j].Assigned()
  {
    var a := Assign(g, (i, j), v);
    forall k, l | 0 <= k < 9 && 0 <= l < 9
      ensures WellFormed(a[k][l], (k, l))
    {
      assert a[k][l] == if (k, l) == (i, j) then g[i][j].(value := v) else g[k][l];
    }
  }

  lemma AssignRefinesAt(g: Grid, i: int, j: int, v: int, k: int, l: int)
    requires ValidGrid(g) && InGrid((i, j)) && !g[i][j].Assigned() && 1 <= v <= 9 && g[i][j].domain[v - 1]
    requires ValidGrid(Assign(g, (i, j), v)) && Assign(g, (i, j), v)[i][j].Assigned()
    requires 0 <= k < 9 && 0 <= l < 9
    ensures CellRefines(Propagate(Assign(g, (i, j), v), i, j)[k][l], g[k][l])
    ensures Propagate(Assign(g, (i, j), v), i, j)[k][l].value == if (k, l) == (i, j) then v else g[k][l].value
  {
    var a := Assign(g, (i, j), v);
    assert Propagate(a, i, j)[k][l] == PropagatedCell(a, (i, j), (k, l));
    assert a[k][l] == if (k, l) == (i, j) then g[i][j].(value := v) else g[k][l];
  }

  /** A value whose propagation empties a domain, or whose propagated board
      no solution extends, is the value of no solution extending the
      board: the search may move on to the next value. */
  lemma BranchFails(g: Grid, i: int, j: int, v: int)
    requires ValidGrid(g) && InGrid((i, j)) && !g[i][j].Assigned() && 1 <= v <= 9
    requires ValidGrid(Assign(g, (i, j), v)) && Assign(g, (i, j), v)[i][j].Assigned()
    requires WipesOut(Assign(g, (i, j), v), i, j) ||
      forall s: Grid | IsGrid(s) && Solution(s) :: !Refines(s, Propagate(Assign(g, (i, j), v), i, j))
    requires forall s: Grid | IsGrid(s) && Solution(s) && Refines(s, g) :: s[i][j].value >= v
    ensures forall s: Grid | IsGrid(s) && Solution(s) && Refines(s, g) :: s[i][j].value >= v + 1
  {
    forall s: Grid | IsGrid(s) && Solution(s) && Refines(s, g)
      ensures s[i][j].value != v
    {
      if s[i][j].value == v {
        SolutionSurvives(s, g, i, j);
      }
    }
  }

  /** A value the domain of an unassigned cell no longer holds is the value
      there of no solution extending the board. */
  lemma ValueRuledOut(g: Grid, i: int, j: int, v: int)
    requires ValidGrid(g) && InGrid((i, j)) && !g[i][j].Assigned() && 1 <= v <= 9 && !g[i][j].domain[v - 1]
    requires forall s: Grid | IsGrid(s) && Solution(s) && Refines(s, g) :: s[i][j].value >= v
    ensures forall s: Grid | IsGrid(s) && Solution(s) && Refines(s, g) :: s[i][j].value >= v + 1
  {
    forall s: Grid | IsGrid(s) && Solution(s) && Refines(s, g)
      ensures s[i][j].value != v
    {
      assert CellRefines(s[i][j], g[i][j]);
    }
  }

  /** Assigning at (i, j) the value a solution of the board has there, then
      propagating, keeps that solution: it still refines the board, so no
      peer is left without a value. */
  lemma SolutionSurvives(s: Grid, g: Grid, i: int, j: int)
    requires IsGrid(s) && ValidGrid(g) && InGrid((i, j)) && !g[i][j].Assigned()
    requires Solution(s) && Refines(s, g)
    ensures ValidGrid(Assign(g, (i, j), s[i][j].value)) && Assign(g, (i, j), s[i][j].value)[i][j].Assigned()
    ensures Refines(s, Propagate(Assign(g, (i, j), s[i][j].value), i, j))
    ensures !WipesOut(Assign(g, (i, j), s[i][j].value), i, j)
  {
    var v := s[i][j].value;
    assert CellRefines(s[i][j], g[i][j]);
    AssignValid(g, i, j, v);
    var a := Assign(g, (i, j), v);
    forall k, l | 0 <= k < 9 && 0 <= l < 9
      ensures CellRefines(s[k][l], Propagate(a, i, j)[k][l])
      ensures IsPeer((i, j), (k, l)) && !a[k][l].Assigned() ==> Count(Propagate(a, i, j)[k][l].domain) > 0
    {
      assert CellRefines(s[k][l], g[k][l]);
      assert a[k][l] == if (k, l) == (i, j) then g[i][j].(value := v) else g[k][l];
      if IsPeer((i, j), (k, l)) {
        assert At(s, (i, j)).value != At(s, (k, l)).value;
        assert DotHolds(Link(At(s, (i, j)), (i, j), (k, l)), v, s[k][l].value);
      }
      SurvivesAt(a, i, j, k, l, s[k][l]);
    }
  }

  lemma SurvivesAt(a: Grid, i: int, j: int, k: int, l: int, c: Cell)
    requires ValidGrid(a) && InGrid((i, j)) && a[i][j].Assigned() && 0 <= k < 9 && 0 <= l < 9
    requires CellRefines(c, a[k][l]) && 1 <= c.value <= 9
    requires IsPeer((i, j), (k, l)) ==>
      c.value != a[i][j].value && DotHolds(Link(a[i][j], (i, j), (k, l)), a[i][j].value, c.value)
    ensures CellRefines(c, Propagate(a, i, j)[k][l])
    ensures IsPeer((i, j), (k, l)) && !a[k][l].Assigned() ==> Count(Propagate(a, i, j)[k][l].domain) > 0
  {
    var r := PropagatedCell(a, (i, j), (k, l));
    assert Propagate(a, i, j)[k][l] == r;
    if IsPeer((i, j), (k, l)) && !a[k][l].Assigned() {
      assert r.domain[c.value - 1];
    }
  }

  /** Assigning a value the domain allows and propagating it keeps the
      board consistent. */
  lemma ConsistentAfterAssign(g: Grid, i: int, j: int, v: int)
    requires ValidGrid(g) && InGrid((i, j)) && !g[i][j].Assigned() && 1 <= v <= 9 && g[i][j].domain[v - 1]
    requires Consistent(g)
    ensures ValidGrid(Assign(g, (i, j), v)) && Assign(g, (i, j), v)[i][j].Assigned()
    ensures Consistent(Propagate(Assign(g, (i, j), v), i, j))
  {
    AssignRefines(g, i, j, v);
    var r := Propagate(Assign(g, (i, j), v), i, j);
    RefinesKeepsLinks(r, g);
    forall x, y | InGrid(x) && IsPeer(x, y)
      ensures PairConsistent(r, x, y)
    {
      PairConsistentAfterAssign(g, i, j, v, x, y);
    }
  }

  lemma PairConsistentAfterAssign(g: Grid, i: int, j: int, v: int, x: Pos, y: Pos)
    requires ValidGrid(g) && InGrid((i, j)) && !g[i][j].Assigned() && 1 <= v <= 9 && g[i][j].domain[v - 1]
    requires InGrid(x) && IsPeer(x, y) && Consistent(g)
    requires ValidGrid(Assign(g, (i, j), v)) && Assign(g, (i, j), v)[i][j].Assigned()
    ensures PairConsistent(Propagate(Assign(g, (i, j), v), i, j), x, y)
  {
    AfterAssignAt(g, i, j, v, x.0, x.1);
    AfterAssignAt(g, i, j, v, y.0, y.1);
    assert PairConsistent(g, x, y) && PairConsistent(g, y, x);
    assert Link(At(g, x), x, y) == Link(At(g, y), y, x);
    PairConsistentAfter(g, Propagate(Assign(g, (i, j), v), i, j), i, j, v, x, y);
  }

  /** Refining a board never moves a dot. */
  lemma RefinesKeepsLinks(h: Grid, g: Grid)
    requires IsGrid(h) && IsGrid(g) && Refines(h, g) && LinksSymmetric(g)
    ensures LinksSymmetric(h)
  {
    forall x, y | InGrid(x) && InGrid(y)
      ensures Link(At(h, x), x, y) == Link(At(h, y), y, x)
    {
      assert Link(At(g, x), x, y) == Link(At(g, y), y, x);
      assert CellRefines(At(h, x), At(g, x)) && CellRefines(At(h, y), At(g, y));
    }
  }

  /** Two peers of a consistent board stay compatible once each of them is
      as the assignment of `v` at (i, j) and its propagation leave it. */
  lemma PairConsistentAfter(g: Grid, r: Grid, i: int, j: int, v: int, x: Pos, y: Pos)
    requires ValidGrid(g) && ValidGrid(r) && InGrid((i, j)) && !g[i][j].Assigned() && 1 <= v <= 9 && g[i][j].domain[v - 1]
    requires InGrid(x) && IsPeer(x, y)
    requires PairConsistent(g, x, y) && PairConsistent(g, y, x) && Link(At(g, x), x, y) == Link(At(g, y), y, x)
    requires AfterAssignCell(At(g, x), At(r, x), x, i, j, v, Link(g[i][j], (i, j), x))
    requires AfterAssignCell(At(g, y), At(r, y), y, i, j, v, Link(g[i][j], (i, j), y))
    ensures PairConsistent(r, x, y)
  {
    var d := Link(At(g, x), x, y);
    assert Link(At(r, x), x, y) == d;
    if x == (i, j) && !At(g, y).Assigned() {
      assert IsPeer((i, j), y);
    }
    CompatibleAfter(At(g, x), At(g, y), At(r, x), At(r, y), d, v, x == (i, j), y == (i, j));
  }

  /** The cell `c` at `p` is the cell `e` there after assigning `v` at
      (i, j) and propagating: (i, j) takes `v`, every other cell keeps its
      value and narrows its domain, and an unassigned peer of (i, j),
      joined to it by dot `d`, keeps only values compatible with `v`. */
  predicate AfterAssignCell(e: Cell, c: Cell, p: Pos, i: int, j: int, v: int, d: Dot) {
    SameButDomain(c, e.(value := c.value)) &&
    (p == (i, j) ==> c.value == v && c.domain == e.domain) &&
    (p != (i, j) ==> c.value == e.value && SubDomain(c.domain, e.domain)) &&
    (IsPeer((i, j), p) && !e.Assigned() ==>
      forall m | 0 <= m < 9 && m < |c.domain| && c.domain[m] :: m + 1 != v && DotHolds(d, v, m + 1))
  }

  /** One cell after assigning `v` at (i, j) and propagating. */
  lemma AfterAssignAt(g: Grid, i: int, j: int, v: int, k: int, l: int)
    requires ValidGrid(g) && InGrid((i, j)) && 1 <= v <= 9 && 0 <= k < 9 && 0 <= l < 9
    requires ValidGrid(Assign(g, (i, j), v)) && Assign(g, (i, j), v)[i][j].Assigned()
    ensures AfterAssignCell(g[k][l], Propagate(Assign(g, (i, j), v), i, j)[k][l], (k, l), i, j, v, Link(g[i][j], (i, j), (k, l)))
  {
    var a := Assign(g, (i, j), v);
    assert Propagate(a, i, j)[k][l] == PropagatedCell(a, (i, j), (k, l));
    AssignedCellAt(g, a, i, j, v, k, l);
  }

  lemma AssignedCellAt(g: Grid, a: Grid, i: int, j: int, v: int, k: int, l: int)
    requires ValidGrid(g) && InGrid((i, j)) && 1 <= v <= 9 && 0 <= k < 9 && 0 <= l < 9
    requires a == Assign(g, (i, j), v) && ValidGrid(a) && a[i][j].Assigned()
    ensures AfterAssignCell(g[k][l], PropagatedCell(a, (i, j), (k, l)), (k, l), i, j, v, Link(g[i][j], (i, j), (k, l)))
  {
    assert a[k][l] == if (k, l) == (i, j) then g[i][j].(value := v) else g[k][l];
    assert Link(a[i][j], (i, j), (k, l)) == Link(g[i][j], (i, j), (k, l));
  }

  /** Two peers stay compatible when at most one of them is newly assigned a
      value its domain allowed, and every domain left open only narrows to
      values compatible with the new one. */
  lemma CompatibleAfter(gx: Cell, gy: Cell, rx: Cell, ry: Cell, d: Dot, v: int, xNew: bool, yNew: bool)
    requires |gx.domain| == 9 && |gy.domain| == 9 && 1 <= v <= 9 && !(xNew && yNew)
    requires Compatible(gx, gy, d) && Compatible(gy, gx, d)
    requires xNew ==> !gx.Assigned() && gx.domain[v - 1] && rx.value == v
    requires !xNew ==> rx.value == gx.value && SubDomain(rx.domain, gx.domain)
    requires yNew ==> !gy.Assigned() && gy.domain[v - 1] && ry.value == v
    requires !yNew ==> ry.value == gy.value && SubDomain(ry.domain, gy.domain)
    requires xNew && !gy.Assigned() ==> forall m | 0 <= m < 9 && ry.domain[m] :: m + 1 != v && DotHolds(d, v, m + 1)
    ensures Compatible(rx, ry, d)
  {
    if xNew && gy.Assigned() {
      DotHoldsSymmetric(d, gy.value, v);
    }
  }

  /** A complete consistent board is a solution. */
  lemma CompleteConsistentSolves(g: Grid)
    requires ValidGrid(g) && Complete(g) && Consistent(g)
    ensures Solution(g)
  {
    forall a, b | InGrid(a) && IsPeer(a, b)
      ensures At(g, a).value != At(g, b).value && DotHolds(Link(At(g, a), a, b), At(g, a).value, At(g, b).value)
    {
      assert PairConsistent(g, a, b);
    }
  }
}
