/** Building the starting board from parsed puzzle data: every cell takes
    its given value and the full domain, each dot is attached to both cells
    it separates, and then every given is propagated in row-major order. */
module Wiring {
  import opened Constraints
  import opened Cells
  import opened Propagation
  import opened Search

  /** The shape of the parsed puzzle: nine rows of nine values 0..9, nine
      rows of eight dots between horizontal neighbours, and eight rows of
      nine dots between vertical neighbours. */
  predicate GivensShape(values: seq<seq<int>>, horizontal: seq<seq<Dot>>, vertical: seq<seq<Dot>>) {
    |values| == 9 && (forall k | 0 <= k < 9 :: |values[k]| == 9) &&
    (forall k, l | 0 <= k < 9 && 0 <= l < 9 :: 0 <= values[k][l] <= 9) &&
    |horizontal| == 9 && (forall k | 0 <= k < 9 :: |horizontal[k]| == 8) &&
    |vertical| == 8 && (forall k | 0 <= k < 8 :: |vertical[k]| == 9)
  }

  /** The cell at (k, l) once read and wired: its given value, every value
      possible, and the dot on each side that has a neighbour. */
  function WiredCell(values: seq<seq<int>>, horizontal: seq<seq<Dot>>, vertical: seq<seq<Dot>>, k: int, l: int): Cell
    requires GivensShape(values, horizontal, vertical) && 0 <= k < 9 && 0 <= l < 9
  {
    Cell(values[k][l], FullDomain,
      if k > 0 then vertical[k - 1][l] else NoDot,
      if k < 8 then vertical[k][l] else NoDot,
      if l > 0 then horizontal[k][l - 1] else NoDot,
      if l < 8 then horizontal[k][l] else NoDot)
  }

  function Wired(values: seq<seq<int>>, horizontal: seq<seq<Dot>>, vertical: seq<seq<Dot>>): (g: Grid)
    requires GivensShape(values, horizontal, vertical)
    ensures IsGrid(g) && forall k, l | 0 <= k < 9 && 0 <= l < 9 :: g[k][l] == WiredCell(values, horizontal, vertical, k, l)
  {
    seq(9, k requires 0 <= k < 9 => seq(9, l requires 0 <= l < 9 => WiredCell(values, horizontal, vertical, k, l)))
  }

  /** The wired board is well formed, and each dot is seen alike from both
      of its cells. */
  lemma WiredLinks(values: seq<seq<int>>, horizontal: seq<seq<Dot>>, vertical: seq<seq<Dot>>)
    requires GivensShape(values, horizontal, vertical)
    ensures ValidGrid(Wired(values, horizontal, vertical)) && LinksSymmetric(Wired(values, horizontal, vertical))
  {
    var w := Wired(values, horizontal, vertical);
    forall a, b | InGrid(a) && InGrid(b)
      ensures Link(At(w, a), a, b) == Link(At(w, b), b, a)
    {
      assert At(w, a) == WiredCell(values, horizontal, vertical, a.0, a.1);
      assert At(w, b) == WiredCell(values, horizontal, vertical, b.0, b.1);
    }
  }

  /** `x` is allowed at `q` by every given among the first `n` cells, in
      row-major order, that is a peer of `q`: it differs from the given and
      keeps the dot between them. */
  ghost predicate AllowedBy(w: Grid, n: int, q: Pos, x: int)
    requires IsGrid(w)
  {
    forall a | InGrid(a) && RowMajor(a) < n && IsPeer(a, q) && At(w, a).Assigned() ::
      x != At(w, a).value && DotHolds(Link(At(w, a), a, q), At(w, a).value, x)
  }

  /** The cell at (k, l) once the givens among the first `n` cells have
      been propagated: a given stays as it is, any other cell keeps exactly
      the values every such given peer allows. */
  ghost function PassedCell(w: Grid, n: int, k: int, l: int): Cell
    requires ValidGrid(w) && 0 <= k < 9 && 0 <= l < 9
  {
    var c := w[k][l];
    if c.Assigned() then c
    else c.(domain := seq(9, m requires 0 <= m < 9 => c.domain[m] && AllowedBy(w, n, (k, l), m + 1)))
  }

  /** The board after the initial pass has reached the `n`-th cell in
      row-major order (the last loop of `parse_file`). Since the pass never
      changes a value and only clears flags, the order of the givens does
      not matter to the result. */
  ghost function Passed(w: Grid, n: int): (g: Grid)
    requires ValidGrid(w)
    ensures IsGrid(g) && forall k, l | 0 <= k < 9 && 0 <= l < 9 :: g[k][l] == PassedCell(w, n, k, l)
  {
    seq(9, k requires 0 <= k < 9 => seq(9, l requires 0 <= l < 9 => PassedCell(w, n, k, l)))
  }

  /** Before the pass the board is as wired. */
  lemma PassedStart(w: Grid)
    requires ValidGrid(w)
    ensures Passed(w, 0) == w
  {
    forall k, l | 0 <= k < 9 && 0 <= l < 9
      ensures Passed(w, 0)[k][l] == w[k][l]
    {
      assert WellFormed(w[k][l], (k, l));
    }
    GridEq(Passed(w, 0), w);
  }

  /** The pass keeps every value and link, and keeps the board well
      formed. */
  lemma PassedValid(w: Grid, n: int)
    requires ValidGrid(w)
    ensures ValidGrid(Passed(w, n))
    ensures forall k, l | 0 <= k < 9 && 0 <= l < 9 :: SameButDomain(Passed(w, n)[k][l], w[k][l])
  {
    forall k, l | 0 <= k < 9 && 0 <= l < 9
      ensures WellFormed(Passed(w, n)[k][l], (k, l)) && SameButDomain(Passed(w, n)[k][l], w[k][l])
    {
      assert WellFormed(w[k][l], (k, l));
    }
  }

  /** One more step of the pass: propagating the `n`-th cell when it is a
      given, or skipping it when it is not, gives the board after `n + 1`
      cells. */
  lemma PassStep(w: Grid, n: int)
    requires ValidGrid(w) && 0 <= n < 81
    ensures ValidGrid(Passed(w, n))
    ensures var h := Passed(w, n); var p: Pos := (n / 9, n % 9);
      InGrid(p) && (if At(h, p).Assigned() then Propagate(h, p.0, p.1) else h) == Passed(w, n + 1)
  {
    PassedValid(w, n);
    var h: Grid := Passed(w, n);
    var p: Pos := (n / 9, n % 9);
    assert InGrid(p) && RowMajor(p) == n;
    assert At(h, p) == PassedCell(w, n, p.0, p.1);
    if At(h, p).Assigned() {
      PropagateCells(h, p.0, p.1);
      var r := Propagate(h, p.0, p.1);
      forall k, l | 0 <= k < 9 && 0 <= l < 9
        ensures r[k][l] == Passed(w, n + 1)[k][l]
      {
        PassStepCell(w, n, h, p, k, l);
      }
      GridEq(r, Passed(w, n + 1));
    } else {
      forall k, l | 0 <= k < 9 && 0 <= l < 9
        ensures h[k][l] == Passed(w, n + 1)[k][l]
      {
        SkipStepCell(w, n, p, k, l);
      }
      GridEq(h, Passed(w, n + 1));
    }
  }

  lemma PassStepCell(w: Grid, n: int, h: Grid, p: Pos, k: int, l: int)
    requires ValidGrid(w) && 0 <= n < 81 && p == (n / 9, n % 9) && 0 <= k < 9 && 0 <= l < 9
    requires ValidGrid(h) && At(h, p) == At(w, p) && h[k][l] == PassedCell(w, n, k, l) && At(w, p).Assigned()
    ensures PropagatedCell(h, p, (k, l)) == PassedCell(w, n + 1, k, l)
  {
    assert InGrid(p) && RowMajor(p) == n;
    if !w[k][l].Assigned() {
      if IsPeer(p, (k, l)) {
        PeerStepCell(w, n, p, k, l);
      } else {
        OtherStepCell(w, n, p, k, l);
      }
    }
  }

  /** An unassigned peer of the `n`-th cell, a given, is narrowed by it. */
  lemma PeerStepCell(w: Grid, n: int, p: Pos, k: int, l: int)
    requires ValidGrid(w) && 0 <= n < 81 && p == (n / 9, n % 9) && 0 <= k < 9 && 0 <= l < 9
    requires At(w, p).Assigned() && !w[k][l].Assigned() && IsPeer(p, (k, l))
    ensures PassedCell(w, n + 1, k, l) == Narrow(PassedCell(w, n, k, l), At(w, p).value, Link(At(w, p), p, (k, l)))
  {
    assert InGrid(p) && RowMajor(p) == n;
    var c := w[k][l];
    assert WellFormed(c, (k, l));
    var s := At(w, p);
    var before := PassedCell(w, n, k, l);
    var after := PassedCell(w, n + 1, k, l);
    AllowedStep(w, n, p, (k, l));
    var d := Link(s, p, (k, l));
    forall m | 0 <= m < 9
      ensures after.domain[m] <==> before.domain[m] && m + 1 != s.value && DotHolds(d, s.value, m + 1)
    {
      assert AllowedBy(w, n + 1, (k, l), m + 1) <==>
        (AllowedBy(w, n, (k, l), m + 1) && m + 1 != s.value && DotHolds(d, s.value, m + 1));
    }
    NarrowMatches(before, after, s.value, d);
  }

  /** An unassigned cell that is not a peer of the `n`-th cell is left as
      it was. */
  lemma OtherStepCell(w: Grid, n: int, p: Pos, k: int, l: int)
    requires ValidGrid(w) && 0 <= n < 81 && p == (n / 9, n % 9) && 0 <= k < 9 && 0 <= l < 9
    requires !w[k][l].Assigned() && !IsPeer(p, (k, l))
    ensures PassedCell(w, n + 1, k, l) == PassedCell(w, n, k, l)
  {
    assert InGrid(p) && RowMajor(p) == n;
    assert WellFormed(w[k][l], (k, l));
    var before := PassedCell(w, n, k, l);
    var after := PassedCell(w, n + 1, k, l);
    AllowedStep(w, n, p, (k, l));
    forall m | 0 <= m < 9
      ensures before.domain[m] == after.domain[m]
    {
      assert AllowedBy(w, n + 1, (k, l), m + 1) <==> AllowedBy(w, n, (k, l), m + 1);
    }
    assert before.domain == after.domain;
  }

  /** A cell whose flags are exactly those `Narrow` keeps is what
      `Narrow` returns. */
  lemma NarrowMatches(before: Cell, after: Cell, v: int, d: Dot)
    requires 1 <= v <= 9 && |before.domain| == 9 && |after.domain| == 9
    requires SameButDomain(after, before)
    requires forall m | 0 <= m < 9 :: after.domain[m] <==> before.domain[m] && m + 1 != v && DotHolds(d, v, m + 1)
    ensures Narrow(before, v, d) == after
  {
    var r := Narrow(before, v, d);
    assert r.domain == after.domain;
  }

  lemma SkipStepCell(w: Grid, n: int, p: Pos, k: int, l: int)
    requires ValidGrid(w) && 0 <= n < 81 && p == (n / 9, n % 9) && 0 <= k < 9 && 0 <= l < 9
    requires !At(w, p).Assigned()
    ensures PassedCell(w, n, k, l) == PassedCell(w, n + 1, k, l)
  {
    assert InGrid(p) && RowMajor(p) == n;
    if !w[k][l].Assigned() {
      var before := PassedCell(w, n, k, l);
      var after := PassedCell(w, n + 1, k, l);
      AllowedStep(w, n, p, (k, l));
      forall m | 0 <= m < 9
        ensures before.domain[m] == after.domain[m]
      {
        assert AllowedBy(w, n + 1, (k, l), m + 1) <==> AllowedBy(w, n, (k, l), m + 1);
      }
      assert before.domain == after.domain;
    }
  }

  /** The givens among the first `n + 1` cells allow a value exactly when
      those among the first `n` do and the `n`-th cell, if it is a given
      peer, does too. */
  lemma AllowedStep(w: Grid, n: int, p: Pos, q: Pos)
    requires IsGrid(w) && InGrid(p) && RowMajor(p) == n
    ensures forall x :: AllowedBy(w, n + 1, q, x) <==>
      AllowedBy(w, n, q, x) &&
      (IsPeer(p, q) && At(w, p).Assigned() ==> x != At(w, p).value && DotHolds(Link(At(w, p), p, q), At(w, p).value, x))
  {
    forall a | InGrid(a) && RowMajor(a) == n
      ensures a == p
    {
      if a != p {
        RowMajorInjective(a, p);
      }
    }
  }

  /** Distinct board positions have distinct row-major indexes. */
  lemma RowMajorInjective(a: Pos, b: Pos)
    requires InGrid(a) && InGrid(b) && a != b
    ensures RowMajor(a) != RowMajor(b)
  {
    if a.0 < b.0 {
      assert RowMajor(a) < 9 * (a.0 + 1) <= RowMajor(b);
    } else if b.0 < a.0 {
      assert RowMajor(b) < 9 * (b.0 + 1) <= RowMajor(a);
    }
  }

  /** Givens that keep the rules among themselves: two given peers hold
      different values, related as the dot between them demands. The
      solver never checks this. */
  ghost predicate GivensAgree(w: Grid)
    requires IsGrid(w)
  {
    forall a, b | InGrid(a) && IsPeer(a, b) && At(w, a).Assigned() && At(w, b).Assigned() ::
      At(w, a).value != At(w, b).value && DotHolds(Link(At(w, a), a, b), At(w, a).value, At(w, b).value)
  }

  /** When the givens keep the rules, the board after the whole initial
      pass is consistent, which is what the search needs to return only
      solutions. */
  lemma StartConsistent(w: Grid)
    requires ValidGrid(w) && LinksSymmetric(w) && GivensAgree(w)
    ensures ValidGrid(Passed(w, 81)) && Consistent(Passed(w, 81))
  {
    PassedValid(w, 81);
    var g := Passed(w, 81);
    forall a, b | InGrid(a) && InGrid(b)
      ensures Link(At(g, a), a, b) == Link(At(g, b), b, a)
    {
      assert Link(At(w, a), a, b) == Link(At(w, b), b, a);
    }
    forall a, b | InGrid(a) && IsPeer(a, b)
      ensures PairConsistent(g, a, b)
    {
      PassedPair(w, a, b);
    }
  }

  /** The initial pass loses no solution: every solution that keeps the
      givens and the dots of the wired board, and takes its values from
      their domains, still fits the board after the whole pass. So a
      search that finds nothing from that board proves the puzzle has no
      solution. */
  lemma PuzzleSolutionRefinesStart(w: Grid, s: Grid)
    requires ValidGrid(w) && IsGrid(s) && Solution(s) && Refines(s, w)
    ensures Refines(s, Passed(w, 81))
  {
    forall k, l | 0 <= k < 9 && 0 <= l < 9
      ensures CellRefines(s[k][l], Passed(w, 81)[k][l])
    {
      assert CellRefines(s[k][l], w[k][l]);
      var x := s[k][l].value;
      if !w[k][l].Assigned() {
        forall a | InGrid(a) && RowMajor(a) < 81 && IsPeer(a, (k, l)) && At(w, a).Assigned()
          ensures x != At(w, a).value && DotHolds(Link(At(w, a), a, (k, l)), At(w, a).value, x)
        {
          assert CellRefines(At(s, a), At(w, a));
          assert At(s, (k, l)) == s[k][l];
        }
        assert AllowedBy(w, 81, (k, l), x);
      }
    }
  }

  lemma PassedPair(w: Grid, a: Pos, b: Pos)
    requires ValidGrid(w) && GivensAgree(w) && ValidGrid(Passed(w, 81)) && InGrid(a) && IsPeer(a, b)
    ensures PairConsistent(Passed(w, 81), a, b)
  {
    var g := Passed(w, 81);
    assert At(g, a) == PassedCell(w, 81, a.0, a.1) && At(g, b) == PassedCell(w, 81, b.0, b.1);
    assert At(w, a).Assigned() && At(w, b).Assigned() ==>
      At(w, a).value != At(w, b).value && DotHolds(Link(At(w, a), a, b), At(w, a).value, At(w, b).value);
    PassedCompatible(w, a, b);
  }

  /** Two peers after the pass are compatible when, if both are givens,
      the givens keep the rules. */
  lemma PassedCompatible(w: Grid, a: Pos, b: Pos)
    requires ValidGrid(w) && InGrid(a) && IsPeer(a, b)
    requires At(w, a).Assigned() && At(w, b).Assigned() ==>
      At(w, a).value != At(w, b).value && DotHolds(Link(At(w, a), a, b), At(w, a).value, At(w, b).value)
    ensures Compatible(PassedCell(w, 81, a.0, a.1), PassedCell(w, 81, b.0, b.1), Link(PassedCell(w, 81, a.0, a.1), a, b))
  {
    var ca := At(w, a);
    if ca.Assigned() && !At(w, b).Assigned() {
      var cb := PassedCell(w, 81, b.0, b.1);
      forall m | 0 <= m < |cb.domain| && cb.domain[m]
        ensures m + 1 != ca.value && DotHolds(Link(ca, a, b), ca.value, m + 1)
      {
        assert AllowedBy(w, 81, b, m + 1);
        assert RowMajor(a) < 81;
      }
    }
  }
}
