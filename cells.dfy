/** The state of one grid cell (the solver's `Variable`) and the pruning
    that an assigned peer applies to it. */
module Cells {
  import opened Constraints

  /** One grid cell. `value` 0 means unassigned, 1..9 is the assignment;
      `domain[k]` says whether the value k + 1 is still possible; `up`,
      `down`, `left` and `right` are the dots shared with the neighbour in
      that direction. */
  datatype Cell = Cell(value: int, domain: seq<bool>, up: Dot, down: Dot, left: Dot, right: Dot)
  {
    /** Whether the cell holds a value: for a value in 0..9, exactly
        when it is one of 1..9. */
    predicate Assigned()
      ensures 0 <= value <= 9 ==> (Assigned() <==> 1 <= value <= 9)
    {
      value != 0
    }

    /** How many values the domain still allows: at most the number of
        flags, and zero exactly when no flag is set. */
    function RemainingValueCount(): (n: nat)
      ensures n <= |domain|
      ensures n == 0 <==> forall k | 0 <= k < |domain| :: !domain[k]
    {
      Count(domain)
    }
  }

  /** Every value 1..9 available. */
  const FullDomain: seq<bool> := [true, true, true, true, true, true, true, true, true]

  /** The number of set flags (`sum(domain)`). */
  function Count(flags: seq<bool>): (n: nat)
    ensures n <= |flags|
    ensures n == 0 <==> forall k | 0 <= k < |flags| :: !flags[k]
  {
    if flags == [] then 0
    else (if flags[0] then 1 else 0) + Count(flags[1..])
  }

  /** The domain of cell `c` at position `p` holds nine flags, its value is
      0..9, and no dot link points off the board. */
  predicate WellFormed(c: Cell, p: Pos) {
    0 <= c.value <= 9 && |c.domain| == 9 &&
    (c.up != NoDot ==> p.0 > 0) && (c.down != NoDot ==> p.0 < 8) &&
    (c.left != NoDot ==> p.1 > 0) && (c.right != NoDot ==> p.1 < 8)
  }

  /** The same cell but for its domain. */
  predicate SameButDomain(c: Cell, e: Cell) {
    c.value == e.value && c.up == e.up && c.down == e.down && c.left == e.left && c.right == e.right
  }

  /** Every value `small` allows, `big` allows too. */
  predicate SubDomain(small: seq<bool>, big: seq<bool>) {
    |small| == |big| && forall m | 0 <= m < |small| :: small[m] ==> big[m]
  }

  /** The dot that cell `c`, at position `a`, shares with position `b`:
      its `up`, `down`, `left` or `right` link when `b` is that neighbour. */
  function Link(c: Cell, a: Pos, b: Pos): (d: Dot)
    ensures d != NoDot ==>
      (b.0 == a.0 && (b.1 == a.1 - 1 || b.1 == a.1 + 1)) || (b.1 == a.1 && (b.0 == a.0 - 1 || b.0 == a.0 + 1))
  {
    if b == (a.0 - 1, a.1) then c.up
    else if b == (a.0 + 1, a.1) then c.down
    else if b == (a.0, a.1 - 1) then c.left
    else if b == (a.0, a.1 + 1) then c.right
    else NoDot
  }

  /** Clears every flag whose value is not in `allowed` (the
      `if k + 1 not in remain` loop). */
  function Restrict(dom: seq<bool>, allowed: seq<int>): seq<bool> {
    seq(|dom|, m requires 0 <= m < |dom| => dom[m] && (m + 1) in allowed)
  }

  /** `c` is `e` after a pass that removes the value `v` from the cells it
      touches: a touched unassigned cell loses `v`, any other cell stays as
      it was. */
  predicate ClearedTo(c: Cell, e: Cell, touched: bool, v: int) {
    if touched && !e.Assigned() && 1 <= v <= |e.domain| then c == e.(domain := e.domain[v - 1 := false]) else c == e
  }

  /** What an assigned peer holding `v`, linked to `c` by dot `d`, leaves of
      `c`'s domain: `v` is removed and, under a dot, only values the dot
      allows next to `v` survive. */
  function Narrow(c: Cell, v: int, d: Dot): (r: Cell)
    requires 1 <= v <= 9 && |c.domain| == 9
    ensures SameButDomain(r, c) && SubDomain(r.domain, c.domain)
    ensures forall m | 0 <= m < 9 ::
      r.domain[m] <==> c.domain[m] && m + 1 != v && DotHolds(d, v, m + 1)
  {
    var cleared := c.domain[v - 1 := false];
    c.(domain := if d == NoDot then cleared else Restrict(cleared, DotRemains(d, v)))
  }
}
