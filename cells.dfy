/** The state of one table cell of the minefield and the two counters over
    lists of cells (js/Cell.js). */
module Cells {

  /** The cell's `data-info` attribute: a mine (`'M'`), or the number of mined
      neighbours, where `Count(0)` stands for the empty string `''` and also
      for the unset info of a freshly rendered cell. */
  datatype Info = Mine | Count(n: nat)

  /** The cell's `data-type` attribute. */
  datatype Kind = Covered | Marked | Opened

  datatype Cell = Cell(info: Info, kind: Kind)

  /** `Cell.isAnyMineHere`: the cell's info is `'M'`, so exactly the cells
      that hold no number. */
  function IsAnyMineHere(c: Cell): (r: bool)
    ensures r <==> !c.info.Count?
  {
    c.info == Mine
  }

  /** The test `flagCounter` applies to each cell. */
  predicate IsMarked(c: Cell) {
    c.kind == Marked
  }

  function Bit(b: bool): nat {
    if b then 1 else 0
  }

  /** The `reduce` both counters are written as: a left fold from `count` that
      adds one for every cell `want` accepts. */
  function Tally(a: seq<Cell>, want: Cell -> bool, count: nat): nat {
    if a == [] then count else Tally(a[1..], want, count + Bit(want(a[0])))
  }

  /** The positions in `a` of the cells `want` accepts. */
  ghost function Matching(a: seq<Cell>, want: Cell -> bool): set<int> {
    set k | 0 <= k < |a| && want(a[k])
  }

  lemma {:induction false} TallyAppend(a: seq<Cell>, b: seq<Cell>, want: Cell -> bool, count: nat)
    ensures Tally(a + b, want, count) == Tally(b, want, Tally(a, want, count))
  {
    if a == [] {
      assert a + b == b;
    } else {
      assert (a + b)[1..] == a[1..] + b;
      TallyAppend(a[1..], b, want, count + Bit(want(a[0])));
    }
  }

  lemma {:induction false} TallyFrom(a: seq<Cell>, want: Cell -> bool, count: nat)
    ensures Tally(a, want, count) == count + Tally(a, want, 0)
  {
    if a != [] {
      var d := Bit(want(a[0]));
      TallyFrom(a[1..], want, count + d);
      TallyFrom(a[1..], want, d);
    }
  }

  lemma {:induction false} TallyBound(a: seq<Cell>, want: Cell -> bool, count: nat)
    ensures count <= Tally(a, want, count) <= count + |a|
  {
    if a != [] {
      TallyBound(a[1..], want, count + Bit(want(a[0])));
    }
  }

  lemma TallySingle(c: Cell, want: Cell -> bool)
    ensures Tally([c], want, 0) == Bit(want(c))
  {
    assert [c][1..] == [];
  }

  /** The fold counts exactly the cells `want` accepts. */
  lemma {:induction false} TallyIsCount(a: seq<Cell>, want: Cell -> bool)
    ensures Tally(a, want, 0) == |Matching(a, want)|
  {
    if a != [] {
      var n := |a| - 1;
      var front := a[..n];
      assert a == front + [a[n]];
      TallyAppend(front, [a[n]], want, 0);
      TallyIsCount(front, want);
      var extra: set<int> := if want(a[n]) then {n} else {};
      assert Matching(a, want) == Matching(front, want) + extra by {
        forall k | k in Matching(a, want) ensures k in Matching(front, want) + extra {
          if k < n { assert front[k] == a[k]; }
        }
        forall k | k in Matching(front, want) ensures k in Matching(a, want) {
          assert front[k] == a[k];
        }
      }
      assert n !in Matching(front, want);
    }
  }

  /** `Cell.mineCounter`: the number of mined cells in `a`. */
  function MineCounter(a: seq<Cell>): (r: nat)
    ensures r == |set k | 0 <= k < |a| && IsAnyMineHere(a[k])|
    ensures r <= |a|
  {
    TallyIsCount(a, IsAnyMineHere);
    TallyBound(a, IsAnyMineHere, 0);
    assert Matching(a, IsAnyMineHere) == set k | 0 <= k < |a| && IsAnyMineHere(a[k]);
    Tally(a, IsAnyMineHere, 0)
  }

  /** `Cell.flagCounter`: the number of marked cells in `a`. */
  function FlagCounter(a: seq<Cell>): (r: nat)
    ensures r == |set k | 0 <= k < |a| && IsMarked(a[k])|
    ensures r <= |a|
  {
    TallyIsCount(a, IsMarked);
    TallyBound(a, IsMarked, 0);
    assert Matching(a, IsMarked) == set k | 0 <= k < |a| && IsMarked(a[k]);
    Tally(a, IsMarked, 0)
  }

  lemma {:induction false} TallyAdditive(a: seq<Cell>, b: seq<Cell>, want: Cell -> bool)
    ensures Tally(a + b, want, 0) == Tally(a, want, 0) + Tally(b, want, 0)
  {
    TallyAppend(a, b, want, 0);
    TallyFrom(b, want, Tally(a, want, 0));
  }

  /** The mine counter is additive over concatenation. */
  lemma MineCounterAppend(a: seq<Cell>, b: seq<Cell>)
    ensures MineCounter(a + b) == MineCounter(a) + MineCounter(b)
  {
    TallyAdditive(a, b, IsAnyMineHere);
  }

  /** The flag counter is additive over concatenation. */
  lemma FlagCounterAppend(a: seq<Cell>, b: seq<Cell>)
    ensures FlagCounter(a + b) == FlagCounter(a) + FlagCounter(b)
  {
    TallyAdditive(a, b, IsMarked);
  }

  /** Replacing one cell changes the flag count by the difference of the two
      cells' marks. */
  lemma FlagCounterUpdate(a: seq<Cell>, k: nat, c: Cell)
    requires k < |a|
    ensures FlagCounter(a[k := c]) == FlagCounter(a) - Bit(IsMarked(a[k])) + Bit(IsMarked(c))
  {
    var pre, post := a[..k], a[k + 1..];
    assert a == pre + [a[k]] + post;
    assert a[k := c] == pre + [c] + post;
    FlagCounterAppend(pre + [a[k]], post);
    FlagCounterAppend(pre, [a[k]]);
    FlagCounterAppend(pre + [c], post);
    FlagCounterAppend(pre, [c]);
    TallySingle(a[k], IsMarked);
    TallySingle(c, IsMarked);
  }
}
