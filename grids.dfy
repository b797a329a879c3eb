/** The minefield table of js/Field.js as a value: a grid of rows of cells,
    the clipped Moore neighbourhood, the adjacency numbers, the win condition
    and the closure the flood fill leaves behind. The class in minefield.dfy
    keeps its table as such a grid and states its contracts through these
    definitions. */
module Grids {
  import opened Cells

  /** A table position: row `y`, column `x`. */
  datatype Pos = Pos(y: int, x: int)

  /** `table.rows[y].cells[x]`. */
  type Grid = seq<seq<Cell>>

  function Max(a: int, b: int): int {
    if a < b then b else a
  }

  function Min(a: int, b: int): int {
    if a < b then a else b
  }

  predicate Rect(b: Grid, h: int, w: int) {
    |b| == h && forall i :: 0 <= i < h ==> |b[i]| == w
  }

  predicate InBounds(h: int, w: int, p: Pos) {
    0 <= p.y < h && 0 <= p.x < w
  }

  predicate Within(b: Grid, p: Pos) {
    0 <= p.y < |b| && 0 <= p.x < |b[p.y]|
  }

  function CellAt(b: Grid, p: Pos): Cell
    requires Within(b, p)
  {
    b[p.y][p.x]
  }

  predicate IsMine(b: Grid, p: Pos)
    requires Within(b, p)
  {
    IsAnyMineHere(CellAt(b, p))
  }

  function SetAt(b: Grid, p: Pos, c: Cell): Grid
    requires Within(b, p)
  {
    b[p.y := b[p.y][p.x := c]]
  }

  lemma SetAtShape(b: Grid, h: int, w: int, p: Pos, c: Cell)
    requires Rect(b, h, w) && InBounds(h, w, p)
    ensures Rect(SetAt(b, p, c), h, w)
    ensures forall i, j :: 0 <= i < h && 0 <= j < w ==>
      SetAt(b, p, c)[i][j] == if Pos(i, j) == p then c else b[i][j]
  {
  }

  lemma SetAtSame(b: Grid, p: Pos)
    requires Within(b, p)
    ensures SetAt(b, p, CellAt(b, p)) == b
  {
    assert b[p.y][p.x := b[p.y][p.x]] == b[p.y];
  }

  /** Two rectangular grids with the same cells are equal. */
  lemma GridExt(a: Grid, b: Grid, h: int, w: int)
    requires Rect(a, h, w) && Rect(b, h, w)
    requires forall i, j :: 0 <= i < h && 0 <= j < w ==> a[i][j] == b[i][j]
    ensures a == b
  {
    forall i | 0 <= i < h ensures a[i] == b[i] {
      assert forall j :: 0 <= j < w ==> a[i][j] == b[i][j];
    }
  }

  /* ---------------- Neighbourhood (cellNeighbours) ---------------- */

  /** `p` is one of the up to eight cells around `c` that lie on the table. */
  predicate Adjacent(h: int, w: int, c: Pos, p: Pos) {
    InBounds(h, w, p) && p != c && c.y - 1 <= p.y <= c.y + 1 && c.x - 1 <= p.x <= c.x + 1
  }

  /** The positions `(i, j)` for `jlo <= j < jend`, in order, leaving out `c`:
      what one pass of the inner loop of `cellNeighbours` pushes. */
  function RowPart(i: int, jlo: int, jend: int, c: Pos): seq<Pos>
    decreases jend - jlo
  {
    if jend <= jlo then []
    else RowPart(i, jlo, jend - 1, c) + (if Pos(i, jend - 1) == c then [] else [Pos(i, jend - 1)])
  }

  /** The rows `ilo <= i < iend` of such passes, in order. */
  function Block(ilo: int, iend: int, jlo: int, jend: int, c: Pos): seq<Pos>
    decreases iend - ilo
  {
    if iend <= ilo then [] else Block(ilo, iend - 1, jlo, jend, c) + RowPart(iend - 1, jlo, jend, c)
  }

  function RowLo(c: Pos): int { Max(c.y - 1, 0) }
  function RowEnd(h: int, c: Pos): int { Min(c.y + 1, h - 1) + 1 }
  function ColLo(c: Pos): int { Max(c.x - 1, 0) }
  function ColEnd(w: int, c: Pos): int { Min(c.x + 1, w - 1) + 1 }

  lemma {:induction false} RowPartMembers(i: int, jlo: int, jend: int, c: Pos, p: Pos)
    ensures p in RowPart(i, jlo, jend, c) <==> p.y == i && jlo <= p.x < jend && p != c
    decreases jend - jlo
  {
    if jlo < jend {
      RowPartMembers(i, jlo, jend - 1, c, p);
    }
  }

  lemma {:induction false} BlockMembers(ilo: int, iend: int, jlo: int, jend: int, c: Pos, p: Pos)
    ensures p in Block(ilo, iend, jlo, jend, c) <==> ilo <= p.y < iend && jlo <= p.x < jend && p != c
    decreases iend - ilo
  {
    if ilo < iend {
      BlockMembers(ilo, iend - 1, jlo, jend, c, p);
      RowPartMembers(iend - 1, jlo, jend, c, p);
    }
  }

  lemma NeighbourMembers(h: int, w: int, c: Pos)
    ensures forall p :: p in Block(RowLo(c), RowEnd(h, c), ColLo(c), ColEnd(w, c), c) <==> Adjacent(h, w, c, p)
  {
    forall p
      ensures p in Block(RowLo(c), RowEnd(h, c), ColLo(c), ColEnd(w, c), c) <==> Adjacent(h, w, c, p)
    {
      BlockMembers(RowLo(c), RowEnd(h, c), ColLo(c), ColEnd(w, c), c, p);
    }
  }

  /** `cellNeighbours(y, x)`, in the order its two loops visit the cells:
      exactly the cells on the table at row and column distance at most one
      from `c`, other than `c` itself. */
  function Neighbours(h: int, w: int, c: Pos): (r: seq<Pos>)
    ensures forall p :: p in r <==> Adjacent(h, w, c, p)
  {
    NeighbourMembers(h, w, c);
    Block(RowLo(c), RowEnd(h, c), ColLo(c), ColEnd(w, c), c)
  }

  predicate Distinct(s: seq<Pos>) {
    forall a, b :: 0 <= a < b < |s| ==> s[a] != s[b]
  }

  lemma DistinctAppend(s: seq<Pos>, t: seq<Pos>)
    requires Distinct(s) && Distinct(t)
    requires forall k :: 0 <= k < |s| ==> s[k] !in t
    ensures Distinct(s + t)
  {
    forall a, b | 0 <= a < b < |s + t| ensures (s + t)[a] != (s + t)[b] {
      if b >= |s| && a < |s| {
        assert (s + t)[a] == s[a] && (s + t)[b] == t[b - |s|];
      } else if a >= |s| {
        assert (s + t)[a] == t[a - |s|] && (s + t)[b] == t[b - |s|];
      }
    }
  }

  lemma {:induction false} RowPartDistinct(i: int, jlo: int, jend: int, c: Pos)
    ensures Distinct(RowPart(i, jlo, jend, c))
    decreases jend - jlo
  {
    if jlo < jend {
      var s, t := RowPart(i, jlo, jend - 1, c), if Pos(i, jend - 1) == c then [] else [Pos(i, jend - 1)];
      RowPartDistinct(i, jlo, jend - 1, c);
      forall k | 0 <= k < |s| ensures s[k] !in t {
        RowPartMembers(i, jlo, jend - 1, c, s[k]);
      }
      DistinctAppend(s, t);
    }
  }

  lemma {:induction false} BlockDistinct(ilo: int, iend: int, jlo: int, jend: int, c: Pos)
    ensures Distinct(Block(ilo, iend, jlo, jend, c))
    decreases iend - ilo
  {
    if ilo < iend {
      var s, t := Block(ilo, iend - 1, jlo, jend, c), RowPart(iend - 1, jlo, jend, c);
      BlockDistinct(ilo, iend - 1, jlo, jend, c);
      RowPartDistinct(iend - 1, jlo, jend, c);
      forall k | 0 <= k < |s| ensures s[k] !in t {
        BlockMembers(ilo, iend - 1, jlo, jend, c, s[k]);
        RowPartMembers(iend - 1, jlo, jend, c, s[k]);
      }
      DistinctAppend(s, t);
    }
  }

  /** No neighbour is listed twice. */
  lemma NeighboursDistinct(h: int, w: int, c: Pos)
    ensures Distinct(Neighbours(h, w, c))
  {
    BlockDistinct(RowLo(c), RowEnd(h, c), ColLo(c), ColEnd(w, c), c);
  }

  lemma {:induction false} RowPartLength(i: int, jlo: int, jend: int, c: Pos)
    requires jlo <= jend
    ensures |RowPart(i, jlo, jend, c)| == (jend - jlo) - Bit(i == c.y && jlo <= c.x < jend)
    decreases jend - jlo
  {
    if jlo < jend {
      RowPartLength(i, jlo, jend - 1, c);
    }
  }

  lemma {:induction false} BlockLength(ilo: int, iend: int, jlo: int, jend: int, c: Pos)
    requires ilo <= iend && jlo <= jend
    ensures |Block(ilo, iend, jlo, jend, c)| ==
      (iend - ilo) * (jend - jlo) - Bit(ilo <= c.y < iend && jlo <= c.x < jend)
    decreases iend - ilo
  {
    if ilo < iend {
      BlockLength(ilo, iend - 1, jlo, jend, c);
      RowPartLength(iend - 1, jlo, jend, c);
      assert (iend - ilo) * (jend - jlo) == (iend - 1 - ilo) * (jend - jlo) + (jend - jlo);
    }
  }

  /** How many rows (or columns) of the 3-wide window around `v` lie on a
      table of `n` rows (or columns). */
  function Span(v: int, n: int): int {
    Min(v + 1, n - 1) - Max(v - 1, 0) + 1
  }

  /** The neighbourhood is the clipped 3x3 window without its centre. */
  lemma NeighboursCount(h: int, w: int, c: Pos)
    requires InBounds(h, w, c)
    ensures |Neighbours(h, w, c)| == Span(c.y, h) * Span(c.x, w) - 1
  {
    BlockLength(RowLo(c), RowEnd(h, c), ColLo(c), ColEnd(w, c), c);
  }

  /** Three neighbours in a corner, five along an edge, eight inside. */
  lemma NeighboursByPlace(h: int, w: int, c: Pos)
    requires 2 <= h && 2 <= w && InBounds(h, w, c)
    ensures |Neighbours(h, w, c)| ==
      if (c.y == 0 || c.y == h - 1) && (c.x == 0 || c.x == w - 1) then 3
      else if c.y == 0 || c.y == h - 1 || c.x == 0 || c.x == w - 1 then 5
      else 8
  {
    NeighboursCount(h, w, c);
    var sy, sx := Span(c.y, h), Span(c.x, w);
    assert sy == if c.y == 0 || c.y == h - 1 then 2 else 3;
    assert sx == if c.x == 0 || c.x == w - 1 then 2 else 3;
  }

  lemma NeighboursAtMostEight(h: int, w: int, c: Pos)
    requires InBounds(h, w, c)
    ensures |Neighbours(h, w, c)| <= 8
  {
    NeighboursCount(h, w, c);
    var sy, sx := Span(c.y, h), Span(c.x, w);
    assert sy == 1 || sy == 2 || sy == 3;
    assert sx == 1 || sx == 2 || sx == 3;
    if sy == 1 {
    } else if sy == 2 {
    } else {
    }
  }

  /* ---------------- Counting mines among cells (mineCounter) ---------------- */

  predicate AllWithin(b: Grid, ps: seq<Pos>) {
    forall p :: p in ps ==> Within(b, p)
  }

  /** Positions inside the board are within the grid. */
  lemma InBoundsWithin(b: Grid, h: int, w: int, ps: seq<Pos>)
    requires Rect(b, h, w) && forall k :: 0 <= k < |ps| ==> InBounds(h, w, ps[k])
    ensures AllWithin(b, ps)
  {
    forall p | p in ps ensures Within(b, p) {
      var k :| 0 <= k < |ps| && ps[k] == p;
    }
  }

  /** The table cells at the given positions. */
  function Lookup(b: Grid, ps: seq<Pos>): (r: seq<Cell>)
    requires AllWithin(b, ps)
    ensures |r| == |ps|
  {
    if ps == [] then [] else Lookup(b, ps[..|ps| - 1]) + [CellAt(b, ps[|ps| - 1])]
  }

  /** `Field.mineCounter` over the cells at `ps`. */
  function MinesAmong(b: Grid, ps: seq<Pos>): (r: nat)
    requires AllWithin(b, ps)
    ensures r <= |ps|
  {
    MineCounter(Lookup(b, ps))
  }

  lemma MinesAmongSnoc(b: Grid, ps: seq<Pos>, q: Pos)
    requires AllWithin(b, ps) && Within(b, q)
    ensures AllWithin(b, ps + [q])
    ensures MinesAmong(b, ps + [q]) == MinesAmong(b, ps) + Bit(IsMine(b, q))
  {
    var s := ps + [q];
    assert s[..|s| - 1] == ps;
    MineCounterAppend(Lookup(b, ps), [CellAt(b, q)]);
    TallySingle(CellAt(b, q), IsAnyMineHere);
  }

  /** Over distinct positions the counter is the number of mined positions. */
  lemma {:induction false} MinesAmongCounts(b: Grid, ps: seq<Pos>)
    requires AllWithin(b, ps) && Distinct(ps)
    ensures MinesAmong(b, ps) == |set p | p in ps && IsMine(b, p)|
  {
    if ps != [] {
      var n := |ps| - 1;
      var front, q := ps[..n], ps[n];
      assert ps == front + [q];
      assert Distinct(front);
      MinesAmongCounts(b, front);
      MinesAmongSnoc(b, front, q);
      assert q !in front;
      var extra: set<Pos> := if IsMine(b, q) then {q} else {};
      assert (set p | p in ps && IsMine(b, p)) == (set p | p in front && IsMine(b, p)) + extra;
    }
  }

  /** Positions whose mine status agrees in two grids get the same count. */
  lemma {:induction false} MinesAmongAgree(b0: Grid, b1: Grid, ps: seq<Pos>)
    requires AllWithin(b0, ps) && AllWithin(b1, ps)
    requires forall p :: p in ps ==> IsMine(b0, p) == IsMine(b1, p)
    ensures MinesAmong(b0, ps) == MinesAmong(b1, ps)
  {
    if ps != [] {
      var n := |ps| - 1;
      var front, q := ps[..n], ps[n];
      assert ps == front + [q];
      MinesAmongAgree(b0, b1, front);
      MinesAmongSnoc(b0, front, q);
      MinesAmongSnoc(b1, front, q);
    }
  }

  /** The mined cells around `c`, found without the neighbour list. */
  ghost function MinesAround(b: Grid, h: int, w: int, c: Pos): set<Pos>
    requires Rect(b, h, w)
  {
    set i, j | c.y - 1 <= i <= c.y + 1 && c.x - 1 <= j <= c.x + 1
      && Adjacent(h, w, c, Pos(i, j)) && IsMine(b, Pos(i, j)) :: Pos(i, j)
  }

  lemma NeighbourMinesCount(b: Grid, h: int, w: int, c: Pos)
    requires Rect(b, h, w) && InBounds(h, w, c)
    ensures MinesAmong(b, Neighbours(h, w, c)) == |MinesAround(b, h, w, c)| <= 8
  {
    var ns := Neighbours(h, w, c);
    NeighboursDistinct(h, w, c);
    NeighboursAtMostEight(h, w, c);
    MinesAmongCounts(b, ns);
    assert (set p | p in ns && IsMine(b, p)) == MinesAround(b, h, w, c);
  }

  /* ---------------- Adjacency numbers (_placeNumbers) ---------------- */

  /** The number `_placeNumbers` writes into a safe cell at `p`. */
  predicate Numbered(b: Grid, h: int, w: int, p: Pos)
    requires Rect(b, h, w) && InBounds(h, w, p)
  {
    IsMine(b, p) || CellAt(b, p).info == Count(MinesAmong(b, Neighbours(h, w, p)))
  }

  predicate NumbersCorrect(b: Grid, h: int, w: int)
    requires Rect(b, h, w)
  {
    forall i, j {:trigger Numbered(b, h, w, Pos(i, j))} :: 0 <= i < h && 0 <= j < w ==> Numbered(b, h, w, Pos(i, j))
  }

  /** In a correctly numbered grid a safe cell holds the number of mines
      around it, which is at most eight. */
  lemma NumberMeaning(b: Grid, h: int, w: int, p: Pos)
    requires Rect(b, h, w) && InBounds(h, w, p) && NumbersCorrect(b, h, w) && !IsMine(b, p)
    ensures CellAt(b, p).info == Count(|MinesAround(b, h, w, p)|)
    ensures |MinesAround(b, h, w, p)| <= 8
  {
    assert Numbered(b, h, w, Pos(p.y, p.x));
    NeighbourMinesCount(b, h, w, p);
  }

  /** The cell `_placeNumbers` leaves at `p`: a mine stays as it is, a safe
      cell gets the count of mines among its neighbours. */
  function NumberCell(b: Grid, h: int, w: int, p: Pos): Cell
    requires Rect(b, h, w) && InBounds(h, w, p)
  {
    if IsMine(b, p) then CellAt(b, p)
    else Cell(Count(MinesAmong(b, Neighbours(h, w, p))), CellAt(b, p).kind)
  }

  /** The table `_placeNumbers` leaves behind. */
  function Numbering(b: Grid, h: nat, w: nat): (r: Grid)
    requires Rect(b, h, w)
    ensures Rect(r, h, w)
    ensures forall i, j {:trigger NumberCell(b, h, w, Pos(i, j))} ::
      0 <= i < h && 0 <= j < w ==> r[i][j] == NumberCell(b, h, w, Pos(i, j))
  {
    seq(h, i requires 0 <= i < h => seq(w, j requires 0 <= j < w => NumberCell(b, h, w, Pos(i, j))))
  }

  /** `b` is `b0` with the cells before `(i, j)` in reading order numbered:
      the state of `_placeNumbers`' loops. */
  predicate NumberedUpTo(b0: Grid, b: Grid, h: int, w: int, i: int, j: int)
    requires Rect(b0, h, w) && Rect(b, h, w)
  {
    forall r, s :: 0 <= r < h && 0 <= s < w ==>
      b[r][s] == if r < i || (r == i && s < j) then NumberCell(b0, h, w, Pos(r, s)) else b0[r][s]
  }

  /** Numbering the cell at `(i, j)` of a partly numbered table: a mine is
      skipped, a safe cell gets the count of mines among the positions
      `ns` around it. */
  lemma NumberStep(b0: Grid, b: Grid, h: nat, w: nat, i: int, j: int, ns: seq<Pos>, count: nat)
    requires Rect(b0, h, w) && Rect(b, h, w) && 0 <= i < h && 0 <= j < w
    requires NumberedUpTo(b0, b, h, w, i, j)
    requires ns == Neighbours(h, w, Pos(i, j)) && AllWithin(b, ns)
    requires !IsAnyMineHere(b[i][j]) ==> count == MinesAmong(b, ns)
    ensures var b' := if IsAnyMineHere(b[i][j]) then b else SetAt(b, Pos(i, j), Cell(Count(count), b[i][j].kind));
      Rect(b', h, w) && NumberedUpTo(b0, b', h, w, i, j + 1)
  {
    assert b[i][j] == b0[i][j];
    if !IsAnyMineHere(b[i][j]) {
      var c := Cell(Count(count), b[i][j].kind);
      SetAtShape(b, h, w, Pos(i, j), c);
      assert SameMines(b0, b, h, w) by {
        forall r, s | 0 <= r < h && 0 <= s < w ensures IsAnyMineHere(b[r][s]) == IsAnyMineHere(b0[r][s]) {
          assert b[r][s] == NumberCell(b0, h, w, Pos(r, s)) || b[r][s] == b0[r][s];
        }
      }
      MinesTransport(b0, b, h, w);
      assert c == NumberCell(b0, h, w, Pos(i, j));
    }
  }

  /** The loops' exit: every row numbered is the numbering. */
  lemma NumberedAll(b0: Grid, b: Grid, h: nat, w: nat)
    requires Rect(b0, h, w) && Rect(b, h, w) && NumberedUpTo(b0, b, h, w, h, 0)
    ensures b == Numbering(b0, h, w)
  {
    var r := Numbering(b0, h, w);
    forall i, j | 0 <= i < h && 0 <= j < w ensures b[i][j] == r[i][j] {
      assert r[i][j] == NumberCell(b0, h, w, Pos(i, j));
    }
    GridExt(b, r, h, w);
  }

  /** Numbering keeps every mine and every kind, and leaves each safe cell
      holding the number of mines around it. */
  lemma NumberingIsCorrect(b: Grid, h: nat, w: nat)
    requires Rect(b, h, w)
    ensures SameMines(b, Numbering(b, h, w), h, w)
    ensures MinedSet(Numbering(b, h, w), h, w) == MinedSet(b, h, w)
    ensures forall i, j :: 0 <= i < h && 0 <= j < w ==> Numbering(b, h, w)[i][j].kind == b[i][j].kind
    ensures NumbersCorrect(Numbering(b, h, w), h, w)
  {
    var r := Numbering(b, h, w);
    MinesTransport(b, r, h, w);
    forall i, j | 0 <= i < h && 0 <= j < w ensures Numbered(r, h, w, Pos(i, j)) {
      assert r[i][j] == NumberCell(b, h, w, Pos(i, j));
    }
  }

  /* ---------------- Whole-table sets and counts ---------------- */

  ghost function MinedSet(b: Grid, h: int, w: int): set<Pos>
    requires Rect(b, h, w)
  {
    set i, j | 0 <= i < h && 0 <= j < w && IsAnyMineHere(b[i][j]) :: Pos(i, j)
  }

  /** The cells that are covered or marked. */
  ghost function Unopened(b: Grid, h: int, w: int): set<Pos>
    requires Rect(b, h, w)
  {
    set i, j | 0 <= i < h && 0 <= j < w && b[i][j].kind != Opened :: Pos(i, j)
  }

  /** The number of marked cells: `flagCounter` over each row, summed. */
  function MarkedCount(b: Grid): nat {
    if b == [] then 0 else MarkedCount(b[..|b| - 1]) + FlagCounter(b[|b| - 1])
  }

  lemma {:induction false} MarkedCountSetAt(b: Grid, p: Pos, c: Cell)
    requires Within(b, p)
    ensures MarkedCount(SetAt(b, p, c)) == MarkedCount(b) - Bit(IsMarked(CellAt(b, p))) + Bit(IsMarked(c))
  {
    var n := |b| - 1;
    var b' := SetAt(b, p, c);
    if p.y == n {
      assert b'[..n] == b[..n];
      FlagCounterUpdate(b[n], p.x, c);
    } else {
      assert b'[..n] == SetAt(b[..n], p, c);
      MarkedCountSetAt(b[..n], p, c);
    }
  }

  /** A table without marks has a mark count of zero. */
  lemma {:induction false} NoMarksCount(b: Grid)
    requires forall i, j :: 0 <= i < |b| && 0 <= j < |b[i]| ==> !IsMarked(b[i][j])
    ensures MarkedCount(b) == 0
  {
    if b != [] {
      var n := |b| - 1;
      NoMarksCount(b[..n]);
      assert (set k | 0 <= k < |b[n]| && IsMarked(b[n][k])) == {};
    }
  }

  predicate NoMineOpened(b: Grid, h: int, w: int)
    requires Rect(b, h, w)
  {
    forall i, j :: 0 <= i < h && 0 <= j < w ==> IsAnyMineHere(b[i][j]) ==> b[i][j].kind != Opened
  }

  /* ---------------- Win condition (_doesPlayerWin) ---------------- */

  /** Not a safe cell that is still covered or marked. */
  predicate Cleared(c: Cell) {
    !((c.kind == Covered || c.kind == Marked) && !IsAnyMineHere(c))
  }

  predicate Wins(b: Grid, h: int, w: int)
    requires Rect(b, h, w)
  {
    forall i, j :: 0 <= i < h && 0 <= j < w ==> Cleared(b[i][j])
  }

  /** When no mine is open, the player has won exactly when the cells left
      closed are the mined ones. */
  lemma WinsIffOnlyMinesClosed(b: Grid, h: int, w: int)
    requires Rect(b, h, w) && NoMineOpened(b, h, w)
    ensures Wins(b, h, w) <==> Unopened(b, h, w) == MinedSet(b, h, w)
  {
    if Wins(b, h, w) {
      forall p | p in Unopened(b, h, w) ensures p in MinedSet(b, h, w) {
        assert Cleared(b[p.y][p.x]);
      }
      forall p | p in MinedSet(b, h, w) ensures p in Unopened(b, h, w) {
        assert b[p.y][p.x].kind != Opened;
      }
    }
    if Unopened(b, h, w) == MinedSet(b, h, w) {
      forall i, j | 0 <= i < h && 0 <= j < w ensures Cleared(b[i][j]) {
        if b[i][j].kind != Opened {
          assert Pos(i, j) in Unopened(b, h, w);
        }
      }
    }
  }

  /* ---------------- Flood-fill closure (_openCell, _openNeighbours) ---------------- */

  /** Every neighbour of `p` is a mine or opened. */
  predicate NeighboursSettled(b: Grid, h: int, w: int, p: Pos)
    requires Rect(b, h, w)
  {
    forall q :: q in Neighbours(h, w, p) ==> IsMine(b, q) || CellAt(b, q).kind == Opened
  }

  /** `q` is left alone by the flood: it is a mine or already opened. */
  predicate Done(b: Grid, h: int, w: int, q: Pos)
    requires Rect(b, h, w) && InBounds(h, w, q)
  {
    IsMine(b, q) || CellAt(b, q).kind == Opened
  }

  /** Opening cells keeps the done ones done: with `qs[k]` done as well, the
      first `k + 1` positions are. */
  lemma GrownKeepsDone(b0: Grid, b1: Grid, h: int, w: int, qs: seq<Pos>, k: int)
    requires Rect(b0, h, w) && Rect(b1, h, w) && Grown(b0, b1, h, w)
    requires forall m :: 0 <= m < |qs| ==> InBounds(h, w, qs[m])
    requires 0 <= k < |qs| && forall m :: 0 <= m < k ==> Done(b0, h, w, qs[m])
    requires Done(b1, h, w, qs[k])
    ensures forall m :: 0 <= m < k + 1 ==> Done(b1, h, w, qs[m])
  {
    forall m | 0 <= m < k + 1 ensures Done(b1, h, w, qs[m]) {
      if m < k {
        var q := qs[m];
        assert Done(b0, h, w, q);
        assert b1[q.y][q.x] == b0[q.y][q.x] || b1[q.y][q.x] == Cell(b0[q.y][q.x].info, Opened);
      }
    }
  }

  /** The neighbours of `p` are settled exactly when each of them is done. */
  lemma SettledIsAllDone(b: Grid, h: int, w: int, p: Pos, k: int)
    requires Rect(b, h, w) && 0 <= k <= |Neighbours(h, w, p)|
    ensures forall m :: 0 <= m < |Neighbours(h, w, p)| ==> InBounds(h, w, Neighbours(h, w, p)[m])
    ensures NeighboursSettled(b, h, w, p) ==> forall m :: 0 <= m < k ==> Done(b, h, w, Neighbours(h, w, p)[m])
    ensures k == |Neighbours(h, w, p)| && (forall m :: 0 <= m < k ==> Done(b, h, w, Neighbours(h, w, p)[m])) ==>
      NeighboursSettled(b, h, w, p)
  {
    var ns := Neighbours(h, w, p);
    forall m | 0 <= m < |ns| ensures InBounds(h, w, ns[m]) {
      assert ns[m] in ns;
    }
    if NeighboursSettled(b, h, w, p) {
      forall m | 0 <= m < k ensures Done(b, h, w, ns[m]) {
        assert ns[m] in ns;
      }
    }
    if k == |ns| && forall m :: 0 <= m < k ==> Done(b, h, w, ns[m]) {
      forall q | q in ns ensures IsMine(b, q) || CellAt(b, q).kind == Opened {
        var m :| 0 <= m < |ns| && ns[m] == q;
        assert Done(b, h, w, ns[m]);
      }
    }
  }

  /** An opened cell with the empty number has had its neighbours opened. */
  predicate Settled(b: Grid, h: int, w: int, p: Pos)
    requires Rect(b, h, w) && InBounds(h, w, p)
  {
    CellAt(b, p) == Cell(Count(0), Opened) ==> NeighboursSettled(b, h, w, p)
  }

  /** Every cell outside `pending` is settled. */
  predicate ClosedExcept(b: Grid, h: int, w: int, pending: set<Pos>)
    requires Rect(b, h, w)
  {
    forall i, j {:trigger Settled(b, h, w, Pos(i, j))} ::
      0 <= i < h && 0 <= j < w && Pos(i, j) !in pending ==> Settled(b, h, w, Pos(i, j))
  }

  /** Once `p` is settled it no longer needs to be pending. */
  lemma CloseOne(b: Grid, h: int, w: int, pending: set<Pos>, p: Pos)
    requires Rect(b, h, w) && InBounds(h, w, p)
    requires ClosedExcept(b, h, w, pending + {p}) && Settled(b, h, w, p)
    ensures ClosedExcept(b, h, w, pending)
  {
    forall i, j | 0 <= i < h && 0 <= j < w && Pos(i, j) !in pending
      ensures Settled(b, h, w, Pos(i, j))
    {
      if Pos(i, j) != p {
        assert Pos(i, j) !in pending + {p};
      }
    }
  }

  /** After a win every safe cell is open, so nothing is left to settle. */
  lemma WinsIsClosed(b: Grid, h: int, w: int, pending: set<Pos>)
    requires Rect(b, h, w) && Wins(b, h, w)
    ensures ClosedExcept(b, h, w, pending)
  {
    forall i, j | 0 <= i < h && 0 <= j < w && Pos(i, j) !in pending
      ensures Settled(b, h, w, Pos(i, j))
    {
      forall q | q in Neighbours(h, w, Pos(i, j)) ensures IsMine(b, q) || CellAt(b, q).kind == Opened {
        assert Cleared(b[q.y][q.x]);
      }
    }
  }

  /** `b1` differs from `b0` only in safe cells that have been opened. */
  predicate Grown(b0: Grid, b1: Grid, h: int, w: int)
    requires Rect(b0, h, w) && Rect(b1, h, w)
  {
    forall i, j :: 0 <= i < h && 0 <= j < w ==>
      b1[i][j] == b0[i][j] || (b1[i][j] == Cell(b0[i][j].info, Opened) && !IsAnyMineHere(b0[i][j]))
  }

  /** Opening cells only shrinks the unopened set. */
  lemma GrownUnopened(b0: Grid, b1: Grid, h: int, w: int)
    requires Rect(b0, h, w) && Rect(b1, h, w) && Grown(b0, b1, h, w)
    ensures Unopened(b1, h, w) <= Unopened(b0, h, w)
  {
    forall p | p in Unopened(b1, h, w) ensures p in Unopened(b0, h, w) {
      assert b1[p.y][p.x] == b0[p.y][p.x];
    }
  }

  lemma GrownTrans(b0: Grid, b1: Grid, b2: Grid, h: int, w: int)
    requires Rect(b0, h, w) && Rect(b1, h, w) && Rect(b2, h, w)
    requires Grown(b0, b1, h, w) && Grown(b1, b2, h, w)
    ensures Grown(b0, b2, h, w)
  {
    forall i, j | 0 <= i < h && 0 <= j < w
      ensures b2[i][j] == b0[i][j] || (b2[i][j] == Cell(b0[i][j].info, Opened) && !IsAnyMineHere(b0[i][j]))
    {
      assert b1[i][j] == b0[i][j] || (b1[i][j] == Cell(b0[i][j].info, Opened) && !IsAnyMineHere(b0[i][j]));
    }
  }

  predicate SameInfo(b0: Grid, b1: Grid, h: int, w: int)
    requires Rect(b0, h, w) && Rect(b1, h, w)
  {
    forall i, j :: 0 <= i < h && 0 <= j < w ==> b1[i][j].info == b0[i][j].info
  }

  predicate SameMines(b0: Grid, b1: Grid, h: int, w: int)
    requires Rect(b0, h, w) && Rect(b1, h, w)
  {
    forall i, j :: 0 <= i < h && 0 <= j < w ==> IsAnyMineHere(b1[i][j]) == IsAnyMineHere(b0[i][j])
  }

  /** Grids with the same mines have the same mined set and the same counts
      around every cell. */
  lemma MinesTransport(b0: Grid, b1: Grid, h: int, w: int)
    requires Rect(b0, h, w) && Rect(b1, h, w) && SameMines(b0, b1, h, w)
    ensures MinedSet(b1, h, w) == MinedSet(b0, h, w)
    ensures forall i, j :: 0 <= i < h && 0 <= j < w ==>
      MinesAmong(b1, Neighbours(h, w, Pos(i, j))) == MinesAmong(b0, Neighbours(h, w, Pos(i, j)))
  {
    forall i, j | 0 <= i < h && 0 <= j < w
      ensures MinesAmong(b1, Neighbours(h, w, Pos(i, j))) == MinesAmong(b0, Neighbours(h, w, Pos(i, j)))
    {
      var ns := Neighbours(h, w, Pos(i, j));
      forall q | q in ns ensures IsMine(b0, q) == IsMine(b1, q) {
        assert IsAnyMineHere(b1[q.y][q.x]) == IsAnyMineHere(b0[q.y][q.x]);
      }
      MinesAmongAgree(b0, b1, ns);
    }
  }

  /** What the table keeps when only kinds change. */
  lemma InfoTransport(b0: Grid, b1: Grid, h: int, w: int)
    requires Rect(b0, h, w) && Rect(b1, h, w) && SameInfo(b0, b1, h, w)
    ensures SameMines(b0, b1, h, w)
    ensures MinedSet(b1, h, w) == MinedSet(b0, h, w)
    ensures NumbersCorrect(b0, h, w) ==> NumbersCorrect(b1, h, w)
  {
    MinesTransport(b0, b1, h, w);
    if NumbersCorrect(b0, h, w) {
      forall i, j | 0 <= i < h && 0 <= j < w ensures Numbered(b1, h, w, Pos(i, j)) {
        assert Numbered(b0, h, w, Pos(i, j));
      }
    }
  }

  /** Opening one safe cell: it leaves the table grown, takes the cell out of
      the unopened set, lowers the mark count if the cell was marked, and
      leaves every other cell as settled as it was. */
  lemma OpenStep(b: Grid, h: int, w: int, p: Pos, pending: set<Pos>)
    requires Rect(b, h, w) && InBounds(h, w, p) && !IsMine(b, p)
    ensures Rect(SetAt(b, p, Cell(CellAt(b, p).info, Opened)), h, w)
    ensures var b' := SetAt(b, p, Cell(CellAt(b, p).info, Opened));
      && Grown(b, b', h, w)
      && SameInfo(b, b', h, w)
      && MinedSet(b', h, w) == MinedSet(b, h, w)
      && (NumbersCorrect(b, h, w) ==> NumbersCorrect(b', h, w))
      && Unopened(b', h, w) == Unopened(b, h, w) - {p}
      && (NoMineOpened(b, h, w) ==> NoMineOpened(b', h, w))
      && MarkedCount(b') == MarkedCount(b) - Bit(IsMarked(CellAt(b, p)))
      && (ClosedExcept(b, h, w, pending) ==> ClosedExcept(b', h, w, pending + {p}))
  {
    var b' := SetAt(b, p, Cell(CellAt(b, p).info, Opened));
    SetAtShape(b, h, w, p, Cell(CellAt(b, p).info, Opened));
    InfoTransport(b, b', h, w);
    MarkedCountSetAt(b, p, Cell(CellAt(b, p).info, Opened));
    assert Unopened(b', h, w) == Unopened(b, h, w) - {p};
    if ClosedExcept(b, h, w, pending) {
      forall i, j | 0 <= i < h && 0 <= j < w && Pos(i, j) !in pending + {p}
        ensures Settled(b', h, w, Pos(i, j))
      {
        OpenKeepsSettled(b, h, w, p, Pos(i, j));
      }
    }
  }

  /** A settled cell other than the one opened stays settled. */
  lemma OpenKeepsSettled(b: Grid, h: int, w: int, p: Pos, q: Pos)
    requires Rect(b, h, w) && InBounds(h, w, p) && InBounds(h, w, q) && q != p
    requires Settled(b, h, w, q)
    ensures Rect(SetAt(b, p, Cell(CellAt(b, p).info, Opened)), h, w)
    ensures Settled(SetAt(b, p, Cell(CellAt(b, p).info, Opened)), h, w, q)
  {
    var b' := SetAt(b, p, Cell(CellAt(b, p).info, Opened));
    SetAtShape(b, h, w, p, Cell(CellAt(b, p).info, Opened));
    assert CellAt(b', q) == CellAt(b, q);
    if CellAt(b', q) == Cell(Count(0), Opened) {
      forall r | r in Neighbours(h, w, q) ensures IsMine(b', r) || CellAt(b', r).kind == Opened {
        assert IsMine(b, r) || CellAt(b, r).kind == Opened;
      }
    }
  }

  /* ---------------- Flag toggling (_setFlag) ---------------- */

  /** The new `data-type` after a right click. */
  function FlagToggle(k: Kind): Kind {
    match k
    case Covered => Marked
    case Marked => Covered
    case Opened => Opened
  }

  /** The change of `_flags` after a right click. */
  function FlagDelta(k: Kind): int {
    match k
    case Covered => 1
    case Marked => -1
    case Opened => 0
  }

  function ToggleAt(b: Grid, p: Pos): Grid
    requires Within(b, p)
  {
    SetAt(b, p, Cell(CellAt(b, p).info, FlagToggle(CellAt(b, p).kind)))
  }

  /** Two right clicks on the same cell restore the table and the counter. */
  lemma ToggleTwice(b: Grid, p: Pos)
    requires Within(b, p)
    ensures Within(ToggleAt(b, p), p)
    ensures ToggleAt(ToggleAt(b, p), p) == b
    ensures FlagDelta(CellAt(b, p).kind) + FlagDelta(CellAt(ToggleAt(b, p), p).kind) == 0
  {
    var b' := ToggleAt(b, p);
    assert b'[p.y] == b[p.y][p.x := Cell(CellAt(b, p).info, FlagToggle(CellAt(b, p).kind))];
    assert ToggleAt(b', p)[p.y] == b[p.y];
  }

  /** The counter moves exactly as the number of marked cells does. */
  lemma ToggleCounts(b: Grid, p: Pos)
    requires Within(b, p)
    ensures MarkedCount(ToggleAt(b, p)) == MarkedCount(b) + FlagDelta(CellAt(b, p).kind)
  {
    MarkedCountSetAt(b, p, Cell(CellAt(b, p).info, FlagToggle(CellAt(b, p).kind)));
  }

  /** A right click keeps everything the flood fill relies on. */
  lemma FlagStep(b: Grid, h: int, w: int, p: Pos, pending: set<Pos>)
    requires Rect(b, h, w) && InBounds(h, w, p)
    ensures Rect(ToggleAt(b, p), h, w)
    ensures var b' := ToggleAt(b, p);
      && SameInfo(b, b', h, w)
      && MinedSet(b', h, w) == MinedSet(b, h, w)
      && (NumbersCorrect(b, h, w) ==> NumbersCorrect(b', h, w))
      && Unopened(b', h, w) == Unopened(b, h, w)
      && (NoMineOpened(b, h, w) ==> NoMineOpened(b', h, w))
      && (ClosedExcept(b, h, w, pending) ==> ClosedExcept(b', h, w, pending))
      && (Wins(b, h, w) <==> Wins(b', h, w))
  {
    var c := Cell(CellAt(b, p).info, FlagToggle(CellAt(b, p).kind));
    var b' := ToggleAt(b, p);
    SetAtShape(b, h, w, p, c);
    InfoTransport(b, b', h, w);
    assert Unopened(b', h, w) == Unopened(b, h, w);
    if ClosedExcept(b, h, w, pending) {
      forall i, j | 0 <= i < h && 0 <= j < w && Pos(i, j) !in pending
        ensures Settled(b', h, w, Pos(i, j))
      {
        ToggleKeepsSettled(b, h, w, p, Pos(i, j));
      }
    }
    if Wins(b, h, w) {
      forall i, j | 0 <= i < h && 0 <= j < w ensures Cleared(b'[i][j]) {
        assert Cleared(b[i][j]);
      }
    }
    if Wins(b', h, w) {
      forall i, j | 0 <= i < h && 0 <= j < w ensures Cleared(b[i][j]) {
        assert Cleared(b'[i][j]);
      }
    }
  }

  /** A right click leaves every settled cell settled: it opens nothing and
      closes nothing. */
  lemma ToggleKeepsSettled(b: Grid, h: int, w: int, p: Pos, q: Pos)
    requires Rect(b, h, w) && InBounds(h, w, p) && InBounds(h, w, q)
    requires Settled(b, h, w, q)
    ensures Rect(ToggleAt(b, p), h, w)
    ensures Settled(ToggleAt(b, p), h, w, q)
  {
    var b' := ToggleAt(b, p);
    SetAtShape(b, h, w, p, Cell(CellAt(b, p).info, FlagToggle(CellAt(b, p).kind)));
    if CellAt(b', q) == Cell(Count(0), Opened) {
      assert CellAt(b, q) == CellAt(b', q);
      forall r | r in Neighbours(h, w, q) ensures IsMine(b', r) || CellAt(b', r).kind == Opened {
        assert IsMine(b, r) || CellAt(b, r).kind == Opened;
      }
    }
  }

  /* ---------------- Mine placement (_placeMines) ---------------- */

  /** The distinct positions in a sequence of draws. */
  ghost function Elems(s: seq<Pos>): set<Pos> {
    set p | p in s
  }

  /** `b` is `b0` with mines written over some of its cells, each keeping
      its kind: what `_placeMines` leaves on a table without mines. */
  predicate MinedFrom(b0: Grid, b: Grid, h: int, w: int)
    requires Rect(b0, h, w) && Rect(b, h, w)
  {
    forall i, j :: 0 <= i < h && 0 <= j < w ==>
      b[i][j] == if IsAnyMineHere(b[i][j]) then Cell(Mine, b0[i][j].kind) else b0[i][j]
  }

  lemma MinedFromStep(b0: Grid, b: Grid, h: int, w: int, p: Pos)
    requires Rect(b0, h, w) && Rect(b, h, w) && InBounds(h, w, p) && MinedFrom(b0, b, h, w)
    ensures Rect(SetAt(b, p, Cell(Mine, CellAt(b, p).kind)), h, w)
    ensures MinedFrom(b0, SetAt(b, p, Cell(Mine, CellAt(b, p).kind)), h, w)
  {
    SetAtShape(b, h, w, p, Cell(Mine, CellAt(b, p).kind));
  }

  /** A table where every cell is covered has no opened mine, no mark, and
      no opened cell whose neighbours are waiting to be opened. */
  lemma CoveredTable(b: Grid, h: int, w: int)
    requires Rect(b, h, w)
    requires forall i, j :: 0 <= i < h && 0 <= j < w ==> b[i][j].kind == Covered
    ensures NoMineOpened(b, h, w)
    ensures MarkedCount(b) == 0
    ensures ClosedExcept(b, h, w, {})
  {
    NoMarksCount(b);
  }

  lemma {:induction false} SubsetCard(a: set<Pos>, b: set<Pos>)
    requires a <= b
    ensures |a| <= |b|
  {
    if a != {} {
      var p :| p in a;
      SubsetCard(a - {p}, b - {p});
    }
  }

  /** A table without any mine has an empty mined set. */
  lemma NoMines(b: Grid, h: int, w: int)
    requires Rect(b, h, w)
    requires forall i, j :: 0 <= i < h && 0 <= j < w ==> !IsAnyMineHere(b[i][j])
    ensures MinedSet(b, h, w) == {}
  {
  }

  /** The table `_renderField` draws: every cell covered, none mined yet. */
  function Blank(h: nat, w: nat): (b: Grid)
    ensures Rect(b, h, w)
    ensures forall i, j :: 0 <= i < h && 0 <= j < w ==> b[i][j] == Cell(Count(0), Covered)
  {
    seq(h, i => seq(w, j => Cell(Count(0), Covered)))
  }

  lemma BlankHasNoMines(h: nat, w: nat)
    ensures MinedSet(Blank(h, w), h, w) == {}
  {
    NoMines(Blank(h, w), h, w);
  }

  /** Numbering a freshly mined blank table gives a table that is covered
      everywhere, correctly numbered, free of marks and with nothing left to
      flood. */
  lemma FreshTable(b0: Grid, b1: Grid, t: Grid, h: nat, w: nat)
    requires Rect(b0, h, w) && Rect(b1, h, w)
    requires forall i, j :: 0 <= i < h && 0 <= j < w ==> b0[i][j].kind == Covered
    requires MinedFrom(b0, b1, h, w) && t == Numbering(b1, h, w)
    ensures Rect(t, h, w)
    ensures MinedSet(t, h, w) == MinedSet(b1, h, w)
    ensures NumbersCorrect(t, h, w)
    ensures NoMineOpened(t, h, w)
    ensures MarkedCount(t) == 0
    ensures ClosedExcept(t, h, w, {})
    ensures forall i, j :: 0 <= i < h && 0 <= j < w ==> t[i][j].kind == Covered
  {
    NumberingIsCorrect(b1, h, w);
    forall i, j | 0 <= i < h && 0 <= j < w ensures t[i][j].kind == Covered {
      assert b1[i][j].kind == b0[i][j].kind;
    }
    CoveredTable(t, h, w);
  }

  lemma MineStep(b: Grid, h: int, w: int, p: Pos)
    requires Rect(b, h, w) && InBounds(h, w, p)
    ensures Rect(SetAt(b, p, Cell(Mine, CellAt(b, p).kind)), h, w)
    ensures MinedSet(SetAt(b, p, Cell(Mine, CellAt(b, p).kind)), h, w) == MinedSet(b, h, w) + {p}
  {
    SetAtShape(b, h, w, p, Cell(Mine, CellAt(b, p).kind));
  }

  /** One draw of `_placeMines`: the draw `cs[k]` is mined unless it already
      is, and the mines are then exactly the draws so far. */
  lemma DrawStep(b0: Grid, b: Grid, h: int, w: int, cs: seq<Pos>, k: int)
    requires Rect(b0, h, w) && Rect(b, h, w) && 0 <= k < |cs| && InBounds(h, w, cs[k])
    requires MinedFrom(b0, b, h, w) && MinedSet(b, h, w) == Elems(cs[..k])
    ensures var p := cs[k];
      var b' := if IsAnyMineHere(CellAt(b, p)) then b else SetAt(b, p, Cell(Mine, CellAt(b, p).kind));
      && Rect(b', h, w) && MinedFrom(b0, b', h, w)
      && MinedSet(b', h, w) == Elems(cs[..k + 1])
      && |MinedSet(b', h, w)| == |MinedSet(b, h, w)| + (if IsAnyMineHere(CellAt(b, p)) then 0 else 1)
  {
    var p := cs[k];
    assert cs[..k + 1] == cs[..k] + [p];
    assert Elems(cs[..k + 1]) == Elems(cs[..k]) + {p};
    if IsAnyMineHere(CellAt(b, p)) {
      assert p in MinedSet(b, h, w);
    } else {
      assert p !in MinedSet(b, h, w);
      MineStep(b, h, w, p);
      MinedFromStep(b0, b, h, w, p);
    }
  }
}
