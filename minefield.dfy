/** The minefield object (js/Field.js): a table of cells updated in place by
    clicks, with the mine counter `_flags` and the two listeners that
    `_endOfGame` removes. */
module Minefield {
  import opened Cells
  import opened Grids

  /** Whether the table still listens to clicks. `_endOfGame` removes both
      listeners and reports how the game ended. */
  datatype Status = Playing | GameOver | Victory

  class Field {
    const height: nat
    const width: nat
    const numberOfMines: nat
    /** `this._table`: its rows of cells, each cell's `data-info` and
        `data-type`. */
    var table: Grid
    /** `this._flags`: right clicks that marked, minus right clicks that unmarked. */
    var flags: int
    var status: Status
    /** Marked cells later opened by a click: they stay counted in `flags`. */
    ghost var openedMarks: nat

    /** What every click keeps: no mine is opened, the mines are as many as
        configured, every safe cell holds its number, a victory is a won
        table, and `flags` counts the marks on the table plus the marked
        cells that were opened since. */
    ghost predicate Core()
      reads this
    {
      && Rect(table, height, width)
      && NoMineOpened(table, height, width)
      && |MinedSet(table, height, width)| == numberOfMines
      && NumbersCorrect(table, height, width)
      && (status == Victory ==> Wins(table, height, width))
      && flags == MarkedCount(table) + openedMarks
    }

    /** `Core` and the flood fill's closure: every opened empty cell outside
        `pending` has all its neighbours opened or mined. */
    ghost predicate Inv(pending: set<Pos>)
      reads this
    {
      Core() && ClosedExcept(table, height, width, pending)
    }

    ghost predicate Valid()
      reads this
    {
      Inv({})
    }

    /** Writes one cell of the table. */
    method Store(p: Pos, c: Cell)
      requires Rect(table, height, width) && InBounds(height, width, p)
      modifies this`table
      ensures Rect(table, height, width)
      ensures table == SetAt(old(table), p, c)
    {
      SetAtShape(table, height, width, p, c);
      table := SetAt(table, p, c);
    }

    /** `new Field(options)`: renders a covered table, places the mines at the
        first `numberOfMines` distinct positions of `candidates` (the draws of
        `Math.random`), then the numbers. */
    constructor (height: nat, width: nat, numberOfMines: nat, candidates: seq<Pos>)
      requires 1 <= height && 1 <= width && numberOfMines <= height * width
      requires forall k :: 0 <= k < |candidates| ==> InBounds(height, width, candidates[k])
      requires numberOfMines <= |Elems(candidates)|
      ensures Valid()
      ensures this.height == height && this.width == width && this.numberOfMines == numberOfMines
      ensures |MinedSet(table, height, width)| == numberOfMines
      ensures MinedSet(table, height, width) <= Elems(candidates)
      ensures exists u :: 0 <= u <= |candidates| && MinedSet(table, height, width) == Elems(candidates[..u])
      ensures NumbersCorrect(table, height, width)
      ensures forall i, j :: 0 <= i < height && 0 <= j < width ==> table[i][j].kind == Covered
      ensures flags == 0 && status == Playing
    {
      this.height := height;
      this.width := width;
      this.numberOfMines := numberOfMines;
      table := Blank(height, width);
      flags := 0;
      status := Playing;
      openedMarks := 0;
      new;
      BlankHasNoMines(height, width);
      var used := PlaceMines(candidates);
      ghost var mined := table;
      PlaceNumbers();
      FreshTable(Blank(height, width), mined, table, height, width);
    }

    /** `width`, `height`, `numberOfMines` and `flags` getters: the counter is
        never below the number of marks on the table. */
    function Flags(): (r: int)
      reads this
      requires Valid()
      ensures r >= MarkedCount(table) >= 0
      ensures r == MarkedCount(table) + openedMarks
    {
      flags
    }

    /** `_showMinesLeft`: the indicator never exceeds the mines not yet marked. */
    function MinesLeft(): (r: int)
      reads this
      requires Valid()
      ensures r <= numberOfMines - MarkedCount(table)
    {
      numberOfMines - flags
    }

    /** `isAnyMineHere(y, x)`. */
    function IsAnyMineHere(y: int, x: int): (r: bool)
      reads this
      requires Rect(table, height, width) && InBounds(height, width, Pos(y, x))
      ensures r <==> IsMine(table, Pos(y, x))
    {
      Cells.IsAnyMineHere(table[y][x])
    }

    /** `mineCounter(array)`: for distinct positions, the number of them that
        hold a mine. */
    function MineCounter(ps: seq<Pos>): (r: nat)
      reads this
      requires Rect(table, height, width) && forall k :: 0 <= k < |ps| ==> InBounds(height, width, ps[k])
      ensures AllWithin(table, ps) && r == MinesAmong(table, ps) && r <= |ps|
      ensures Distinct(ps) ==> r == |set p | p in ps && IsMine(table, p)|
    {
      InBoundsWithin(table, height, width, ps);
      var r := Cells.MineCounter(Lookup(table, ps));
      if Distinct(ps) then MinesAmongCounts(table, ps); r else r
    }

    /** `cellNeighbours(y, x)`: the cells around `(y, x)` in reading order,
        each once. */
    method CellNeighbours(y: int, x: int) returns (neighbours: seq<Pos>)
      ensures neighbours == Neighbours(height, width, Pos(y, x))
      ensures forall p :: p in neighbours <==> Adjacent(height, width, Pos(y, x), p)
      ensures forall k :: 0 <= k < |neighbours| ==> InBounds(height, width, neighbours[k])
      ensures Distinct(neighbours)
    {
      var c := Pos(y, x);
      neighbours := [];
      var i := Max(y - 1, 0);
      while i <= Min(y + 1, height - 1)
        invariant RowLo(c) <= i <= Max(RowLo(c), RowEnd(height, c))
        invariant neighbours == Block(RowLo(c), i, ColLo(c), ColEnd(width, c), c)
        decreases RowEnd(height, c) - i
      {
        var j := Max(x - 1, 0);
        while j <= Min(x + 1, width - 1)
          invariant ColLo(c) <= j <= Max(ColLo(c), ColEnd(width, c))
          invariant neighbours == Block(RowLo(c), i, ColLo(c), ColEnd(width, c), c) + RowPart(i, ColLo(c), j, c)
          decreases ColEnd(width, c) - j
        {
          if !(i == y && j == x) {
            neighbours := neighbours + [Pos(i, j)];
          }
          j := j + 1;
        }
        i := i + 1;
      }
      NeighboursDistinct(height, width, c);
      forall k | 0 <= k < |neighbours| ensures InBounds(height, width, neighbours[k]) {
        assert neighbours[k] in neighbours;
      }
    }

    /** `_placeMines`: walks the draws, mining each position not mined yet,
        until `numberOfMines` mines are down or the draws run out. */
    method PlaceMines(candidates: seq<Pos>) returns (used: nat)
      requires Rect(table, height, width)
      requires forall k :: 0 <= k < |candidates| ==> InBounds(height, width, candidates[k])
      requires MinedSet(table, height, width) == {}
      modifies this`table
      ensures Rect(table, height, width)
      ensures used <= |candidates|
      ensures MinedFrom(old(table), table, height, width)
      ensures MinedSet(table, height, width) == Elems(candidates[..used])
      ensures |MinedSet(table, height, width)| == Min(numberOfMines, |Elems(candidates)|)
    {
      ghost var b0 := table;
      var i := 1;
      used := 0;
      while i <= numberOfMines && used < |candidates|
        invariant Rect(table, height, width)
        invariant used <= |candidates|
        invariant MinedFrom(b0, table, height, width)
        invariant MinedSet(table, height, width) == Elems(candidates[..used])
        invariant i - 1 == |MinedSet(table, height, width)| <= numberOfMines
      {
        var p := candidates[used];
        DrawStep(b0, table, height, width, candidates, used);
        if !IsAnyMineHere(p.y, p.x) {
          Store(p, Cell(Mine, table[p.y][p.x].kind));
          i := i + 1;
        }
        used := used + 1;
      }
      SubsetCard(Elems(candidates[..used]), Elems(candidates));
      if used == |candidates| {
        assert candidates[..used] == candidates;
      }
    }

    /** `_placeNumbers`: every safe cell gets the number of mines around it. */
    method PlaceNumbers()
      requires Rect(table, height, width)
      modifies this`table
      ensures Rect(table, height, width)
      ensures table == Numbering(old(table), height, width)
    {
      ghost var b0 := table;
      var i := 0;
      while i < height
        invariant 0 <= i <= height
        invariant Rect(table, height, width)
        invariant NumberedUpTo(b0, table, height, width, i, 0)
      {
        var j := 0;
        while j < width
          invariant 0 <= j <= width
          invariant Rect(table, height, width)
          invariant NumberedUpTo(b0, table, height, width, i, j)
        {
          var neighbours := CellNeighbours(i, j);
          InBoundsWithin(table, height, width, neighbours);
          ghost var b := table;
          if !IsAnyMineHere(i, j) {
            var count := MineCounter(neighbours);
            NumberStep(b0, b, height, width, i, j, neighbours, count);
            Store(Pos(i, j), Cell(Count(count), table[i][j].kind));
          } else {
            NumberStep(b0, b, height, width, i, j, neighbours, 0);
          }
          j := j + 1;
        }
        assert NumberedUpTo(b0, table, height, width, i + 1, 0);
        i := i + 1;
      }
      NumberedAll(b0, table, height, width);
    }

    /** `_openCell`: a click on `(y, x)` while the table listens. A mine ends
        the game (the mine's `data-type` is left as it was); a safe cell,
        marked or not, is uncovered. `pending` holds the empty cells whose
        flood is still running further up the recursion. */
    method OpenCell(y: int, x: int, ghost pending: set<Pos>)
      requires Inv(pending)
      modifies this
      decreases Unopened(table, height, width),
        if InBounds(height, width, Pos(y, x)) && table[y][x].kind == Opened then 7 else 2
      ensures Inv(pending)
      ensures Grown(old(table), table, height, width)
      ensures flags == old(flags)
      ensures old(status) != Playing || !InBounds(height, width, Pos(y, x)) ==>
        table == old(table) && status == old(status)
      ensures old(status) == Playing && InBounds(height, width, Pos(y, x)) && old(Cells.IsAnyMineHere(table[y][x])) ==>
        table == old(table) && status == GameOver
      ensures old(status) == Playing && InBounds(height, width, Pos(y, x)) && !old(Cells.IsAnyMineHere(table[y][x])) ==>
        && table[y][x] == Cell(old(table[y][x].info), Opened)
        && (table[y][x].info == Count(0) ==> NeighboursSettled(table, height, width, Pos(y, x)))
        && (old(table[y][x].info) != Count(0) ==>
              table == SetAt(old(table), Pos(y, x), Cell(old(table[y][x].info), Opened)))
        && status == (if Wins(table, height, width) then Victory else Playing)
    {
      if status != Playing || !InBounds(height, width, Pos(y, x)) {
        return;
      }
      if IsAnyMineHere(y, x) {
        EndOfGame(GameOver);
        return;
      }
      Uncover(y, x, pending);
    }

    /** The rest of `_openCell` once the clicked cell is known to be safe: the
        cell is revealed, and the game is won when no safe cell stays closed. */
    method Uncover(y: int, x: int, ghost pending: set<Pos>)
      requires Inv(pending) && status == Playing && InBounds(height, width, Pos(y, x))
      requires !Cells.IsAnyMineHere(table[y][x])
      modifies this
      decreases Unopened(table, height, width), if table[y][x].kind == Opened then 6 else 1
      ensures Inv(pending)
      ensures Grown(old(table), table, height, width)
      ensures flags == old(flags)
      ensures table[y][x] == Cell(old(table[y][x].info), Opened)
      ensures table[y][x].info == Count(0) ==> NeighboursSettled(table, height, width, Pos(y, x))
      ensures old(table[y][x].info) != Count(0) ==>
        table == SetAt(old(table), Pos(y, x), Cell(old(table[y][x].info), Opened))
      ensures status == if Wins(table, height, width) then Victory else Playing
    {
      Reveal(y, x, pending);
      var victory := DoesPlayerWin();
      if victory {
        EndOfGame(Victory);
      }
    }

    /** The cell is opened (a marked one too, its flag staying counted) and an
        empty one floods its neighbours. */
    method Reveal(y: int, x: int, ghost pending: set<Pos>)
      requires Inv(pending) && status == Playing && InBounds(height, width, Pos(y, x))
      requires !Cells.IsAnyMineHere(table[y][x])
      modifies this
      decreases Unopened(table, height, width), if table[y][x].kind == Opened then 5 else 0
      ensures Inv(pending)
      ensures Grown(old(table), table, height, width)
      ensures flags == old(flags)
      ensures table[y][x] == Cell(old(table[y][x].info), Opened)
      ensures table[y][x].info == Count(0) ==> NeighboursSettled(table, height, width, Pos(y, x))
      ensures old(table[y][x].info) != Count(0) ==>
        table == SetAt(old(table), Pos(y, x), Cell(old(table[y][x].info), Opened))
      ensures status == Playing || status == Victory
    {
      var p := Pos(y, x);
      ghost var b0 := table;
      var td := table[y][x];
      if td.kind == Marked {
        openedMarks := openedMarks + 1;
      }
      OpenStep(b0, height, width, p, pending);
      Store(p, Cell(td.info, Opened));
      if td.info == Count(0) {
        ghost var b1 := table;
        OpenNeighbours(y, x, pending + {p});
        GrownTrans(b0, b1, table, height, width);
      }
      assert Settled(table, height, width, p);
      CloseOne(table, height, width, pending, p);
    }

    /** `_openNeighbours`: clicks every neighbour of `(y, x)` that is neither
        mined nor opened, in `cellNeighbours` order. */
    method OpenNeighbours(y: int, x: int, ghost pending: set<Pos>)
      requires Inv(pending) && InBounds(height, width, Pos(y, x)) && status == Playing
      modifies this
      decreases Unopened(table, height, width), 4
      ensures Inv(pending)
      ensures Grown(old(table), table, height, width)
      ensures flags == old(flags)
      ensures status == Playing || status == Victory
      ensures NeighboursSettled(table, height, width, Pos(y, x))
    {
      var neighbours := CellNeighbours(y, x);
      var k := 0;
      while k < |neighbours|
        invariant 0 <= k <= |neighbours|
        invariant Inv(pending)
        invariant Grown(old(table), table, height, width)
        invariant flags == old(flags)
        invariant status == Playing || status == Victory
        invariant forall m :: 0 <= m < k ==> Done(table, height, width, neighbours[m])
      {
        ghost var b := table;
        GrownUnopened(old(table), b, height, width);
        VisitNeighbour(neighbours[k], pending);
        GrownTrans(old(table), b, table, height, width);
        GrownKeepsDone(b, table, height, width, neighbours, k);
        k := k + 1;
      }
      SettledIsAllDone(table, height, width, Pos(y, x), |neighbours|);
    }

    /** The callback `_openNeighbours` runs on each neighbour `td`: it clicks
        `td` unless `td` is mined or opened. */
    method VisitNeighbour(td: Pos, ghost pending: set<Pos>)
      requires Inv(pending) && InBounds(height, width, td) && (status == Playing || status == Victory)
      modifies this
      decreases Unopened(table, height, width), 3
      ensures Inv(pending)
      ensures Grown(old(table), table, height, width)
      ensures flags == old(flags)
      ensures status == Playing || status == Victory
      ensures Done(table, height, width, td)
      ensures Done(old(table), height, width, td) ==> table == old(table) && status == old(status)
    {
      var isMine := IsAnyMineHere(td.y, td.x);
      var isOpened := table[td.y][td.x].kind == Opened;
      if !(isMine || isOpened) {
        assert !Cleared(table[td.y][td.x]);
        OpenCell(td.y, td.x, pending);
      }
    }

    /** `_setFlag`: a right click on a covered cell marks it and counts one
        flag more, on a marked cell unmarks it and counts one less, and on an
        opened cell does nothing. */
    method SetFlag(y: int, x: int)
      requires Valid()
      modifies this
      ensures Valid()
      ensures openedMarks == old(openedMarks) && status == old(status)
      ensures old(status) != Playing || !InBounds(height, width, Pos(y, x)) ==>
        table == old(table) && flags == old(flags)
      ensures old(status) == Playing && InBounds(height, width, Pos(y, x)) ==>
        && table == ToggleAt(old(table), Pos(y, x))
        && flags == old(flags) + FlagDelta(old(table[y][x].kind))
    {
      if status != Playing || !InBounds(height, width, Pos(y, x)) {
        return;
      }
      var p := Pos(y, x);
      ghost var b0 := table;
      var td := table[y][x];
      var tdType := td.kind;
      FlagStep(b0, height, width, p, {});
      ToggleCounts(b0, p);
      if tdType != Covered && tdType != Marked {
        SetAtSame(b0, p);
        return;
      }
      if tdType == Covered {
        Store(p, Cell(td.info, Marked));
        flags := flags + 1;
      } else {
        Store(p, Cell(td.info, Covered));
        flags := flags - 1;
      }
    }

    /** `_endOfGame(typeOfEnd)`: removes both listeners. */
    method EndOfGame(typeOfEnd: Status)
      requires typeOfEnd != Playing
      modifies this`status
      ensures status == typeOfEnd
    {
      status := typeOfEnd;
    }

    /** `_doesPlayerWin`: no safe cell is still covered or marked. */
    method DoesPlayerWin() returns (victory: bool)
      requires Rect(table, height, width)
      ensures victory == Wins(table, height, width)
    {
      victory := true;
      var i := 0;
      while i < height
        invariant 0 <= i <= height
        invariant victory <==> forall r, s :: 0 <= r < i && 0 <= s < width ==> Cleared(table[r][s])
      {
        var j := 0;
        while j < width
          invariant 0 <= j <= width
          invariant victory <==> (forall r, s :: 0 <= r < i && 0 <= s < width ==> Cleared(table[r][s]))
                                 && forall s :: 0 <= s < j ==> Cleared(table[i][s])
        {
          var td := table[i][j];
          var isMine := IsAnyMineHere(i, j);
          var isClosed := td.kind == Covered || td.kind == Marked;
          if isClosed && !isMine {
            victory := false;
            break;
          }
          j := j + 1;
        }
        i := i + 1;
      }
    }
  }
}
