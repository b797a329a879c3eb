/** The level selector of the game (js/Game.js): a level is the width of the
    table, the height is capped, and the number of mines comes from a fixed
    table of presets. */
module Levels {
  import Grids

  datatype Option<T> = None | Some(value: T)

  /** `MAX_FIELD_HEIGHT`, as in the Windows game. */
  const MaxFieldHeight: int := 16

  /** `MINES_CONFIGURATION`: level (table width) to number of mines. */
  const MinesConfiguration: map<int, nat> := map[9 := 10, 16 := 40, 30 := 99]

  /** `calculateNumberOfMines(size)`: the preset for `size`, and `None` (the
      `undefined` of a missing key) for every other size. Every preset leaves
      at least one safe cell on the table `startGame` builds for it. */
  function CalculateNumberOfMines(size: int): (r: Option<nat>)
    ensures r.Some? <==> size == 9 || size == 16 || size == 30
    ensures r.Some? ==> 0 < r.value < size * Grids.Min(size, MaxFieldHeight)
  {
    if size in MinesConfiguration then Some(MinesConfiguration[size]) else None
  }

  /** What `startGame` leaves on the page: the field area hidden, or shown
      with a new field of the given size. */
  datatype Screen = Hidden | Shown(width: int, height: int, numberOfMines: Option<nat>)

  /** `startGame` for the parsed level, `None` standing for the `NaN` that
      `parseInt` returns on a non-number. A field is built exactly for a
      non-zero level; it is as wide as the level and as high as the level
      but never higher than `MaxFieldHeight`. */
  function StartGame(level: Option<int>): (s: Screen)
    ensures s.Shown? <==> level.Some? && level.value != 0
    ensures s.Shown? ==> s.width == level.value
    ensures s.Shown? ==> s.height <= s.width && s.height <= MaxFieldHeight
    ensures s.Shown? ==> s.height == s.width || s.height == MaxFieldHeight
    ensures s.Shown? ==> s.numberOfMines == CalculateNumberOfMines(s.width)
  {
    if level.Some? && level.value != 0 then
      var size := level.value;
      Shown(size, Grids.Min(size, MaxFieldHeight), CalculateNumberOfMines(size))
    else
      Hidden
  }

  /** The three presets. */
  lemma Presets()
    ensures CalculateNumberOfMines(9) == Some(10)
    ensures CalculateNumberOfMines(16) == Some(40)
    ensures CalculateNumberOfMines(30) == Some(99)
    ensures StartGame(Some(9)) == Shown(9, 9, Some(10))
    ensures StartGame(Some(16)) == Shown(16, 16, Some(40))
    ensures StartGame(Some(30)) == Shown(30, 16, Some(99))
  {
  }

  /** A preset level yields a configuration that `Minefield.Field`'s
      constructor accepts: a non-empty table with no more mines than cells. */
  lemma PresetsFit(level: int)
    requires CalculateNumberOfMines(level).Some?
    ensures StartGame(Some(level)).Shown?
    ensures var s := StartGame(Some(level));
      1 <= s.height && 1 <= s.width && s.numberOfMines.Some? && s.numberOfMines.value <= s.height * s.width
  {
  }
}
