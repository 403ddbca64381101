/**
 * The cell table a ship keeps: a dictionary from the text key "x:y" of
 * each occupied cell to the cell and its hit flag. This module holds the
 * table as a value: what the constructor's loops build, what one guess
 * does to it, and when it counts as sunk.
 */
module CellTable {
  import opened Wrappers
  import opened Text

  /** A grid cell and whether it has been hit; parsed coordinates are cells with the flag left false. */
  datatype ShipCoordinate = ShipCoordinate(isHit: bool, x: int, y: int)

  type Table = map<string, ShipCoordinate>

  /** The dictionary key of cell (x, y), and also the only guess text that hits it. */
  function Key(x: int, y: int): string
  {
    IntToString(x) + ":" + IntToString(y)
  }

  lemma KeyFields(x: int, y: int)
    ensures Split(Key(x, y), ':') == [IntToString(x), IntToString(y)]
  {
    IntToStringShape(x);
    IntToStringShape(y);
    SplitNoSeparator(IntToString(x), ':');
    SplitNoSeparator(IntToString(y), ':');
    SplitConcat(IntToString(x), ':', IntToString(y));
  }

  /** Distinct cells have distinct keys. */
  lemma KeyInjective(x1: int, y1: int, x2: int, y2: int)
    ensures Key(x1, y1) == Key(x2, y2) <==> x1 == x2 && y1 == y2
  {
    KeyFields(x1, y1);
    KeyFields(x2, y2);
    IntToStringInjective(x1, x2);
    IntToStringInjective(y1, y2);
  }

  /** Every entry sits under the key of its own cell. */
  ghost predicate WellKeyed(t: Table)
  {
    forall k :: k in t ==> k == Key(t[k].x, t[k].y)
  }

  ghost predicate NoneHit(t: Table)
  {
    forall k :: k in t ==> !t[k].isHit
  }

  // ------------------------------------------------------------ construction

  /** Which coordinate the constructor's loop variable runs over. */
  datatype Axis = Vertical | Horizontal

  /** The cell the loop adds at step `i`: column `fixed` when vertical, row `fixed` when horizontal. */
  function CellAt(fixed: int, axis: Axis, i: int): ShipCoordinate
  {
    match axis
    case Vertical => ShipCoordinate(false, fixed, i)
    case Horizontal => ShipCoordinate(false, i, fixed)
  }

  /** The entries one constructor loop has added once its variable has run from `lo` to `hi`. */
  function Line(fixed: int, axis: Axis, lo: int, hi: int): Table
    decreases hi - lo
  {
    if hi < lo then map[]
    else
      var c := CellAt(fixed, axis, hi);
      Line(fixed, axis, lo, hi - 1)[Key(c.x, c.y) := c]
  }

  /** Every entry of a line is the unhit cell of some step from `lo` to `hi`, under its own key. */
  lemma {:induction false} LineEntries(fixed: int, axis: Axis, lo: int, hi: int)
    ensures forall k :: k in Line(fixed, axis, lo, hi) ==>
      exists i :: lo <= i <= hi && Line(fixed, axis, lo, hi)[k] == CellAt(fixed, axis, i)
    ensures WellKeyed(Line(fixed, axis, lo, hi)) && NoneHit(Line(fixed, axis, lo, hi))
    decreases hi - lo
  {
    if lo <= hi {
      LineEntries(fixed, axis, lo, hi - 1);
    }
  }

  /** The step-`i` key differs from the keys of all earlier steps. */
  lemma LineStepIsNew(fixed: int, axis: Axis, lo: int, i: int)
    ensures var c := CellAt(fixed, axis, i); Key(c.x, c.y) !in Line(fixed, axis, lo, i - 1)
  {
    var c := CellAt(fixed, axis, i);
    var prev := Line(fixed, axis, lo, i - 1);
    LineEntries(fixed, axis, lo, i - 1);
    if Key(c.x, c.y) in prev {
      var d := prev[Key(c.x, c.y)];
      var j :| lo <= j <= i - 1 && d == CellAt(fixed, axis, j);
      assert Key(c.x, c.y) == Key(d.x, d.y);
      KeyInjective(c.x, c.y, d.x, d.y);
    }
  }

  /** Each step from `lo` to `hi` has its unhit cell in the line, and the line has one entry per step. */
  lemma {:induction false} LineContents(fixed: int, axis: Axis, lo: int, hi: int)
    ensures forall i :: lo <= i <= hi ==>
      var c := CellAt(fixed, axis, i); Key(c.x, c.y) in Line(fixed, axis, lo, hi) && Line(fixed, axis, lo, hi)[Key(c.x, c.y)] == c
    ensures |Line(fixed, axis, lo, hi)| == if hi < lo then 0 else hi - lo + 1
    decreases hi - lo
  {
    if lo <= hi {
      LineContents(fixed, axis, lo, hi - 1);
      LineStepIsNew(fixed, axis, lo, hi);
      var c := CellAt(fixed, axis, hi);
      forall i | lo <= i < hi
        ensures var d := CellAt(fixed, axis, i); Key(d.x, d.y) != Key(c.x, c.y)
      {
        var d := CellAt(fixed, axis, i);
        KeyInjective(d.x, d.y, c.x, c.y);
      }
    }
  }

  /** One more loop step keeps the added entries clear of the table's earlier keys. */
  lemma LineExtend(t: Table, fixed: int, axis: Axis, lo: int, i: int)
    requires lo <= i
    requires t.Keys * Line(fixed, axis, lo, i - 1).Keys == {}
    requires var c := CellAt(fixed, axis, i); Key(c.x, c.y) !in t + Line(fixed, axis, lo, i - 1)
    ensures t.Keys * Line(fixed, axis, lo, i).Keys == {}
    ensures var c := CellAt(fixed, axis, i);
      (t + Line(fixed, axis, lo, i - 1))[Key(c.x, c.y) := c] == t + Line(fixed, axis, lo, i)
  {
  }

  /** A step whose key is already present, and not from this loop, means the loop's keys meet the table's. */
  lemma LineClash(t: Table, fixed: int, axis: Axis, lo: int, i: int, hi: int)
    requires lo <= i <= hi
    requires var c := CellAt(fixed, axis, i); Key(c.x, c.y) in t + Line(fixed, axis, lo, i - 1)
    ensures t.Keys * Line(fixed, axis, lo, hi).Keys != {}
  {
    var c := CellAt(fixed, axis, i);
    LineStepIsNew(fixed, axis, lo, i);
    LineContents(fixed, axis, lo, hi);
    assert Key(c.x, c.y) in t.Keys * Line(fixed, axis, lo, hi).Keys;
  }

  /** The second loop's entries join the first loop's, or `None` when a key repeats (Dictionary.Add throws). */
  function AddAll(t: Table, entries: Table): Option<Table>
  {
    if t.Keys * entries.Keys == {} then Some(t + entries) else None
  }

  /** The first loop's entries: the cells of column c1.x from row c1.y up to row c2.y, when the columns agree. */
  function ColumnEntries(c1: ShipCoordinate, c2: ShipCoordinate): Table
  {
    if c1.x == c2.x then Line(c1.x, Vertical, c1.y, c2.y) else map[]
  }

  /** The second loop's entries: the cells of row c1.y from column c1.x up to column c2.x, when the rows agree. */
  function RowEntries(c1: ShipCoordinate, c2: ShipCoordinate): Table
  {
    if c1.y == c2.y then Line(c1.y, Horizontal, c1.x, c2.x) else map[]
  }

  /**
   * A loop `for (int i = lo; i <= hi; i++)` whose counter reaches `int.MaxValue`:
   * there `i++` wraps to `int.MinValue`, `i <= hi` holds again, and the loop
   * cannot end. `Add` throws once the dictionary outgrows its capacity (or
   * memory), well before any key repeats.
   */
  predicate CounterWraps(lo: int, hi: int) { lo <= INT_MAX <= hi }

  /** One of the constructor's loops runs into `CounterWraps`. */
  predicate LoopWraps(c1: ShipCoordinate, c2: ShipCoordinate)
  {
    (c1.x == c2.x && CounterWraps(c1.y, c2.y)) || (c1.y == c2.y && CounterWraps(c1.x, c2.x))
  }

  /** What the ship constructor builds from two endpoints: `None` when it throws. */
  function InitialTable(c1: ShipCoordinate, c2: ShipCoordinate): Option<Table>
  {
    if LoopWraps(c1, c2) then None
    else AddAll(ColumnEntries(c1, c2), RowEntries(c1, c2))
  }

  /** Cell (x, y) lies on the segment walked from c1 forward to c2 (none when c2 comes first). */
  predicate OnSegment(c1: ShipCoordinate, c2: ShipCoordinate, x: int, y: int)
  {
    (c1.x == c2.x && x == c1.x && c1.y <= y <= c2.y) ||
    (c1.y == c2.y && y == c1.y && c1.x <= x <= c2.x)
  }

  /** Number of cells from c1 forward to c2 along the axis they share; 0 when c2 comes first or they share none. */
  function ForwardSpan(c1: ShipCoordinate, c2: ShipCoordinate): nat
  {
    if c1.x == c2.x then (if c2.y < c1.y then 0 else c2.y - c1.y + 1)
    else if c1.y == c2.y then (if c2.x < c1.x then 0 else c2.x - c1.x + 1)
    else 0
  }

  /**
   * The constructor throws exactly when both loops run, i.e. when the two
   * endpoints are the same cell, or when a loop's counter wraps.
   */
  lemma ConstructorThrows(c1: ShipCoordinate, c2: ShipCoordinate)
    ensures InitialTable(c1, c2).None? <==> (c1.x == c2.x && c1.y == c2.y) || LoopWraps(c1, c2)
  {
    LineContents(c1.x, Vertical, c1.y, c2.y);
    LineContents(c1.y, Horizontal, c1.x, c2.x);
    if c1.x == c2.x && c1.y == c2.y {
      var c := CellAt(c1.x, Vertical, c1.y);
      assert Key(c.x, c.y) in ColumnEntries(c1, c2).Keys * RowEntries(c1, c2).Keys;
    }
  }

  /** The entries of the line built between c1 and c2 are exactly their forward segment. */
  lemma SegmentLine(c1: ShipCoordinate, c2: ShipCoordinate, fixed: int, axis: Axis, lo: int, hi: int)
    requires axis == Vertical ==> c1.x == c2.x && fixed == c1.x && lo == c1.y && hi == c2.y
    requires axis == Horizontal ==> c1.y == c2.y && fixed == c1.y && lo == c1.x && hi == c2.x
    ensures var t := Line(fixed, axis, lo, hi);
      && (forall k :: k in t ==> OnSegment(c1, c2, t[k].x, t[k].y))
      && (forall x, y :: OnSegment(c1, c2, x, y) ==> Key(x, y) in t && t[Key(x, y)] == ShipCoordinate(false, x, y))
  {
    var t := Line(fixed, axis, lo, hi);
    LineEntries(fixed, axis, lo, hi);
    LineContents(fixed, axis, lo, hi);
    forall k | k in t
      ensures OnSegment(c1, c2, t[k].x, t[k].y)
    {
      var i :| lo <= i <= hi && t[k] == CellAt(fixed, axis, i);
    }
    forall x, y | OnSegment(c1, c2, x, y)
      ensures Key(x, y) in t && t[Key(x, y)] == ShipCoordinate(false, x, y)
    {
      var i := if axis == Vertical then y else x;
      assert CellAt(fixed, axis, i) == ShipCoordinate(false, x, y);
    }
  }

  /**
   * When it does not throw, the constructor's table holds one unhit entry,
   * under its own key, for each cell on the forward segment, and nothing else.
   */
  lemma InitialTableContents(c1: ShipCoordinate, c2: ShipCoordinate)
    requires !(c1.x == c2.x && c1.y == c2.y) && !LoopWraps(c1, c2)
    ensures InitialTable(c1, c2).Some?
    ensures var t := InitialTable(c1, c2).value;
      && WellKeyed(t) && NoneHit(t)
      && (forall k :: k in t ==> OnSegment(c1, c2, t[k].x, t[k].y))
      && (forall x, y :: OnSegment(c1, c2, x, y) ==> Key(x, y) in t && t[Key(x, y)] == ShipCoordinate(false, x, y))
      && |t| == ForwardSpan(c1, c2)
  {
    ConstructorThrows(c1, c2);
    var t := InitialTable(c1, c2).value;
    if c1.x == c2.x {
      assert t == Line(c1.x, Vertical, c1.y, c2.y);
      LineEntries(c1.x, Vertical, c1.y, c2.y);
      LineContents(c1.x, Vertical, c1.y, c2.y);
      SegmentLine(c1, c2, c1.x, Vertical, c1.y, c2.y);
    } else if c1.y == c2.y {
      assert t == Line(c1.y, Horizontal, c1.x, c2.x);
      LineEntries(c1.y, Horizontal, c1.x, c2.x);
      LineContents(c1.y, Horizontal, c1.x, c2.x);
      SegmentLine(c1, c2, c1.y, Horizontal, c1.x, c2.x);
    } else {
      assert t == map[];
    }
  }

  // ------------------------------------------------------------ hits

  /** One guess against one table: the entry keyed exactly by the guess text, if any, becomes hit. */
  function Mark(t: Table, guess: string): Table
  {
    if guess in t then t[guess := t[guess].(isHit := true)] else t
  }

  /** A sequence of guesses, applied in order. */
  function MarkAll(t: Table, guesses: seq<string>): Table
    decreases |guesses|
  {
    if guesses == [] then t
    else Mark(MarkAll(t, guesses[..|guesses| - 1]), guesses[|guesses| - 1])
  }

  lemma MarkAllStep(t: Table, guesses: seq<string>, g: nat)
    requires g < |guesses|
    ensures MarkAll(t, guesses[..g + 1]) == Mark(MarkAll(t, guesses[..g]), guesses[g])
  {
    assert guesses[..g + 1][..g] == guesses[..g];
  }

  /** The LINQ test `!Any(kv => !kv.Value.IsHit)`: no entry is left unhit. */
  predicate Sunk(t: Table)
  {
    !exists k :: k in t && !t[k].isHit
  }

  /** A guess changes at most the entry keyed by it, and that one only by setting its flag. */
  lemma MarkChangesOnlyGuessedEntry(t: Table, guess: string)
    ensures Mark(t, guess).Keys == t.Keys
    ensures guess in t ==> Mark(t, guess)[guess] == t[guess].(isHit := true)
    ensures forall k :: k in t && k != guess ==> Mark(t, guess)[k] == t[k]
    ensures guess !in t ==> Mark(t, guess) == t
    ensures WellKeyed(t) ==> WellKeyed(Mark(t, guess))
  {
  }

  lemma MarkIdempotent(t: Table, guess: string)
    ensures Mark(Mark(t, guess), guess) == Mark(t, guess)
  {
  }

  lemma MarkCommutes(t: Table, g1: string, g2: string)
    ensures Mark(Mark(t, g1), g2) == Mark(Mark(t, g2), g1)
  {
  }

  /** After a sequence of guesses an entry is hit iff it was hit before or its key was guessed. */
  lemma {:induction false} MarkAllHits(t: Table, guesses: seq<string>)
    ensures MarkAll(t, guesses).Keys == t.Keys
    ensures forall k :: k in t ==> MarkAll(t, guesses)[k] == t[k].(isHit := t[k].isHit || k in guesses)
    decreases |guesses|
  {
    if guesses != [] {
      var init := guesses[..|guesses| - 1];
      MarkAllHits(t, init);
      forall k | k in guesses
        ensures k in init || k == guesses[|guesses| - 1]
      {
        var i :| 0 <= i < |guesses| && guesses[i] == k;
        if i < |guesses| - 1 { assert init[i] == k; }
      }
    }
  }

  /** Only which texts were guessed matters, not their order or how often each was repeated. */
  lemma GuessOrderIrrelevant(t: Table, g1: seq<string>, g2: seq<string>)
    requires forall g :: g in g1 <==> g in g2
    ensures MarkAll(t, g1) == MarkAll(t, g2)
  {
    MarkAllHits(t, g1);
    MarkAllHits(t, g2);
  }

  /** A table is sunk after the guesses iff each entry is already hit or has its key among them. */
  lemma SunkAfter(t: Table, guesses: seq<string>)
    ensures Sunk(MarkAll(t, guesses)) <==> forall k :: k in t ==> t[k].isHit || k in guesses
  {
    MarkAllHits(t, guesses);
    var r := MarkAll(t, guesses);
    if !Sunk(r) {
      var k :| k in r && !r[k].isHit;
      assert k in t && !(t[k].isHit || k in guesses);
    }
  }

  /** Hits never come undone: a sunk table stays sunk whatever is guessed next. */
  lemma SunkStaysSunk(t: Table, guesses: seq<string>)
    ensures Sunk(t) ==> Sunk(MarkAll(t, guesses))
  {
    SunkAfter(t, guesses);
  }

  /** A fresh table sinks exactly when every one of its keys is among the guesses. */
  lemma SinkingNeedsEveryCell(t: Table, guesses: seq<string>)
    requires NoneHit(t)
    ensures Sunk(MarkAll(t, guesses)) <==> t.Keys <= set g | g in guesses
  {
    SunkAfter(t, guesses);
  }

  /** A fresh table of L entries needs L distinct keys guessed; fewer distinct hits never sink it. */
  lemma SinkingNeedsLengthManyHits(t: Table, guesses: seq<string>)
    requires NoneHit(t)
    ensures Sunk(MarkAll(t, guesses)) <==> |t.Keys * (set g | g in guesses)| == |t|
  {
    SinkingNeedsEveryCell(t, guesses);
    var guessed := set g | g in guesses;
    var hits := t.Keys * guessed;
    if t.Keys <= guessed {
      assert hits == t.Keys;
    } else {
      var k :| k in t.Keys && k !in guessed;
      assert hits <= t.Keys - {k};
      SubsetCardinality(hits, t.Keys - {k});
    }
  }

  lemma {:induction false} SubsetCardinality<T>(a: set<T>, b: set<T>)
    requires a <= b
    ensures |a| <= |b|
    decreases |b|
  {
    if a != {} {
      var x :| x in a;
      SubsetCardinality(a - {x}, b - {x});
    }
  }
}
