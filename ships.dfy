/** The `Ship` class: a cell table filled by the constructor and updated in place by guesses. */
module Ships {
  import opened Wrappers
  import opened Text
  import opened CellTable
  import opened Descriptor

  class Ship {
    /** The dictionary from cell key to cell. */
    var cells: Table

    ghost predicate Valid()
      reads this
    {
      WellKeyed(cells)
    }

    /** The allocation and the `new Dictionary` that start the constructor. */
    constructor Empty()
      ensures cells == map[] && Valid()
    {
      cells := map[];
    }

    /**
     * The private constructor: a loop over the column when the endpoints share
     * it, then a loop over the row when they share that. `Dictionary.Add` throws
     * on a key already present; that exception leaves the constructor, and here
     * the result is `null`.
     */
    static method Construct(c1: ShipCoordinate, c2: ShipCoordinate) returns (ship: Ship?)
      ensures ship == null <==> InitialTable(c1, c2).None?
      ensures ship != null ==> fresh(ship) && ship.Valid() && ship.cells == InitialTable(c1, c2).value
    {
      ship := new Ship.Empty();
      if c1.x == c2.x {
        var added := ship.AddLine(c1.x, Vertical, c1.y, c2.y);
        if !added {
          return null;
        }
      }
      assert ship.cells == ColumnEntries(c1, c2);
      if c1.y == c2.y {
        var added := ship.AddLine(c1.y, Horizontal, c1.x, c2.x);
        if !added {
          return null;
        }
      }
      assert ship.cells == ColumnEntries(c1, c2) + RowEntries(c1, c2);
      LineEntries(c1.x, Vertical, c1.y, c2.y);
      LineEntries(c1.y, Horizontal, c1.x, c2.x);
    }

    /**
     * One of the constructor's `for` loops: `Add` the cell of each step from `lo`
     * to `hi`. It reports false for the exception `Add` raises at the first key
     * already present, and for a loop whose counter wraps, which cannot end:
     * there `Add` throws once the dictionary outgrows its capacity (or memory).
     */
    method AddLine(fixed: int, axis: Axis, lo: int, hi: int) returns (added: bool)
      modifies this
      ensures added <==> old(cells).Keys * Line(fixed, axis, lo, hi).Keys == {} && !CounterWraps(lo, hi)
      ensures added ==> cells == old(cells) + Line(fixed, axis, lo, hi)
    {
      var i := lo;
      while i <= hi
        invariant lo <= i && (i <= hi + 1 || i == lo)
        invariant lo <= INT_MAX ==> i <= INT_MAX
        invariant old(cells).Keys * Line(fixed, axis, lo, i - 1).Keys == {}
        invariant cells == old(cells) + Line(fixed, axis, lo, i - 1)
      {
        var c := CellAt(fixed, axis, i);
        var key := Key(c.x, c.y);
        if key in cells {
          LineClash(old(cells), fixed, axis, lo, i, hi);
          return false;
        }
        LineExtend(old(cells), fixed, axis, lo, i);
        cells := cells[key := c];
        if i == INT_MAX {
          // `i++` wraps to int.MinValue and `i <= hi` still holds: the loop cannot
          // end, and `Add` throws once the dictionary outgrows its capacity (or
          // memory), before any key repeats.
          return false;
        }
        i := i + 1;
      }
      return true;
    }

    /** A guess hits the entry whose key equals the guess text exactly; anything else is a miss. */
    method Hit(coordinate: string)
      modifies this
      ensures old(Valid()) ==> Valid()
      ensures cells == Mark(old(cells), coordinate)
      ensures cells.Keys == old(cells).Keys
      ensures coordinate in cells ==> cells[coordinate] == old(cells)[coordinate].(isHit := true)
      ensures forall k :: k in cells && k != coordinate ==> cells[k] == old(cells)[k]
    {
      if coordinate in cells {
        cells := cells[coordinate := cells[coordinate].(isHit := true)];
      }
    }

    /** Afloat while any cell is unhit; a ship with no cells is sunk. */
    function IsSunk(): (r: bool)
      reads this
      ensures r <==> forall k :: k in cells ==> cells[k].isHit
      ensures cells == map[] ==> r
    {
      Sunk(cells)
    }

    /**
     * Parses and validates a descriptor and builds its ship. On a rejection the
     * ship is null and the message names the descriptor; `threw` reports the
     * exception the constructor raises on a single-cell ship or on a loop
     * whose counter wraps (`LoopWraps`).
     */
    static method TryCreateShip(shipCoordinate: string)
      returns (success: bool, ship: Ship?, errorMsg: string, threw: bool)
      ensures threw <==> Create(shipCoordinate).Threw?
      ensures success <==> Create(shipCoordinate).Created?
      ensures success ==> ship != null && fresh(ship) && ship.Valid() && ship.cells == Create(shipCoordinate).cells
      ensures !success ==> ship == null
      ensures errorMsg == if Create(shipCoordinate).Rejected? then Create(shipCoordinate).message else ""
    {
      success, ship, errorMsg, threw := false, null, "", false;
      match Validate(shipCoordinate)
      case Failure(e) =>
        errorMsg := Message(e, shipCoordinate);
      case Success((c1, c2)) =>
        ship := Construct(c1, c2);
        threw := ship == null;
        success := !threw;
    }
  }
}
