/**
 * The five games of the repository's unit tests, and three edge cases: a
 * backward ship that is empty and always sunk, a single-cell ship aborting
 * the whole game, and a ship whose constructor counter wraps aborting it
 * too. Each is derived from the general lemmas: a canonical descriptor
 * validates as its coordinates say, the constructor's table holds exactly
 * the forward segment, and a table sinks exactly when every key has been
 * guessed.
 */
module Scenarios {
  import opened Wrappers
  import opened Seqs
  import opened Text
  import opened CellTable
  import opened Descriptor
  import opened Game

  function Cell(x: int, y: int): ShipCoordinate { ShipCoordinate(false, x, y) }

  /** An aligned descriptor at most three cells long, with two different endpoints, creates the constructor's table. */
  lemma CreateFormat(c1: ShipCoordinate, c2: ShipCoordinate)
    requires InRange(c1) && InRange(c2) && !c1.isHit && !c2.isHit && Aligned(c1, c2) && Distance(c1, c2) <= 3
    requires !(c1.x == c2.x && c1.y == c2.y) && !LoopWraps(c1, c2)
    ensures InitialTable(c1, c2).Some?
    ensures Create(Format(c1, c2)) == Created(InitialTable(c1, c2).value)
  {
    ValidateFormat(c1, c2);
    ConstructorThrows(c1, c2);
  }

  /** A ship built from its endpoints sinks exactly when every cell of its forward segment was guessed. */
  lemma SegmentSunk(c1: ShipCoordinate, c2: ShipCoordinate, guesses: seq<string>)
    requires !(c1.x == c2.x && c1.y == c2.y) && !LoopWraps(c1, c2)
    ensures InitialTable(c1, c2).Some?
    ensures Sunk(MarkAll(InitialTable(c1, c2).value, guesses)) <==>
      forall x, y :: OnSegment(c1, c2, x, y) ==> Key(x, y) in guesses
  {
    InitialTableContents(c1, c2);
    var t := InitialTable(c1, c2).value;
    SinkingNeedsEveryCell(t, guesses);
    if t.Keys <= set g | g in guesses {
      forall x, y | OnSegment(c1, c2, x, y)
        ensures Key(x, y) in guesses
      {
        assert Key(x, y) in t.Keys;
      }
    }
    if forall x, y :: OnSegment(c1, c2, x, y) ==> Key(x, y) in guesses {
      forall k | k in t.Keys
        ensures k in set g | g in guesses
      {
        assert OnSegment(c1, c2, t[k].x, t[k].y);
      }
    }
  }

  lemma FleetOne(t: Table)
    ensures Fleet([Created(t)]) == Some([t])
  {
    FleetSnoc([], Created(t));
    assert [] + [Created(t)] == [Created(t)];
    assert [] + [t] == [t];
  }

  lemma FleetTwo(t1: Table, t2: Table)
    ensures Fleet([Created(t1), Created(t2)]) == Some([t1, t2])
  {
    FleetSnoc([Created(t1)], Created(t2));
    assert [Created(t1)] + [Created(t2)] == [Created(t1), Created(t2)];
    FleetOne(t1);
    assert [t1] + [t2] == [t1, t2];
  }

  lemma CountSunkOne(t: Table, guesses: seq<string>)
    ensures CountSunk(AfterGuesses([t], guesses)) == if Sunk(MarkAll(t, guesses)) then 1 else 0
  {
    var after := AfterGuesses([t], guesses);
    assert after == [MarkAll(t, guesses)];
    assert after[..0] == [];
  }

  lemma CountSunkTwo(t1: Table, t2: Table, guesses: seq<string>)
    ensures CountSunk(AfterGuesses([t1, t2], guesses)) ==
      (if Sunk(MarkAll(t1, guesses)) then 1 else 0) + (if Sunk(MarkAll(t2, guesses)) then 1 else 0)
  {
    var after := AfterGuesses([t1, t2], guesses);
    assert after == [MarkAll(t1, guesses), MarkAll(t2, guesses)];
    assert after[..1] == AfterGuesses([t1], guesses);
    CountSunkOne(t1, guesses);
  }

  lemma CreationsTwo(d1: string, d2: string)
    ensures Creations([d1, d2]) == [Create(d1), Create(d2)]
  {
    MapAt(Create, [d1, d2]);
  }

  lemma ScoreOne(d: string, t: Table, guesses: seq<string>)
    requires Create(d) == Created(t)
    ensures Score([d], guesses) == if Sunk(MarkAll(t, guesses)) then 1 else 0
  {
    CreationsOne(d);
    FleetOne(t);
    CountSunkOne(t, guesses);
  }

  lemma ScoreTwo(d1: string, t1: Table, d2: string, t2: Table, guesses: seq<string>)
    requires Create(d1) == Created(t1) && Create(d2) == Created(t2)
    ensures Score([d1, d2], guesses) ==
      (if Sunk(MarkAll(t1, guesses)) then 1 else 0) + (if Sunk(MarkAll(t2, guesses)) then 1 else 0)
  {
    CreationsTwo(d1, d2);
    FleetTwo(t1, t2);
    CountSunkTwo(t1, t2, guesses);
  }

  /** A rejected second descriptor does not change the score. */
  lemma ScoreSkipsSecond(a: string, r: string, guesses: seq<string>)
    requires Create(r).Rejected?
    ensures Score([a, r], guesses) == Score([a], guesses)
  {
    ScoreSkipsRejected([a], r, [], guesses);
    assert [a] + [r] + [] == [a, r];
    assert [a] + [] == [a];
  }

  /** A rejected first descriptor does not change the score. */
  lemma ScoreSkipsFirst(r: string, b: string, guesses: seq<string>)
    requires Create(r).Rejected?
    ensures Score([r, b], guesses) == Score([b], guesses)
  {
    ScoreSkipsRejected([], r, [b], guesses);
    assert [] + [r] + [b] == [r, b];
    assert [] + [b] == [b];
  }

  // ------------------------------------------------------------ the ships of the tests

  /** "3:2,3:5": column 3, rows 2 to 5. */
  lemma LongShip()
    ensures "3:2,3:5" == Format(Cell(3, 2), Cell(3, 5))
    ensures Create("3:2,3:5") == Created(InitialTable(Cell(3, 2), Cell(3, 5)).value)
  {
    var c1, c2 := Cell(3, 2), Cell(3, 5);
    assert Key(3, 2) == "3:2" && Key(3, 5) == "3:5" by {
      assert IntToString(2) == "2" && IntToString(3) == "3" && IntToString(5) == "5";
    }
    CreateFormat(c1, c2);
  }

  /** The long ship sinks exactly when "3:2", "3:3", "3:4" and "3:5" have all been guessed. */
  lemma LongShipSunk(guesses: seq<string>)
    ensures InitialTable(Cell(3, 2), Cell(3, 5)).Some?
    ensures Sunk(MarkAll(InitialTable(Cell(3, 2), Cell(3, 5)).value, guesses)) <==>
      "3:2" in guesses && "3:3" in guesses && "3:4" in guesses && "3:5" in guesses
  {
    SegmentSunk(Cell(3, 2), Cell(3, 5), guesses);
    assert Key(3, 2) == "3:2" && Key(3, 3) == "3:3" && Key(3, 4) == "3:4" && Key(3, 5) == "3:5" by {
      assert IntToString(2) == "2" && IntToString(3) == "3" && IntToString(4) == "4" && IntToString(5) == "5";
    }
    if "3:2" in guesses && "3:3" in guesses && "3:4" in guesses && "3:5" in guesses {
      forall x, y | OnSegment(Cell(3, 2), Cell(3, 5), x, y)
        ensures Key(x, y) in guesses
      {
        assert y == 2 || y == 3 || y == 4 || y == 5;
      }
    } else {
      assert OnSegment(Cell(3, 2), Cell(3, 5), 3, 2) && OnSegment(Cell(3, 2), Cell(3, 5), 3, 3);
      assert OnSegment(Cell(3, 2), Cell(3, 5), 3, 4) && OnSegment(Cell(3, 2), Cell(3, 5), 3, 5);
    }
  }

  /**
   * "7:0,6:0": the endpoints share row 0 but the second comes first, so the
   * constructor's loop adds no cell; an empty ship is sunk whatever is guessed.
   */
  lemma BackwardShipSunk(guesses: seq<string>)
    ensures Create("7:0,6:0").Created?
    ensures Create("7:0,6:0").cells == map[]
    ensures Sunk(MarkAll(Create("7:0,6:0").cells, guesses))
  {
    assert IntToString(0) == "0" && IntToString(6) == "6" && IntToString(7) == "7";
    assert "7:0,6:0" == Format(Cell(7, 0), Cell(6, 0));
    CreateFormat(Cell(7, 0), Cell(6, 0));
    InitialTableContents(Cell(7, 0), Cell(6, 0));
    SinkingNeedsEveryCell(map[], guesses);
  }

  /** "3:6,4:7" shares neither column nor row, and the message says so. */
  lemma DiagonalShipRejected()
    ensures Create("3:6,4:7") == Rejected(Message(NotAxisAligned, "3:6,4:7"))
  {
    assert IntToString(3) == "3" && IntToString(4) == "4" && IntToString(6) == "6" && IntToString(7) == "7";
    assert "3:6,4:7" == Format(Cell(3, 6), Cell(4, 7));
    ValidateFormat(Cell(3, 6), Cell(4, 7));
    CreateRejected("3:6,4:7");
  }

  /** "3:2,3:6" spans five cells, and the message names that length. */
  lemma FiveCellShipRejected()
    ensures Create("3:2,3:6") == Rejected(Message(InvalidLength(5), "3:2,3:6"))
  {
    assert IntToString(2) == "2" && IntToString(3) == "3" && IntToString(6) == "6";
    assert "3:2,3:6" == Format(Cell(3, 2), Cell(3, 6));
    ValidateFormat(Cell(3, 2), Cell(3, 6));
    CreateRejected("3:2,3:6");
  }

  // ------------------------------------------------------------ the games

  lemma TestPlay()
    ensures Score(["3:2,3:5"], ["7:0", "3:3"]) == 0
  {
    LongShipSunk(["7:0", "3:3"]);
    LongShip();
    ScoreOne("3:2,3:5", InitialTable(Cell(3, 2), Cell(3, 5)).value, ["7:0", "3:3"]);
  }

  lemma TestPlaySunkOneShip()
    ensures Score(["3:2,3:5"], ["7:0", "3:3", "3:4", "3:5", "3:2"]) == 1
  {
    var guesses := ["7:0", "3:3", "3:4", "3:5", "3:2"];
    LongShipSunk(guesses);
    assert "3:2" == guesses[4] && "3:3" == guesses[1] && "3:4" == guesses[2] && "3:5" == guesses[3];
    LongShip();
    ScoreOne("3:2,3:5", InitialTable(Cell(3, 2), Cell(3, 5)).value, guesses);
  }

  lemma TestPlaySunk2Ship()
    ensures Score(["3:2,3:5", "7:0,6:0"], ["7:0", "3:3", "3:4", "3:5", "3:2", "6:0"]) == 2
  {
    var guesses := ["7:0", "3:3", "3:4", "3:5", "3:2", "6:0"];
    LongShipSunk(guesses);
    assert "3:2" == guesses[4] && "3:3" == guesses[1] && "3:4" == guesses[2] && "3:5" == guesses[3];
    BackwardShipSunk(guesses);
    LongShip();
    ScoreTwo("3:2,3:5", InitialTable(Cell(3, 2), Cell(3, 5)).value, "7:0,6:0", map[], guesses);
  }

  lemma TestPlayWithOneInvalidShip()
    ensures Score(["3:2,3:5", "3:6,4:7"], ["7:0", "3:3"]) == 0
  {
    DiagonalShipRejected();
    ScoreSkipsSecond("3:2,3:5", "3:6,4:7", ["7:0", "3:3"]);
    TestPlay();
  }

  lemma TestPlayShipWithInvalidLength()
    ensures Score(["3:2,3:6", "7:0,6:0"], ["7:0", "3:3", "3:4", "3:5", "3:2", "3:6", "6:0"]) == 1
  {
    var guesses := ["7:0", "3:3", "3:4", "3:5", "3:2", "3:6", "6:0"];
    FiveCellShipRejected();
    ScoreSkipsFirst("3:2,3:6", "7:0,6:0", guesses);
    BackwardShipSunk(guesses);
    ScoreOne("7:0,6:0", map[], guesses);
  }

  /**
   * "3:3,3:3" passes validation (length 1), but both constructor loops add
   * key "3:3", so the constructor throws and the whole game returns -1.
   */
  lemma SingleCellShipAbortsGame(guesses: seq<string>)
    ensures Create("3:3,3:3").Threw?
    ensures Score(["3:3,3:3"], guesses) == -1
  {
    assert IntToString(3) == "3";
    assert "3:3,3:3" == Format(Cell(3, 3), Cell(3, 3));
    ValidateFormat(Cell(3, 3), Cell(3, 3));
    CreateThrows("3:3,3:3");
    ScoreRange(["3:3,3:3"], guesses);
    assert ["3:3,3:3"][0] == "3:3,3:3";
  }

  /**
   * A ship that ends at `int.MaxValue`, such as "0:2147483646,0:2147483647":
   * it passes validation, but the constructor's counter wraps so its loop
   * cannot end; `Add` throws once the dictionary outgrows its capacity (or
   * memory), and the whole game returns -1.
   */
  lemma CounterWrapAbortsGame(c1: ShipCoordinate, c2: ShipCoordinate, guesses: seq<string>)
    requires !c1.isHit && !c2.isHit && c1.x == c2.x && IsInt32(c1.x)
    requires c1.y == INT_MAX - 1 && c2.y == INT_MAX
    ensures Validate(Format(c1, c2)).Success?
    ensures Create(Format(c1, c2)).Threw?
    ensures Score([Format(c1, c2)], guesses) == -1
  {
    ValidateFormat(c1, c2);
    CreateThrows(Format(c1, c2));
    ScoreRange([Format(c1, c2)], guesses);
    assert [Format(c1, c2)][0] == Format(c1, c2);
  }
}
