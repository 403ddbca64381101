/**
 * `Game.Play`: build the ships that validate, apply every guess to every
 * ship, count the sunk ones; any exception turns the answer into -1.
 */
module Game {
  import opened Wrappers
  import opened Seqs
  import opened CellTable
  import opened Descriptor
  import opened Ships

  /** The outcome of `TryCreateShip` for each descriptor. */
  function Creations(ships: seq<string>): (cs: seq<Creation>)
    ensures |cs| == |ships|
  {
    Map(Create, ships)
  }

  lemma CreationsAt(ships: seq<string>)
    ensures forall i :: 0 <= i < |ships| ==> Creations(ships)[i] == Create(ships[i])
  {
    MapAt(Create, ships);
  }

  lemma CreationsAppend(a: seq<string>, b: seq<string>)
    ensures Creations(a + b) == Creations(a) + Creations(b)
  {
    MapAppend(Create, a, b);
  }

  lemma CreationsOne(d: string)
    ensures Creations([d]) == [Create(d)]
  {
    MapAt(Create, [d]);
  }

  /** One turn of the first loop: keep a created table, skip a rejection, abort on an exception. */
  function Step(fleet: Option<seq<Table>>, c: Creation): Option<seq<Table>>
  {
    match fleet
    case None => None
    case Some(tables) =>
      match c
      case Created(t) => Some(tables + [t])
      case Rejected(_) => Some(tables)
      case Threw => None
  }

  /** The ship list as the first loop builds it; `None` once a creation throws. */
  function Fleet(cs: seq<Creation>): Option<seq<Table>>
    decreases |cs|
  {
    if cs == [] then Some([]) else Step(Fleet(cs[..|cs| - 1]), cs[|cs| - 1])
  }

  lemma FleetSnoc(cs: seq<Creation>, c: Creation)
    ensures Fleet(cs + [c]) == Step(Fleet(cs), c)
  {
    InitOfSnoc(cs, c);
  }

  lemma FleetTake(cs: seq<Creation>, i: nat)
    requires i < |cs|
    ensures Fleet(cs[..i + 1]) == Step(Fleet(cs[..i]), cs[i])
  {
    TakeOfTake(cs, i);
  }

  /** Each table after all the guesses. */
  function AfterGuesses(fleet: seq<Table>, guesses: seq<string>): (r: seq<Table>)
    ensures |r| == |fleet|
  {
    seq(|fleet|, j requires 0 <= j < |fleet| => MarkAll(fleet[j], guesses))
  }

  /** How many of the tables are sunk. */
  function CountSunk(tables: seq<Table>): (n: nat)
    ensures n <= |tables|
    decreases |tables|
  {
    if tables == [] then 0
    else CountSunk(tables[..|tables| - 1]) + (if Sunk(tables[|tables| - 1]) then 1 else 0)
  }

  /** What `Play` returns. */
  function Score(ships: seq<string>, guesses: seq<string>): int
  {
    match Fleet(Creations(ships))
    case None => -1
    case Some(fleet) => CountSunk(AfterGuesses(fleet, guesses))
  }

  /** `Play`: -1 when a construction throws, otherwise the number of valid ships sunk by the guesses. */
  method Play(ships: seq<string>, guesses: seq<string>) returns (result: int)
    ensures result == Score(ships, guesses)
  {
    ghost var cs := Creations(ships);
    CreationsAt(ships);
    var shipsLt, threw, fleet := CreateShips(ships, cs);
    if threw {
      return -1;
    }
    HitShips(shipsLt, guesses, fleet);
    result := CountSunkShips(shipsLt, AfterGuesses(fleet, guesses));
  }

  /** The first `foreach`: try each descriptor in turn and keep the ships created; stop when one throws. */
  method CreateShips(ships: seq<string>, ghost cs: seq<Creation>) returns (shipsLt: seq<Ship>, threw: bool, ghost fleet: seq<Table>)
    requires |cs| == |ships|
    requires forall i {:trigger Create(ships[i])} :: 0 <= i < |ships| ==> cs[i] == Create(ships[i])
    ensures threw <==> Fleet(cs).None?
    ensures !threw ==> Fleet(cs) == Some(fleet)
    ensures |shipsLt| == |fleet|
    ensures forall j :: 0 <= j < |shipsLt| ==> fresh(shipsLt[j]) && shipsLt[j].cells == fleet[j]
    ensures forall j, k :: 0 <= j < k < |shipsLt| ==> shipsLt[j] != shipsLt[k]
  {
    shipsLt, threw, fleet := [], false, [];
    var i := 0;
    while i < |ships|
      invariant 0 <= i <= |ships|
      invariant Fleet(cs[..i]) == Some(fleet)
      invariant |shipsLt| == |fleet|
      invariant forall j :: 0 <= j < |shipsLt| ==> fresh(shipsLt[j]) && shipsLt[j].cells == fleet[j]
      invariant Distinct(shipsLt)
    {
      var ship;
      ship, threw := CreateNext(ships, cs, i, shipsLt);
      FleetTake(cs, i);
      if threw {
        FleetAborts(cs, i + 1);
        DistinctElements(shipsLt);
        return;
      }
      if ship != null {
        DistinctSnoc<Ship>(shipsLt, ship);
        shipsLt := shipsLt + [ship];
        fleet := fleet + [ship.cells];
      }
      i := i + 1;
    }
    TakeAll(cs);
    DistinctElements(shipsLt);
  }

  /** One pass of the first `foreach`: the ship made from `ships[i]`, whose outcome is `cs[i]`. */
  method CreateNext(ships: seq<string>, ghost cs: seq<Creation>, i: nat, ghost made: seq<Ship>) returns (ship: Ship?, threw: bool)
    requires i < |ships| == |cs|
    requires forall i {:trigger Create(ships[i])} :: 0 <= i < |ships| ==> cs[i] == Create(ships[i])
    ensures threw <==> cs[i].Threw?
    ensures ship != null <==> cs[i].Created?
    ensures ship != null ==> fresh(ship) && ship !in made && ship.cells == cs[i].cells
  {
    var success, errorMsg;
    success, ship, errorMsg, threw := Ship.TryCreateShip(ships[i]);
  }

  /** The nested `foreach`: every guess in order, applied to every ship. */
  method HitShips(shipsLt: seq<Ship>, guesses: seq<string>, ghost fleet: seq<Table>)
    requires |shipsLt| == |fleet|
    requires forall j :: 0 <= j < |shipsLt| ==> shipsLt[j].cells == fleet[j]
    requires forall j, k :: 0 <= j < k < |shipsLt| ==> shipsLt[j] != shipsLt[k]
    modifies set j | 0 <= j < |shipsLt| :: shipsLt[j]
    ensures forall j :: 0 <= j < |shipsLt| ==> shipsLt[j].cells == MarkAll(fleet[j], guesses)
  {
    var g := 0;
    while g < |guesses|
      invariant 0 <= g <= |guesses|
      invariant forall j :: 0 <= j < |shipsLt| ==> shipsLt[j].cells == MarkAll(fleet[j], guesses[..g])
    {
      ghost var tables := seq(|fleet|, j requires 0 <= j < |fleet| => MarkAll(fleet[j], guesses[..g]));
      HitEveryShip(shipsLt, guesses[g], tables);
      forall j | 0 <= j < |shipsLt|
        ensures MarkAll(fleet[j], guesses[..g + 1]) == Mark(MarkAll(fleet[j], guesses[..g]), guesses[g])
      {
        MarkAllStep(fleet[j], guesses, g);
      }
      g := g + 1;
    }
    TakeAll(guesses);
  }

  /** The inner `foreach`: one guess applied to every ship. */
  method HitEveryShip(shipsLt: seq<Ship>, guess: string, ghost tables: seq<Table>)
    requires |shipsLt| == |tables|
    requires forall j :: 0 <= j < |shipsLt| ==> shipsLt[j].cells == tables[j]
    requires forall j, k :: 0 <= j < k < |shipsLt| ==> shipsLt[j] != shipsLt[k]
    modifies set j | 0 <= j < |shipsLt| :: shipsLt[j]
    ensures forall j :: 0 <= j < |shipsLt| ==> shipsLt[j].cells == Mark(tables[j], guess)
  {
    var s := 0;
    while s < |shipsLt|
      invariant 0 <= s <= |shipsLt|
      invariant forall j :: 0 <= j < s ==> shipsLt[j].cells == Mark(tables[j], guess)
      invariant forall j :: s <= j < |shipsLt| ==> shipsLt[j].cells == tables[j]
    {
      shipsLt[s].Hit(guess);
      s := s + 1;
    }
  }

  /** The `Where(s => s.IsSunk()).Count()`. */
  method CountSunkShips(shipsLt: seq<Ship>, ghost tables: seq<Table>) returns (count: nat)
    requires |shipsLt| == |tables|
    requires forall j :: 0 <= j < |shipsLt| ==> shipsLt[j].cells == tables[j]
    ensures count == CountSunk(tables)
  {
    count := 0;
    var j := 0;
    while j < |shipsLt|
      invariant 0 <= j <= |shipsLt|
      invariant count == CountSunk(tables[..j])
    {
      TakeOfTake(tables, j);
      if shipsLt[j].IsSunk() {
        count := count + 1;
      }
      j := j + 1;
    }
    TakeAll(tables);
  }

  // ------------------------------------------------------------ properties

  /** Once a construction throws, `Play` answers -1 whatever follows. */
  lemma {:induction false} FleetAborts(cs: seq<Creation>, n: nat)
    requires n <= |cs|
    requires Fleet(cs[..n]).None?
    ensures Fleet(cs).None?
    decreases |cs| - n
  {
    if n < |cs| {
      assert cs[..n + 1][..n] == cs[..n];
      FleetAborts(cs, n + 1);
    } else {
      assert cs[..n] == cs;
    }
  }

  /** The fleet of two descriptor lists one after the other. */
  lemma {:induction false} FleetAppend(a: seq<Creation>, b: seq<Creation>)
    ensures Fleet(a + b) ==
      if Fleet(a).Some? && Fleet(b).Some? then Some(Fleet(a).value + Fleet(b).value) else None
    decreases |b|
  {
    if b == [] {
      assert a + b == a;
      if Fleet(a).Some? { assert Fleet(a).value + [] == Fleet(a).value; }
    } else {
      var b' := b[..|b| - 1];
      assert (a + b)[..|a + b| - 1] == a + b';
      FleetAppend(a, b');
      if Fleet(b').Some? && Fleet(a).Some? && b[|b| - 1].Created? {
        assert Fleet(a).value + Fleet(b').value + [b[|b| - 1].cells]
            == Fleet(a).value + (Fleet(b').value + [b[|b| - 1].cells]);
      }
    }
  }

  /** The fleet is missing exactly when some creation throws, and never outnumbers the descriptors. */
  lemma {:induction false} FleetThrows(cs: seq<Creation>)
    ensures Fleet(cs).None? <==> exists i :: 0 <= i < |cs| && cs[i].Threw?
    ensures Fleet(cs).Some? ==> |Fleet(cs).value| <= |cs|
    decreases |cs|
  {
    if cs != [] {
      var init := cs[..|cs| - 1];
      FleetThrows(init);
      if exists i :: 0 <= i < |init| && init[i].Threw? {
        var i :| 0 <= i < |init| && init[i].Threw?;
        assert cs[i] == init[i];
      }
      if exists i :: 0 <= i < |cs| && cs[i].Threw? {
        var i :| 0 <= i < |cs| && cs[i].Threw?;
        if i < |init| { assert init[i] == cs[i]; }
      }
    }
  }

  /** `Play` gives -1 exactly when some descriptor is valid but throws; otherwise a count between 0 and the number of descriptors. */
  lemma ScoreRange(ships: seq<string>, guesses: seq<string>)
    ensures Score(ships, guesses) == -1 <==> exists i :: 0 <= i < |ships| && Create(ships[i]).Threw?
    ensures Score(ships, guesses) != -1 ==> 0 <= Score(ships, guesses) <= |ships|
  {
    FleetThrows(Creations(ships));
    CreationsAt(ships);
  }

  /** A rejection anywhere in the list leaves the fleet as it was. */
  lemma FleetSkipsRejected(ca: seq<Creation>, r: Creation, cb: seq<Creation>)
    requires r.Rejected?
    ensures Fleet(ca + [r] + cb) == Fleet(ca + cb)
  {
    FleetAppend(ca + [r], cb);
    FleetSnoc(ca, r);
    FleetAppend(ca, cb);
  }

  /** A rejected descriptor anywhere in the list changes nothing. */
  lemma ScoreSkipsRejected(a: seq<string>, d: string, b: seq<string>, guesses: seq<string>)
    requires Create(d).Rejected?
    ensures Score(a + [d] + b, guesses) == Score(a + b, guesses)
  {
    CreationsAppend(a + [d], b);
    CreationsAppend(a, [d]);
    CreationsOne(d);
    CreationsAppend(a, b);
    FleetSkipsRejected(Creations(a), Create(d), Creations(b));
  }

  /** Only which texts were guessed matters: order and repetitions do not change the score. */
  lemma ScoreIgnoresGuessOrder(ships: seq<string>, g1: seq<string>, g2: seq<string>)
    requires forall g :: g in g1 <==> g in g2
    ensures Score(ships, g1) == Score(ships, g2)
  {
    if Fleet(Creations(ships)).Some? {
      var fleet := Fleet(Creations(ships)).value;
      forall j | 0 <= j < |fleet|
        ensures AfterGuesses(fleet, g1)[j] == AfterGuesses(fleet, g2)[j]
      {
        GuessOrderIrrelevant(fleet[j], g1, g2);
      }
      assert AfterGuesses(fleet, g1) == AfterGuesses(fleet, g2);
    }
  }

  /** More guesses never lower the score: a sunk ship stays sunk. */
  lemma {:induction false} CountSunkMonotone(before: seq<Table>, after: seq<Table>)
    requires |before| == |after|
    requires forall j :: 0 <= j < |before| && Sunk(before[j]) ==> Sunk(after[j])
    ensures CountSunk(before) <= CountSunk(after)
    decreases |before|
  {
    if before != [] {
      CountSunkMonotone(before[..|before| - 1], after[..|after| - 1]);
    }
  }

  lemma ScoreGrowsWithGuesses(ships: seq<string>, guesses: seq<string>, more: seq<string>)
    ensures Score(ships, guesses) <= Score(ships, guesses + more)
  {
    if Fleet(Creations(ships)).Some? {
      var fleet := Fleet(Creations(ships)).value;
      var before, after := AfterGuesses(fleet, guesses), AfterGuesses(fleet, guesses + more);
      forall j | 0 <= j < |fleet| && Sunk(before[j])
        ensures Sunk(after[j])
      {
        SunkAfter(fleet[j], guesses);
        SunkAfter(fleet[j], guesses + more);
      }
      CountSunkMonotone(before, after);
    }
  }
}
