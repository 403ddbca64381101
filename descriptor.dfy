/**
 * The ship-descriptor parser and validator of `Ship.TryCreateShip`: a text
 * "x1:y1,x2:y2" becomes two typed coordinates, which must be axis-aligned
 * and at most four cells long (three apart), or one of three error messages.
 */
module Descriptor {
  import opened Wrappers
  import opened Seqs
  import opened Text
  import opened CellTable

  /** One comma-separated token: exactly two colon-separated fields that both parse as integers. */
  function ParseCoordinate(token: string): Option<ShipCoordinate>
  {
    var data := Split(token, ':');
    if |data| == 2 then
      match (ParseInt(data[0]), ParseInt(data[1]))
      case (Some(x), Some(y)) => Some(ShipCoordinate(false, x, y))
      case _ => None
    else None
  }

  /** The `Select`/`Where` over the tokens: each token that parses, in order; the rest are dropped. */
  function ParseTokens(tokens: seq<string>): (cs: seq<ShipCoordinate>)
    ensures |cs| <= |tokens|
  {
    FilterMap(ParseCoordinate, tokens)
  }

  function ParseCoordinates(descriptor: string): seq<ShipCoordinate>
  {
    ParseTokens(Split(descriptor, ','))
  }

  lemma ParseTokensAppend(a: seq<string>, b: seq<string>)
    ensures ParseTokens(a + b) == ParseTokens(a) + ParseTokens(b)
  {
    FilterMapAppend(ParseCoordinate, a, b);
  }

  /** A comma joins the coordinates of its two sides, so a token that does not parse is simply dropped. */
  lemma ParseCoordinatesConcat(a: string, b: string)
    ensures ParseCoordinates(a + "," + b) == ParseCoordinates(a) + ParseCoordinates(b)
  {
    SplitConcat(a, ',', b);
    ParseTokensAppend(Split(a, ','), Split(b, ','));
  }

  /** A cell key is itself a well-formed token, so a descriptor written from keys parses back. */
  lemma ParseKey(x: int, y: int)
    requires IsInt32(x) && IsInt32(y)
    ensures ParseCoordinate(Key(x, y)) == Some(ShipCoordinate(false, x, y))
  {
    KeyFields(x, y);
    ParseIntToString(x);
    ParseIntToString(y);
  }

  /** Both fields fit in a C# `int`, as every parsed coordinate's do. */
  predicate InRange(c: ShipCoordinate) { IsInt32(c.x) && IsInt32(c.y) }


  /** The canonical descriptor of a ship from c1 to c2. */
  function Format(c1: ShipCoordinate, c2: ShipCoordinate): string
  {
    Key(c1.x, c1.y) + "," + Key(c2.x, c2.y)
  }

  lemma KeyHasNoComma(x: int, y: int)
    ensures ',' !in Key(x, y)
  {
    IntToStringShape(x);
    IntToStringShape(y);
  }

  /** A single cell key, read as a whole descriptor, gives back that one coordinate. */
  lemma ParseCoordinatesKey(x: int, y: int)
    requires IsInt32(x) && IsInt32(y)
    ensures ParseCoordinates(Key(x, y)) == [ShipCoordinate(false, x, y)]
  {
    KeyHasNoComma(x, y);
    SplitNoSeparator(Key(x, y), ',');
    ParseKey(x, y);
  }

  lemma ParseFormat(c1: ShipCoordinate, c2: ShipCoordinate)
    requires InRange(c1) && InRange(c2)
    ensures ParseCoordinates(Format(c1, c2)) == [c1.(isHit := false), c2.(isHit := false)]
  {
    ParseCoordinatesConcat(Key(c1.x, c1.y), Key(c2.x, c2.y));
    ParseCoordinatesKey(c1.x, c1.y);
    ParseCoordinatesKey(c2.x, c2.y);
  }

  // ------------------------------------------------------------ validation

  datatype ShipError =
    | WrongCoordinateCount   // not exactly two tokens parsed
    | NotAxisAligned         // the two coordinates share neither column nor row
    | InvalidLength(len: int)

  /** The message `TryCreateShip` reports for each rejection, naming the descriptor. */
  function Message(e: ShipError, descriptor: string): string
  {
    match e
    case WrongCoordinateCount => "Invalid Ship-Coordinate value : " + descriptor
    case NotAxisAligned =>
      "Invalid Invalid Ship-Coordinate value : " + descriptor + ". Neither parked Horizontally or Vertically"
    case InvalidLength(len) => "Invalid Ship Length " + IntToString(len) + ": Ship " + descriptor
  }

  function Abs(n: int): nat { if n < 0 then -n else n }

  predicate Aligned(c1: ShipCoordinate, c2: ShipCoordinate) { c1.x == c2.x || c1.y == c2.y }

  /** How far apart two aligned coordinates are along the axis on which they differ. */
  function Distance(c1: ShipCoordinate, c2: ShipCoordinate): nat
  {
    if c1.x == c2.x then Abs(c2.y - c1.y) else Abs(c2.x - c1.x)
  }

  /**
   * The checks of `TryCreateShip` before it builds the ship: exactly two
   * coordinates, sharing a column (checked first) or a row, with length
   * |Δ| + 1 in [1, 4]. Length 1, a single cell, passes.
   */
  function Validate(descriptor: string): Result<(ShipCoordinate, ShipCoordinate), ShipError>
  {
    var typeCoordinate := ParseCoordinates(descriptor);
    if |typeCoordinate| == 2 then
      var c1, c2 := typeCoordinate[0], typeCoordinate[1];
      if c1.x == c2.x then
        var len := Abs(c2.y - c1.y) + 1;
        if 1 <= len <= 4 then Success((c1, c2)) else Failure(InvalidLength(len))
      else if c1.y == c2.y then
        var len := Abs(c2.x - c1.x) + 1;
        if 1 <= len <= 4 then Success((c1, c2)) else Failure(InvalidLength(len))
      else Failure(NotAxisAligned)
    else Failure(WrongCoordinateCount)
  }

  /**
   * Exactly two parsed coordinates are required; they must share a column or a row;
   * and they may be at most three cells apart, so length 1 (one cell) passes.
   */
  lemma ValidateCases(descriptor: string)
    ensures var r, cs := Validate(descriptor), ParseCoordinates(descriptor);
      && (r == Failure(WrongCoordinateCount) <==> |cs| != 2)
      && (r == Failure(NotAxisAligned) <==> |cs| == 2 && !Aligned(cs[0], cs[1]))
      && (r.Success? <==> |cs| == 2 && Aligned(cs[0], cs[1]) && Distance(cs[0], cs[1]) <= 3)
      && (r.Success? ==> r.value == (cs[0], cs[1]))
      && (r.Failure? && r.error.InvalidLength? ==>
            |cs| == 2 && Aligned(cs[0], cs[1]) && r.error.len == Distance(cs[0], cs[1]) + 1 > 4)
  {
  }

  /** A canonical descriptor is accepted iff its endpoints are aligned and at most three cells apart. */
  lemma ValidateFormat(c1: ShipCoordinate, c2: ShipCoordinate)
    requires InRange(c1) && InRange(c2) && !c1.isHit && !c2.isHit
    ensures Validate(Format(c1, c2)) ==
      if !Aligned(c1, c2) then Failure(NotAxisAligned)
      else if Distance(c1, c2) <= 3 then Success((c1, c2))
      else Failure(InvalidLength(Distance(c1, c2) + 1))
  {
    ParseFormat(c1, c2);
    ValidateCases(Format(c1, c2));
  }

  // ------------------------------------------------------------ creation

  /** What a call of `TryCreateShip` comes to: a fresh cell table, a rejection message, or an exception. */
  datatype Creation = Created(cells: Table) | Rejected(message: string) | Threw

  /**
   * Validation, then the constructor, which throws on a single-cell ship and
   * on a loop whose counter wraps (`LoopWraps`).
   */
  function Create(descriptor: string): Creation
  {
    match Validate(descriptor)
    case Failure(e) => Rejected(Message(e, descriptor))
    case Success((c1, c2)) =>
      match InitialTable(c1, c2)
      case None => Threw
      case Some(t) => Created(t)
  }

  /** A descriptor that fails validation is rejected with the message of its error. */
  lemma CreateRejected(descriptor: string)
    requires Validate(descriptor).Failure?
    ensures Create(descriptor) == Rejected(Message(Validate(descriptor).error, descriptor))
  {
  }

  /**
   * Creation throws exactly for a valid descriptor of length 1, both endpoints
   * the same cell, or one whose constructor loop runs up to `int.MaxValue`.
   */
  lemma CreateThrows(descriptor: string)
    ensures Create(descriptor).Threw? <==>
      Validate(descriptor).Success? &&
      (Distance(Validate(descriptor).value.0, Validate(descriptor).value.1) == 0 ||
       LoopWraps(Validate(descriptor).value.0, Validate(descriptor).value.1))
  {
    if Validate(descriptor).Success? {
      var (c1, c2) := Validate(descriptor).value;
      ConstructorThrows(c1, c2);
    }
  }

  /**
   * A created ship has between 2 and 4 unhit cells along its forward segment,
   * or none at all when its second endpoint comes before its first.
   */
  lemma CreatedShip(descriptor: string)
    requires Create(descriptor).Created?
    ensures var t := Create(descriptor).cells; var (c1, c2) := Validate(descriptor).value;
      && WellKeyed(t) && NoneHit(t)
      && (forall k :: k in t ==> OnSegment(c1, c2, t[k].x, t[k].y))
      && (forall x, y :: OnSegment(c1, c2, x, y) ==> Key(x, y) in t && t[Key(x, y)] == ShipCoordinate(false, x, y))
      && |t| == ForwardSpan(c1, c2)
      && (|t| == 0 || 2 <= |t| <= 4)
  {
    CreatedFromTable(descriptor);
    var (c1, c2) := Validate(descriptor).value;
    ValidatedBounds(descriptor);
    ConstructorThrows(c1, c2);
    InitialTableContents(c1, c2);
  }

  // ------------------------------------------------------------ 32-bit length arithmetic

  /** The unchecked wrap-around of a C# `int` result. */
  function Wrap32(n: int): (r: int)
    ensures IsInt32(r)
    ensures (r - n) % 0x1_0000_0000 == 0
  {
    (n - INT_MIN) % 0x1_0000_0000 + INT_MIN
  }

  lemma Wrap32Fits(n: int)
    requires IsInt32(n)
    ensures Wrap32(n) == n
  {
    assert 0 <= n - INT_MIN < 0x1_0000_0000;
  }

  lemma Wrap32Above(n: int)
    requires IsInt32(n - 0x1_0000_0000)
    ensures Wrap32(n) == n - 0x1_0000_0000
  {
    var k := n - INT_MIN;
    assert 0x1_0000_0000 <= k < 2 * 0x1_0000_0000;
    assert k % 0x1_0000_0000 == k - 0x1_0000_0000;
  }

  lemma Wrap32Below(n: int)
    requires IsInt32(n + 0x1_0000_0000)
    ensures Wrap32(n) == n + 0x1_0000_0000
  {
    var k := n - INT_MIN;
    assert -0x1_0000_0000 <= k < 0;
    assert k % 0x1_0000_0000 == k + 0x1_0000_0000;
  }

  /**
   * `Math.Abs(to - from) + 1` on C# `int`s, as `TryCreateShip` computes a
   * length: the subtraction and the increment wrap, and `Math.Abs` throws on
   * `int.MinValue` (None).
   */
  function LengthAsWritten(from: int, to: int): Option<int>
  {
    var d := Wrap32(to - from);
    if d == INT_MIN then None else Some(Wrap32(Abs(d) + 1))
  }

  /** Whenever the absolute difference of the coordinates is below `int.MaxValue`, the 32-bit length is the true one. */
  lemma LengthAsWrittenAgrees(from: int, to: int)
    requires -INT_MAX < to - from < INT_MAX
    ensures LengthAsWritten(from, to) == Some(Abs(to - from) + 1)
  {
    Wrap32Fits(to - from);
    Wrap32Fits(Abs(to - from) + 1);
  }

  /**
   * Endpoints at the two ends of the `int` range: the 32-bit subtraction wraps
   * to -1, so the code computes length 2 and accepts the ship, while the true
   * length, which the model checks, is 2^32 (see `ValidateFormat`).
   */
  lemma LengthOverflow(c1: ShipCoordinate, c2: ShipCoordinate)
    requires c1.x == c2.x && c1.y == INT_MIN && c2.y == INT_MAX
    ensures LengthAsWritten(c1.y, c2.y) == Some(2)
    ensures Distance(c1, c2) + 1 == 0x1_0000_0000
  {
    Wrap32Above(c2.y - c1.y);
    Wrap32Fits(2);
  }

  /**
   * Endpoints `int.MaxValue` apart: `Math.Abs` gives `int.MaxValue`, the `+ 1`
   * wraps, and the code rejects the ship with length -2147483648, where the
   * model reports the true length 2^31.
   */
  lemma LengthWrapsNegative(from: int, to: int)
    requires to - from == INT_MAX
    ensures LengthAsWritten(from, to) == Some(INT_MIN)
    ensures Abs(to - from) + 1 == 0x8000_0000
  {
    Wrap32Fits(to - from);
    Wrap32Above(INT_MAX + 1);
  }

  /**
   * A column walked backwards from `int.MaxValue - 2` to `int.MinValue`: the
   * 32-bit subtraction wraps to 3, so the code computes length 4 and accepts
   * the ship, while the true length is 2^32 - 2. The constructor's loop then
   * runs zero times, so the ship has no cells and is sunk from the start.
   */
  lemma LengthWrapsShort(c1: ShipCoordinate, c2: ShipCoordinate)
    requires c1.x == c2.x && c1.y == INT_MAX - 2 && c2.y == INT_MIN
    ensures LengthAsWritten(c1.y, c2.y) == Some(4)
    ensures Distance(c1, c2) + 1 == 0x1_0000_0000 - 2
    ensures InitialTable(c1, c2) == Some(map[])
  {
    Wrap32Below(c2.y - c1.y);
    Wrap32Fits(4);
  }

  lemma ValidatedBounds(descriptor: string)
    requires Validate(descriptor).Success?
    ensures Aligned(Validate(descriptor).value.0, Validate(descriptor).value.1)
    ensures Distance(Validate(descriptor).value.0, Validate(descriptor).value.1) <= 3
  {
    ValidateCases(descriptor);
  }

  lemma CreatedFromTable(descriptor: string)
    requires Create(descriptor).Created?
    ensures Validate(descriptor).Success?
    ensures InitialTable(Validate(descriptor).value.0, Validate(descriptor).value.1) == Some(Create(descriptor).cells)
  {
  }
}
