# Battleships scoring, modelled in Dafny

This project models `Battleships/Game.cs`. That file scores one round of
battleships. `Game.Play` gets two string arrays:

- ship descriptors such as `"3:2,3:5"`, giving a first and a last coordinate;
- guesses such as `"7:0"`.

`Play` first builds a `Ship` for each descriptor that `Ship.TryCreateShip`
accepts. It then calls `Ship.Hit` with every guess on every ship, and returns
how many ships `Ship.IsSunk` reports sunk. An exception anywhere turns the
answer into -1.

The model has these modules:

- `Wrappers`: `Option` and `Result`.
- `Seqs`: generic sequence facts, including a generic map and filter-map.
- `Text`: the two pieces of .NET string handling that the code relies on.
  - `String.Split` on one character. Each separator splits, and empty pieces are kept.
  - `int.TryParse` in its default style. Surrounding white space and one leading `+` or `-` are allowed. The digits are ASCII only, and the value must fit in an `int`.
  - It also models `{n}` formatting of an `int` in an interpolated string.
- `CellTable`:
  - `ShipCoordinate`, the `(isHit, x, y)` value;
  - the ship's dictionary as a `map<string, ShipCoordinate>` keyed by `"x:y"`;
  - the constructor's two loops as the function `Line`;
  - a guess as `Mark`, and a sequence of guesses as `MarkAll`;
  - the sunk test `Sunk`.
- `Descriptor`: the parse and validation steps of `TryCreateShip`, with its three error messages word for word. `Create` is the outcome of one call: a cell table, a rejection message, or an exception.
- `Ships`: the class `Ship`. Its field `cells` is the dictionary.
  - `Construct` is the private constructor. Its two `for` loops are `while` loops inside `AddLine`.
  - `Hit` updates `cells` in place.
  - `IsSunk` reads `cells`.
  - `TryCreateShip` is proved against `Create`.
- `Game`: `Play` as a method with the three loops of the source.
  - The method is proved equal to the function `Score`.
  - Lemmas about `Score` state what the game promises.
- `Scenarios`: the five unit tests of `Battleships.Test/GameTest.cs`, stated as lemmas about `Score`, plus edge cases the code exhibits.

The code decides four edge cases differently from its own comments. The
model follows the code.

- A length of 1 passes the length check: `len >= 1`, where the comment says ships are 2 to 4 units long. The descriptor `"3:3,3:3"` is therefore accepted. Both constructor loops then add key `"3:3"`, and `Dictionary.Add` throws on the second one. The exception leaves `TryCreateShip`, so `Play` returns -1 for the whole game (`Scenarios.SingleCellShipAbortsGame`).
- When the second endpoint comes before the first, as in `"7:0,6:0"`, the descriptor is accepted but the loop runs zero times. The ship has no cells, so it counts as sunk whatever is guessed (`Scenarios.BackwardShipSunk`). The unit test `TestPlay_Sunk2Ship` depends on this.
- Guesses are compared with the dictionary keys as exact strings. `"03:3"` or `" 3:3"` never hits a ship.
- A ship whose loop runs up to `int.MaxValue`, such as `"0:2147483646,0:2147483647"`, passes validation. In the constructor, `i <= _c2.Y` can then never fail: `i++` wraps to `int.MinValue`, and the loop cannot end. `Add` throws once the dictionary outgrows its capacity (or memory), well before any key repeats. `Play` returns -1 (`Scenarios.CounterWrapAbortsGame`).

## Model

| member | source | states |
|---|---|---|
| Text.Split | Battleships/Game.cs:131 | `Split` yields one more piece than there are separators |
| Text.SplitPieces | Battleships/Game.cs:131 | no piece contains the separator |
| Text.JoinSplit | Battleships/Game.cs:131 | joining the pieces with the separator gives back the text |
| Text.SplitNoSeparator | Battleships/Game.cs:136 | text without the separator splits into itself alone |
| Text.SplitConcat | Battleships/Game.cs:131 | splitting `a + sep + b` gives the pieces of `a` followed by the pieces of `b` |
| Text.SplitJoin | Battleships/Game.cs:131 | splitting the join of pieces that hold no separator gives back the pieces |
| Text.IntToString | Battleships/Game.cs:108 | definition of `{n}` for an `int`; its properties are in `IntToStringShape`, `IntToStringInjective` and `ReadIntegerOfString` |
| Text.NatToStringDigits | Battleships/Game.cs:108 | a formatted natural number is all digits, with no leading zero unless it is 0 |
| Text.IntToStringShape | Battleships/Game.cs:108 | a formatted `int` is digits after at most one leading minus sign |
| Text.TrimStart | Battleships/Game.cs:140 | the result does not start with white space and holds only characters of the input; `TrimStartDrops` states the rest |
| Text.TrimEnd | Battleships/Game.cs:140 | the result does not end with white space and holds only characters of the input; `TrimEndDrops` states the rest |
| Text.TrimStartDrops | Battleships/Game.cs:140 | `TrimStart` keeps a suffix of the input, and everything it drops is white space |
| Text.TrimEndDrops | Battleships/Game.cs:140 | `TrimEnd` keeps a prefix of the input, and everything it drops is white space |
| Text.ReadInteger | Battleships/Game.cs:140-142 | definition of the integer that `int.TryParse`'s default style reads, before the range check; `ReadIntegerOfString` is its round trip |
| Text.ParseInt | Battleships/Game.cs:140-142 | `int.TryParse` only succeeds with a value in the `int` range |
| Text.ParseIntDigits | Battleships/Game.cs:140-142 | a run of digits parses to its value when that fits, and text without digits never parses |
| Text.DigitsValueOfNatToString | Battleships/Game.cs:108 | the digits of a formatted natural number have that number as their value |
| Text.ReadIntegerOfString | Battleships/Game.cs:140-142 | every formatted integer reads back as itself |
| Text.ParseIntToString | Battleships/Game.cs:140-142 | every formatted `int` parses back as itself |
| Text.IntToStringInjective | Battleships/Game.cs:108 | two integers format the same if and only if they are equal |
| CellTable.Key | Battleships/Game.cs:108 | definition of the key `"x:y"`, used for lines 108 and 115; `KeyFields` and `KeyInjective` carry its properties |
| CellTable.KeyFields | Battleships/Game.cs:108 | a cell key `"x:y"` splits on `:` into the formatted x and y |
| CellTable.KeyInjective | Battleships/Game.cs:108 | two cells have the same key if and only if they have the same coordinates |
| CellTable.Line | Battleships/Game.cs:106-116 | definition of the entries one constructor loop adds; `LineEntries` and `LineContents` carry its properties |
| CellTable.LineEntries | Battleships/Game.cs:106-109 | every entry of a constructor loop is an unhit cell of that line, stored under its own key |
| CellTable.LineStepIsNew | Battleships/Game.cs:106-108 | a step's key was not added by an earlier step of the same loop |
| CellTable.LineContents | Battleships/Game.cs:106-109 | the loop adds one entry per step from `lo` to `hi`: hi - lo + 1 entries, or none when hi < lo |
| CellTable.LineExtend | Battleships/Game.cs:108 | while the keys are new, one more `Add` extends the dictionary by that step's entry |
| CellTable.LineClash | Battleships/Game.cs:108 | a key already present at some step means the loop's keys overlap the dictionary |
| CellTable.CounterWraps | Battleships/Game.cs:106 | definition: a loop whose counter reaches `int.MaxValue`, where `i++` wraps and `i <= hi` never fails |
| CellTable.LoopWraps | Battleships/Game.cs:104-117 | definition: one of the two constructor loops is such a loop |
| CellTable.InitialTable | Battleships/Game.cs:99-118 | definition of the constructor's dictionary, `None` when it throws; `ConstructorThrows` and `InitialTableContents` carry its properties |
| CellTable.ConstructorThrows | Battleships/Game.cs:99-118 | the constructor throws if and only if both endpoints are the same cell or a loop's counter wraps |
| CellTable.SegmentLine | Battleships/Game.cs:104-117 | a loop's entries are exactly the cells on the forward segment between the endpoints |
| CellTable.InitialTableContents | Battleships/Game.cs:99-118 | when the endpoints differ and no counter wraps, the constructed dictionary is well keyed and unhit, holds exactly the forward-segment cells, and has `ForwardSpan` entries |
| CellTable.Mark | Battleships/Game.cs:83-89 | definition of one `Hit` on a dictionary; `MarkChangesOnlyGuessedEntry`, `MarkIdempotent` and `MarkCommutes` carry its properties |
| CellTable.MarkAll | Battleships/Game.cs:43-49 | definition of the guesses applied in order; `MarkAllHits` and `GuessOrderIrrelevant` carry its properties |
| CellTable.Sunk | Battleships/Game.cs:91-97 | definition of `IsSunk` on a dictionary; `SunkAfter`, `SinkingNeedsEveryCell` and `SinkingNeedsLengthManyHits` carry its properties |
| CellTable.MarkAllStep | Battleships/Game.cs:43-49 | applying one more guess is one more `Hit` |
| CellTable.MarkChangesOnlyGuessedEntry | Battleships/Game.cs:83-89 | `Hit` keeps the keys, sets only the guessed entry's flag, and changes nothing for a key not present |
| CellTable.MarkIdempotent | Battleships/Game.cs:83-89 | hitting the same cell twice is the same as once |
| CellTable.MarkCommutes | Battleships/Game.cs:43-49 | two guesses have the same effect in either order |
| CellTable.MarkAllHits | Battleships/Game.cs:43-49 | after the guesses, a cell is hit if and only if it was hit before or its key was guessed |
| CellTable.GuessOrderIrrelevant | Battleships/Game.cs:43-49 | two guess sequences with the same elements leave the same dictionary |
| CellTable.SunkAfter | Battleships/Game.cs:91-97 | after the guesses, a ship is sunk if and only if every cell was already hit or was guessed |
| CellTable.SunkStaysSunk | Battleships/Game.cs:83-97 | more guesses never un-sink a ship |
| CellTable.SinkingNeedsEveryCell | Battleships/Game.cs:91-97 | a fresh ship sinks if and only if all of its keys are among the guesses |
| CellTable.SinkingNeedsLengthManyHits | Battleships/Game.cs:91-97 | a fresh ship sinks if and only if as many distinct keys are guessed as it has cells |
| Descriptor.ParseCoordinate | Battleships/Game.cs:136-150 | definition of one token's parse: exactly two `:` fields, both `int`s; `ParseKey` is its round trip |
| Descriptor.ParseTokens | Battleships/Game.cs:134-152 | the `Select`/`Where` yields at most one coordinate per token |
| Descriptor.ParseTokensAppend | Battleships/Game.cs:134-152 | the filter keeps order: parsing `a + b` gives the coordinates of `a` followed by those of `b` |
| Descriptor.ParseCoordinatesConcat | Battleships/Game.cs:131-152 | a comma-joined descriptor parses to the coordinates of its two sides, in order |
| Descriptor.ParseCoordinates | Battleships/Game.cs:131-152 | definition of `typeCoordinate`, the `Split(',')` followed by the `Select`/`Where`; `ParseCoordinatesConcat`, `ParseCoordinatesKey` and `ParseFormat` carry its properties |
| Descriptor.ParseKey | Battleships/Game.cs:136-146 | the key of an `int` cell parses back to that unhit cell |
| Descriptor.KeyHasNoComma | Battleships/Game.cs:131 | a cell key holds no comma |
| Descriptor.ParseCoordinatesKey | Battleships/Game.cs:131-152 | a descriptor that is one key parses to exactly that one cell |
| Descriptor.ParseFormat | Battleships/Game.cs:131-152 | `"x1:y1,x2:y2"` parses to the two coordinates, unhit |
| Descriptor.Validate | Battleships/Game.cs:155-198 | definition of the checks before construction; `ValidateCases`, `ValidateFormat` and `ValidatedBounds` carry its properties |
| Descriptor.Message | Battleships/Game.cs:176-212 | definition of the three messages word for word (lines 176, 190, 197 and 212); `CreateRejected` ties them to rejections |
| Descriptor.ValidateCases | Battleships/Game.cs:155-198 | the three rejections: there must be exactly two coordinates, sharing a column or a row, and at most three cells apart; an accepted pair is the parsed pair, and the reported length is distance + 1 > 4 |
| Descriptor.ValidateFormat | Battleships/Game.cs:155-198 | a descriptor written from two `int` cells is rejected as not aligned, accepted, or rejected with length distance + 1 |
| Descriptor.Create | Battleships/Game.cs:127-216 | definition of what one `TryCreateShip` call comes to; `CreateRejected`, `CreateThrows`, `CreatedShip` and `Ships.Ship.TryCreateShip` carry its properties |
| Descriptor.CreateRejected | Battleships/Game.cs:209-215 | a descriptor that fails validation yields no ship and the message of its error |
| Descriptor.CreateThrows | Battleships/Game.cs:200-202 | creation throws if and only if the descriptor validates and either both endpoints are the same cell or a constructor loop's counter wraps |
| Descriptor.CreatedShip | Battleships/Game.cs:200-206 | a created ship is well keyed and unhit, holds exactly its forward-segment cells, and has 0 or 2 to 4 of them |
| Descriptor.ValidatedBounds | Battleships/Game.cs:166-192 | an accepted pair is aligned and at most three cells apart |
| Descriptor.CreatedFromTable | Battleships/Game.cs:200-206 | a created ship's dictionary is the one the constructor builds from the validated pair |
| Descriptor.Wrap32 | Battleships/Game.cs:168 | the 32-bit result lies in the `int` range and is congruent to the true value modulo 2^32 |
| Descriptor.LengthAsWritten | Battleships/Game.cs:168-182 | definition of the 32-bit `Math.Abs(c2.Y - c1.Y) + 1` (and the same for X), `None` where `Math.Abs` throws; `LengthAsWrittenAgrees`, `LengthOverflow`, `LengthWrapsNegative` and `LengthWrapsShort` carry its properties |
| Descriptor.LengthAsWrittenAgrees | Battleships/Game.cs:168 | whenever the absolute difference is below `int.MaxValue`, the code's 32-bit length equals the true length |
| Descriptor.LengthOverflow | Battleships/Game.cs:168 | for endpoints `int.MinValue` and `int.MaxValue` in one column, the code computes length 2 while the true length is 2^32 |
| Descriptor.LengthWrapsNegative | Battleships/Game.cs:168-176 | for endpoints exactly `int.MaxValue` apart, the code's length wraps to -2147483648 while the true length is 2^31 |
| Descriptor.LengthWrapsShort | Battleships/Game.cs:166-172 | for a column walked backwards from `int.MaxValue - 2` to `int.MinValue`, the code computes length 4 while the true length is 2^32 - 2, and the constructor's table is empty |
| Ships.Ship.Empty | Battleships/Game.cs:103 | the new ship's dictionary is empty |
| Ships.Ship.Construct | Battleships/Game.cs:99-118 | the constructor returns a fresh ship holding `InitialTable(c1, c2)`, or throws (null) exactly when that table does not exist |
| Ships.Ship.AddLine | Battleships/Game.cs:104-117 | a loop adds all its entries if none of its keys is already present and its counter does not wrap, and otherwise reports the exception `Add` raises (a repeated key, or the endless wrapped loop outgrowing the dictionary) |
| Ships.Ship.Hit | Battleships/Game.cs:83-89 | the guessed entry, if present, becomes hit; nothing else changes; the keys stay the same |
| Ships.Ship.IsSunk | Battleships/Game.cs:91-97 | sunk if and only if every cell is hit, so an empty ship is sunk |
| Ships.Ship.TryCreateShip | Battleships/Game.cs:127-216 | returns success with a fresh ship of the created cells, null with its error message, or reports the constructor's exception, as `Create` says |
| Game.Creations | Battleships/Game.cs:27-29 | one outcome per descriptor |
| Game.CreationsAt | Battleships/Game.cs:27-29 | the i-th outcome is `TryCreateShip` on the i-th descriptor |
| Game.CreationsAppend | Battleships/Game.cs:27-29 | the outcomes of two descriptor lists concatenate |
| Game.Step | Battleships/Game.cs:29-36 | definition of one turn of the first loop: keep a created ship, skip a rejection, abort on an exception; `FleetSkipsRejected` and `FleetAborts` carry its properties |
| Game.Fleet | Battleships/Game.cs:26-37 | definition of the ship list the first loop builds; `FleetAppend` and `FleetThrows` carry its properties |
| Game.Score | Battleships/Game.cs:21-62 | definition of what `Play` returns; `Game.Play` is proved equal to it, and `ScoreRange`, `ScoreSkipsRejected`, `ScoreIgnoresGuessOrder` and `ScoreGrowsWithGuesses` carry its properties |
| Game.FleetSnoc | Battleships/Game.cs:27-37 | one more descriptor is one more turn of the first loop |
| Game.FleetTake | Battleships/Game.cs:27-37 | the loop's state after i + 1 descriptors is one step from its state after i |
| Game.AfterGuesses | Battleships/Game.cs:43-49 | the guesses leave as many ships as there were |
| Game.CountSunk | Battleships/Game.cs:52-54 | the count of sunk ships is at most the number of ships |
| Game.Play | Battleships/Game.cs:21-62 | `Play` returns `Score`: -1 when a construction throws, otherwise the number of valid ships sunk by the guesses |
| Game.CreateShips | Battleships/Game.cs:26-37 | the first loop keeps a fresh, distinct ship for each created table in order, skips rejections, and stops when a construction throws |
| Game.CreateNext | Battleships/Game.cs:29-36 | one `TryCreateShip` call yields a new ship exactly when the descriptor creates one, and reports the exception exactly when it throws |
| Game.HitShips | Battleships/Game.cs:43-49 | after the nested loops, each ship holds its table with every guess applied |
| Game.HitEveryShip | Battleships/Game.cs:45-48 | the inner loop applies one guess to every ship, and the ships being distinct they do not interfere |
| Game.CountSunkShips | Battleships/Game.cs:52-54 | the `Where`/`Count` returns the number of sunk tables |
| Game.FleetAborts | Battleships/Game.cs:56-61 | once a construction has thrown, the game's outcome is the exception whatever follows |
| Game.FleetAppend | Battleships/Game.cs:26-37 | the first loop over two lists is the loop over the first, continued over the second |
| Game.FleetThrows | Battleships/Game.cs:26-37 | the first loop ends in an exception if and only if some descriptor throws; otherwise it keeps at most one ship per descriptor |
| Game.ScoreRange | Battleships/Game.cs:21-62 | `Play` is -1 if and only if some descriptor throws, and otherwise between 0 and the number of descriptors |
| Game.FleetSkipsRejected | Battleships/Game.cs:33-36 | a rejected descriptor leaves the ship list as if it were absent |
| Game.ScoreSkipsRejected | Battleships/Game.cs:33-36 | removing a rejected descriptor does not change the score |
| Game.ScoreIgnoresGuessOrder | Battleships/Game.cs:43-54 | two guess lists with the same elements give the same score |
| Game.CountSunkMonotone | Battleships/Game.cs:52-54 | if every sunk ship stays sunk, the count does not fall |
| Game.ScoreGrowsWithGuesses | Battleships/Game.cs:43-54 | more guesses never lower the score |
| Scenarios.CreateFormat | Battleships/Game.cs:127-216 | an aligned descriptor of 2 to 4 cells, or a backward one, whose counter does not wrap creates the constructor's table |
| Scenarios.SegmentSunk | Battleships/Game.cs:91-118 | a created ship sinks if and only if every key on its forward segment is guessed |
| Scenarios.ScoreOne | Battleships/Game.cs:21-62 | the score of one created ship is 1 if the guesses sink it and 0 otherwise |
| Scenarios.ScoreTwo | Battleships/Game.cs:21-62 | the score of two created ships is the number of them the guesses sink |
| Scenarios.ScoreSkipsSecond | Battleships/Game.cs:33-36 | a rejected second descriptor does not change the score |
| Scenarios.ScoreSkipsFirst | Battleships/Game.cs:33-36 | a rejected first descriptor does not change the score |
| Scenarios.LongShip | Battleships.Test/GameTest.cs:16 | `"3:2,3:5"` creates the four cells of column 3, rows 2 to 5 |
| Scenarios.LongShipSunk | Battleships.Test/GameTest.cs:24-25 | that ship sinks if and only if `"3:2"`, `"3:3"`, `"3:4"` and `"3:5"` are all guessed |
| Scenarios.BackwardShipSunk | Battleships.Test/GameTest.cs:32 | `"7:0,6:0"` creates a ship with no cells, sunk whatever is guessed |
| Scenarios.DiagonalShipRejected | Battleships.Test/GameTest.cs:41 | `"3:6,4:7"` is rejected with the not-aligned message |
| Scenarios.FiveCellShipRejected | Battleships.Test/GameTest.cs:50 | `"3:2,3:6"` is rejected with the invalid-length message for length 5 |
| Scenarios.TestPlay | Battleships.Test/GameTest.cs:13-19 | `Play(["3:2,3:5"], ["7:0", "3:3"])` is 0 |
| Scenarios.TestPlaySunkOneShip | Battleships.Test/GameTest.cs:21-27 | `Play(["3:2,3:5"], ["7:0", "3:3", "3:4", "3:5", "3:2"])` is 1 |
| Scenarios.TestPlaySunk2Ship | Battleships.Test/GameTest.cs:29-35 | `Play(["3:2,3:5", "7:0,6:0"], [...])` is 2 |
| Scenarios.TestPlayWithOneInvalidShip | Battleships.Test/GameTest.cs:37-44 | `Play(["3:2,3:5", "3:6,4:7"], ["7:0", "3:3"])` is 0 |
| Scenarios.TestPlayShipWithInvalidLength | Battleships.Test/GameTest.cs:46-53 | `Play(["3:2,3:6", "7:0,6:0"], [...])` is 1 |
| Scenarios.SingleCellShipAbortsGame | Battleships/Game.cs:166-172 | `"3:3,3:3"` passes the length check, its constructor throws, and any game containing only it returns -1 |
| Scenarios.CounterWrapAbortsGame | Battleships/Game.cs:104-117 | a two-cell ship ending at `int.MaxValue` passes validation, its constructor throws, and a game containing only it returns -1 |

## Left out

- `Console.WriteLine` of rejection and exception messages (Battleships/Game.cs:35, 58) is output only. The rejection message is returned by `Ships.Ship.TryCreateShip` and placed in `Creation.Rejected`; the exception message is dropped.
- The unused local `hit` (line 41) and the fields `_c1` and `_c2` (lines 77-78, 101-102) are never read, so they are not modelled.
- `ShipCoordinate` is a class in the source and a datatype here. Each instance in the dictionary is created by the constructor and never shared, so updating its `IsHit` in place is the same as replacing the entry. The parsed endpoints are not the objects stored in the dictionary.
- Culture settings are not modelled. `int.TryParse` may accept the current culture's sign symbols, and it also accepts trailing NUL characters. `{n}` formatting of the keys (lines 108 and 115) uses the current culture's negative sign. The model takes the invariant culture for both: ASCII digits, `+`, `-`, and the white space U+0009 to U+000D and U+0020.
- Descriptor.Validate: computes `Math.Abs(c2.Y - c1.Y) + 1` (and the same for X) on unbounded integers. The code uses 32-bit unchecked arithmetic. The two agree when the absolute difference is below `int.MaxValue` (`Descriptor.LengthAsWrittenAgrees`). Beyond that the code differs in three ways:
  - it may accept the ship after the subtraction wraps, both ways recorded under Findings: `"0:-2147483648,0:2147483647"` gets length 2 and its constructor loop cannot end, so `Play` returns -1 (`Descriptor.LengthOverflow`); `"0:2147483645,0:-2147483648"` gets length 4, its constructor loop runs zero times, and `Play` counts an empty ship that is sunk from the start (`Descriptor.LengthWrapsShort`);
  - at difference `int.MaxValue` it rejects the ship with `"Invalid Ship Length -2147483648"`, where the model's message names 2147483648 (`Descriptor.LengthWrapsNegative`);
  - it throws when `Math.Abs` sees `int.MinValue`, which makes `Play` return -1.

  `Descriptor.LengthAsWritten` models the 32-bit computation.
- Null strings and arrays are not modelled, since sequences in the model are never null. In the code:
  - a null `ships` or `guesses` array makes `Play` return -1;
  - a null descriptor makes `Split` throw;
  - a null guess makes `ContainsKey(null)` throw whenever a ship exists.
- Running out of memory is modelled in one case only: a constructor loop whose counter wraps (`CellTable.CounterWraps`) cannot end, and `Add` throws once the dictionary outgrows its capacity or memory; `CellTable.InitialTable` is `None` and `Ships.Ship.AddLine` reports false there. Elsewhere it is not modelled.
- The 10×10 grid of the comments is never checked by the code, and the model does not check it either.
- The value of `errorMsg` when the constructor throws is not observable, since the exception leaves `TryCreateShip`. The model's `TryCreateShip` returns `""` in that case.
- At line 212, `IsNullOrWhiteSpace` is modelled as "no earlier branch set a message". Both earlier messages are never blank.
- `Play` is split into the methods `CreateShips`, `HitShips` and `CountSunkShips`, one per loop of the source. The LINQ `Where`/`Count` becomes a loop.

## Findings

| source | as written | input that shows it | evidently intended | confidence | as-written member | corrected member |
|---|---|---|---|---|---|---|
| Battleships/Game.cs:168 | `len = Math.Abs(c2.Y - c1.Y) + 1` in unchecked 32-bit arithmetic | `"0:-2147483648,0:2147483647"`: the difference wraps to -1, so `len` is 2 and the ship passes the length check | the length is the true distance plus one, 2^32 here, so the descriptor is rejected as too long | not executed; high | Descriptor.LengthOverflow | Descriptor.ValidatedBounds |
| Battleships/Game.cs:168 | `len = Math.Abs(c2.Y - c1.Y) + 1` in unchecked 32-bit arithmetic | `"0:2147483645,0:-2147483648"`: the difference wraps to 3, so `len` is 4 and the ship passes the length check; the constructor's loop then runs zero times and the game counts an empty, always-sunk ship | the length is the true distance plus one, 2^32 - 2 here, so the descriptor is rejected as too long | not executed; high | Descriptor.LengthWrapsShort | Descriptor.ValidatedBounds |
