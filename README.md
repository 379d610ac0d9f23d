# Parking lot — a verified Dafny model

This project models the `ParkingLot` class of a small command-line parking
system. A lot has a fixed number of slots, numbered from 1. Each slot is
empty or holds one vehicle, recorded as its registration number, colour and
type. Vehicles are parked first-fit (the lowest free slot), a slot is freed
by number, and a set of read-only queries report the status table, the
number of vehicles of a type, registrations with odd or even "middle
numbers", registrations and slot numbers by colour, and the slot of a
registration.

Layout:

- `options.dfy` — module `Options`: the `Option` type used for an empty slot.
- `text.dfy` — module `Text`: ASCII case folding (the model of
  `StringComparison.OrdinalIgnoreCase`), `Split`/`Join` on one separator
  character (the model of `String.Split(char)`), and `TryParseInt32`, a
  signed decimal parser for 32-bit values (the model of `int.TryParse`).
- `parking.dfy` — module `Parking`: the vehicle record, the result types the
  operations report, every operation as a function on the sequence of slots,
  and the lemmas relating them. The LINQ `Where`/`Select` pipelines become
  `MatchingSlots` (the 1-based numbers of the occupied slots whose vehicle
  meets a `Criterion`, a condition on the vehicle like the lambdas of the
  `Where` clauses) and `RegistrationsWhere` (their registrations).
- `lot.dfy` — module `Lot`: class `ParkingLot` holding the slots in an
  array that `ParkVehicle` and `LeaveVehicle` update in place, with the loops
  of `Program.cs`; each method is proved equal to the function of the same
  operation in `Parking`.

Results are returned instead of printed: parking reports `Allocated(n)` or
`Full`, leaving reports `Freed`, `AlreadyEmpty` or `InvalidSlot`, the status
report is `EmptyLot` or `Listing(rows)`, and the registration lookup reports
`Found(n)` or `NotFound` rather than the slot-0 sentinel of
Program.cs:164-166.

Points where the code's behaviour is easy to misread, and which the model keeps:

- The constructor accepts size 0, giving an empty lot on which every park
  reports "full". Only a negative size fails, because allocating the slot
  list throws. The model's constructor takes a `nat`.
- The registration is split on `-`, so its second piece never holds a `-`.
  While the culture's negative sign is `-` (see the `Text.TryParseInt32`
  line under "Left out"), the middle number is therefore never negative. `ExtractMiddleNumber` states
  `0 <= n <= Int32Max`. C#'s `%` and Dafny's differ only on negative
  numbers, so that difference never reaches the parity tests.
- The code names the even-plate query and predicate
  `RegistrationNumbersWithEventPlates` and `IsEventPlate`. The model names
  them `RegistrationNumbersWithEvenPlates` and `IsEvenPlate`.

## Model

| member | source | states |
|---|---|---|
| `Text.Lower` | Program.cs:80 | the case fold keeps the length, leaves no ASCII capital, and changes a character only by mapping a capital to its small letter |
| `Text.EqualsIgnoreCase` | Program.cs:80 | equal strings match, and strings that match have the same length |
| `Text.EqualsIgnoreCaseCharwise` | Program.cs:138 | two strings match exactly when they have the same length and agree at every position once both characters are folded to small letters |
| `Text.EqualsIgnoreCaseIsEquivalence` | Program.cs:162 | case-insensitive equality is reflexive, symmetric and transitive, and relates only strings of equal length |
| `Text.Split` | Program.cs:125 | splitting yields at least one piece, no piece contains the separator, and a string without the separator is its own single piece |
| `Text.JoinSplit` | Program.cs:125 | joining the pieces of a split with the separator gives back the original string |
| `Text.SplitJoin` | Program.cs:125 | splitting a join of separator-free pieces gives back exactly those pieces, empty pieces included |
| `Text.SplitAfterPiece` | Program.cs:125 | a separator-free prefix followed by the separator splits off as the first piece |
| `Text.NatDigits` | Program.cs:126 | the decimal spelling of a natural number is a non-empty digit string with no leading zero whose value is that number |
| `Text.TryParseInt32` | Program.cs:126 | a successful parse lies in the 32-bit range; the token it came from is a digit, or a sign followed by at least one more character, and every later character is a digit; it is non-negative when the token has no `-` |
| `Text.ParseUnsigned` | Program.cs:126 | a non-empty digit string parses to its value when that is at most the 32-bit maximum, and fails otherwise |
| `Text.ParseSigned` | Program.cs:126 | a `+` or `-` followed by digits parses to the digits' value, negated for `-`, when that lies in the 32-bit range, and fails otherwise |
| `Text.ParseSignedDigits` | Program.cs:126 | no sign, `+` or `-` followed by a non-empty digit string parses to the signed value of the digits exactly when it lies in the 32-bit range, and fails otherwise |
| `Text.ParseAcceptsExamples` | Program.cs:126 | `+7` and `007` parse to 7, and `-12` to -12 |
| `Text.ParseRefusesExamples` | Program.cs:126 | a lone `+` and `1A` fail to parse |
| `Text.ParseRefusesOutOfRange` | Program.cs:126 | the decimal spelling of any number above the 32-bit maximum fails to parse, and so does its negation when it lies below the 32-bit minimum |
| `Text.FormatThenParse` | Program.cs:126 | parsing the decimal spelling of any 32-bit value gives that value back |
| `Parking.FirstEmptyFrom` | Program.cs:19-22 | the scan from a position finds the lowest empty slot at or after it, or reports none when all of them are occupied |
| `Parking.ParkInto` | Program.cs:17-29 | first fit: the lowest empty slot gets the vehicle and its 1-based number is reported, all lower slots were occupied and no other slot changes; "full" exactly when every slot is occupied, and then nothing changes; the slot count is kept |
| `Parking.LeaveSlot` | Program.cs:31-48 | a number outside 1..N is invalid and changes nothing; an occupied slot is emptied alone and reported freed; an empty slot is reported already empty and nothing changes; the slot count is kept |
| `Parking.ParkThenLeave` | Program.cs:23 | parking and then leaving the slot just assigned restores the lot exactly |
| `Parking.LeaveThenPark` | Program.cs:41 | after a slot is freed the next park succeeds and takes that slot or a lower one |
| `Parking.ExtractMiddleNumber` | Program.cs:123-132 | the middle number is between 0 and the 32-bit maximum, and is 0 for a registration with no `-` |
| `Parking.IsEvenPlate` | Program.cs:117-121 | a registration with no `-` is an even plate, since its middle number is 0 |
| `Parking.IsOddPlate` | Program.cs:111-115 | a plate is odd exactly when it is not even |
| `Parking.PlateParity` | Program.cs:111-121 | the parity tests rewritten without `%`: even exactly when the middle number is twice a whole number, odd exactly when it is one more than that; and an odd plate's middle number is at least 1 |
| `Parking.SecondPiece` | Program.cs:125 | in `a-b-rest`, with `a` and `b` free of `-`, the second piece is `b` |
| `Parking.MiddleNumberOf` | Program.cs:126-131 | the middle number of `a-b-rest` is `b` parsed as a 32-bit integer, or 0 when `b` does not parse |
| `Parking.MiddleNumberOfTwoPieces` | Program.cs:125-131 | the middle number of `a-b`, with `a` and `b` free of `-`, is `b` parsed as a 32-bit integer, or 0 when `b` does not parse |
| `Parking.MiddleNumberOfPlate` | Program.cs:123-132 | a registration `pre-N-rest` with `N` in decimal has middle number `N` |
| `Parking.OddPlateExample` | Program.cs:111-115 | `KA-01-HH-1234` has middle number 1 and is an odd plate |
| `Parking.EvenPlateExample` | Program.cs:117-121 | `KA-02-HH-1234` has middle number 2 and is an even plate |
| `Parking.ShortPlateExample` | Program.cs:126-128 | `KA` has no second piece, counts as 0 and is an even plate |
| `Parking.MatchingSlots` | Program.cs:148-151 | each listed slot number is in 1..N, and the slot it names is occupied by a vehicle meeting the criterion |
| `Parking.MatchingSlotsOrdered` | Program.cs:148-151 | the listed slot numbers are strictly ascending |
| `Parking.MatchingSlotsComplete` | Program.cs:148-151 | every occupied slot whose vehicle meets the criterion is listed |
| `Parking.FirstMatch` | Program.cs:160-164 | the first listed slot is the lowest matching one, and the list is empty exactly when no occupied slot matches |
| `Parking.CountLast` | Program.cs:75-85 | the count over a lot is the count over all but its last slot plus that slot's contribution |
| `Parking.RegistrationsWhereAt` | Program.cs:92-94 | the registrations listed are those of exactly the matching slots, one for one and in slot order |
| `Parking.RowsAt` | Program.cs:55-63 | the status table has one row per occupied slot, in slot order, carrying its number, registration, type and colour |
| `Parking.StatusOf` | Program.cs:50-68 | the status is the "empty" report exactly when no slot is occupied, and otherwise the non-empty table |
| `Parking.CountVehiclesByType` | Program.cs:71-87 | the number of vehicles of a type is the number of occupied slots whose type matches case-insensitively; it is at most the number of occupied slots, which is at most N, and it is 0 when no vehicle matches |
| `Parking.TypeIndices` | Program.cs:77-80 | the slots the type criterion selects are exactly the occupied slots whose type matches case-insensitively |
| `Parking.RegistrationNumbersWithOddPlates` | Program.cs:90-98 | every listed registration is an odd plate; there is one per occupied odd-plate slot, and the k-th is the registration at the k-th such slot |
| `Parking.RegistrationNumbersWithEvenPlates` | Program.cs:100-108 | every listed registration is an even plate; there is one per occupied even-plate slot, and the k-th is the registration at the k-th such slot |
| `Parking.SlotNumbersWithColour` | Program.cs:145-156 | the slot numbers listed are ascending, in 1..N, occupied by a vehicle whose colour matches case-insensitively, and none is missing |
| `Parking.RegistrationNumbersWithColour` | Program.cs:134-143 | the registrations listed are those at exactly the slots the colour's slot-number query lists, in the same order |
| `Parking.SlotNumberForRegistrationNumber` | Program.cs:158-173 | `Found(n)` names an occupied slot in 1..N whose registration matches case-insensitively with no match below it; `NotFound` exactly when no occupied slot matches |
| `Parking.CountBounds` | Program.cs:71-87 | any count of matching vehicles is at most the number of occupied slots, which is at most N |
| `Parking.MatchingIndicesLast` | Program.cs:75-85 | the set of matching slot indices of a lot is that of all but its last slot, plus the last one if it matches |
| `Parking.CountIsCardinality` | Program.cs:71-87 | the count equals the size of the set of indices of matching occupied slots |
| `Parking.CountIsSizeIffAll` | Program.cs:19-28 | every slot meets a criterion exactly when its count equals N |
| `Parking.CountAfterUpdate` | Program.cs:23 | replacing one slot changes a count by that slot's old and new contribution only |
| `Parking.ParkOccupancy` | Program.cs:17-29 | a successful park adds exactly one occupied slot; "full" exactly when all N slots are occupied |
| `Parking.LeaveOccupancy` | Program.cs:39-43 | freeing a slot removes exactly one occupied slot |
| `Parking.OddEvenSlots` | Program.cs:111-121 | every occupied slot is selected by exactly one of the odd-plate and even-plate filters |
| `Parking.OddEvenPartition` | Program.cs:90-108 | together the odd-plate and even-plate lists hold each parked registration exactly as often as it is parked |
| `Parking.ParkThenFind` | Program.cs:158-173 | a vehicle whose registration was not yet parked is then found at the slot it was given |
| `Lot.ParkingLot.constructor` | Program.cs:10-15 | a new lot has `size` slots, all empty, and its status is the "empty" report |
| `Lot.ParkingLot.ParkVehicle` | Program.cs:17-29 | the first-fit loop reports and stores exactly what `ParkInto` gives for the old slots |
| `Lot.ParkingLot.LeaveVehicle` | Program.cs:31-48 | the range check and release report and store exactly what `LeaveSlot` gives for the old slots |
| `Lot.ParkingLot.DisplayStatus` | Program.cs:50-69 | the loop builds exactly the status report of the slots: "empty" iff no slot is occupied, otherwise the table |
| `Lot.ParkingLot.CountVehiclesByType` | Program.cs:71-88 | the counting loop returns the number of occupied slots whose type matches case-insensitively, at most the number occupied |

## Left out

- `Program.Main` (Program.cs:180-278), the line-command loop: reading standard input, splitting a line on spaces, dispatching commands, the "not created yet" checks, and its unchecked access to a missing argument or a lot that was never created. The model covers the lot's operations, not the text protocol.
- All console output: the confirmation and error messages, the tab-separated status layout, and the `", "` joining of query results. Operations return result values and sequences instead.
- Full Unicode semantics of `OrdinalIgnoreCase`: only the ASCII letters A-Z are folded.
- `Text.TryParseInt32`: leading and trailing white space, trailing NUL characters and culture-specific sign strings are not modelled. The model accepts exactly an optional `+` or `-` followed by one or more ASCII digits within the 32-bit range. So a registration such as `KA-01\0-HH` (a NUL after `01`) has middle number 0 in the model, where `int.TryParse` reads 1, and a culture whose negative sign is not `-` could make a middle number negative.
- A negative lot size, for which the C# constructor throws on allocation; the constructor takes a natural number.
