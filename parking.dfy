/**
 * The parking lot's state and operations as values. A lot is the sequence of
 * its slots; slot `i` of the sequence is the slot numbered `i + 1`. Every
 * operation of the lot is a function here: the two that change the lot
 * return the result they report together with the new sequence of slots,
 * the queries return what the lot prints, before formatting.
 */
module Parking {
  import opened Options
  import opened Text

  /** What an occupied slot records: registration number, colour and type. */
  datatype Vehicle = Vehicle(registration: string, colour: string, vehicleType: string)

  /** A slot is empty (`None`) or holds exactly one vehicle. */
  type Slot = Option<Vehicle>

  /** What parking reports: the 1-based slot number assigned, or that the lot is full. */
  datatype ParkResult = Allocated(slot: nat) | Full

  /** What leaving reports. */
  datatype LeaveResult = Freed | AlreadyEmpty | InvalidSlot

  /** What the slot lookup for a registration reports. */
  datatype Lookup = Found(slot: nat) | NotFound

  /** One line of the status table: slot number, registration, type, colour. */
  datatype StatusRow = StatusRow(slot: nat, registration: string, vehicleType: string, colour: string)

  /** The status listing, or the explicit report that no slot is occupied. */
  datatype Status = EmptyLot | Listing(rows: seq<StatusRow>)

  // ---------------------------------------------------------------------
  // Park and leave
  // ---------------------------------------------------------------------

  /** The index of the lowest empty slot at or after `from`, if any. */
  function FirstEmptyFrom(s: seq<Slot>, from: nat): (r: Option<nat>)
    requires from <= |s|
    ensures r.Some? ==> from <= r.value < |s| && s[r.value].None?
    ensures r.Some? ==> forall j :: from <= j < r.value ==> s[j].Some?
    ensures r.None? ==> forall j :: from <= j < |s| ==> s[j].Some?
    decreases |s| - from
  {
    if from == |s| then None
    else if s[from].None? then Some(from)
    else FirstEmptyFrom(s, from + 1)
  }

  /** The index of the lowest empty slot, if any. */
  function FirstEmpty(s: seq<Slot>): Option<nat>
  {
    FirstEmptyFrom(s, 0)
  }

  /**
   * Parking `v`: first fit from the lowest slot. When some slot is empty the
   * lowest empty one receives `v` and its number is reported; every slot below
   * it was occupied and no other slot changes. When none is empty the lot is
   * reported full and nothing changes.
   */
  function ParkInto(s: seq<Slot>, v: Vehicle): (res: (ParkResult, seq<Slot>))
    ensures |res.1| == |s|
    ensures res.0.Allocated? ==>
      var i := res.0.slot - 1;
      0 <= i < |s| && s[i].None? && (forall j :: 0 <= j < i ==> s[j].Some?) &&
      res.1 == s[i := Some(v)]
    ensures res.0.Full? <==> forall j :: 0 <= j < |s| ==> s[j].Some?
    ensures res.0.Full? ==> res.1 == s
  {
    match FirstEmpty(s)
    case None => (Full, s)
    case Some(i) => (Allocated(i + 1), s[i := Some(v)])
  }

  /**
   * Leaving slot number `k`: a number outside 1..|s| is invalid and changes
   * nothing; an occupied slot is emptied (and only it); an empty one is
   * reported as already empty and nothing changes.
   */
  function LeaveSlot(s: seq<Slot>, k: int): (res: (LeaveResult, seq<Slot>))
    ensures |res.1| == |s|
    ensures res.0 == InvalidSlot <==> k < 1 || k > |s|
    ensures res.0 == Freed <==> 1 <= k <= |s| && s[k - 1].Some?
    ensures res.0 == AlreadyEmpty <==> 1 <= k <= |s| && s[k - 1].None?
    ensures res.0 == Freed ==> res.1 == s[k - 1 := None] && res.1[k - 1].None?
    ensures res.0 != Freed ==> res.1 == s
  {
    if k < 1 || k > |s| then (InvalidSlot, s)
    else if s[k - 1].Some? then (Freed, s[k - 1 := None])
    else (AlreadyEmpty, s)
  }

  /** Parking and then leaving the slot just assigned restores the lot. */
  lemma ParkThenLeave(s: seq<Slot>, v: Vehicle)
    requires ParkInto(s, v).0.Allocated?
    ensures LeaveSlot(ParkInto(s, v).1, ParkInto(s, v).0.slot) == (Freed, s)
  {
    var i := ParkInto(s, v).0.slot - 1;
    assert s[i := Some(v)][i := None] == s;
  }

  /** A slot just freed is free for the next vehicle: the next park takes it or a lower one. */
  lemma LeaveThenPark(s: seq<Slot>, k: int, v: Vehicle)
    requires LeaveSlot(s, k).0 == Freed
    ensures ParkInto(LeaveSlot(s, k).1, v).0.Allocated?
    ensures ParkInto(LeaveSlot(s, k).1, v).0.slot <= k
  {
    var after := LeaveSlot(s, k).1;
    assert after[k - 1].None?;
  }

  // ---------------------------------------------------------------------
  // Plate parity
  // ---------------------------------------------------------------------

  /**
   * The number in the second `-`-separated piece of a registration, or 0 when
   * there is no second piece or it is not a 32-bit integer. Since the piece
   * cannot hold a `-`, the number is never negative.
   */
  function ExtractMiddleNumber(registration: string): (n: int)
    ensures 0 <= n <= Int32Max
    ensures '-' !in registration ==> n == 0
  {
    var parts := Split(registration, '-');
    if |parts| < 2 then 0
    else match TryParseInt32(parts[1])
      case None => 0
      case Some(m) => m
  }

  /** Even plate: the middle number is a multiple of 2; without a second piece it is 0, so even. */
  predicate IsEvenPlate(registration: string)
    ensures '-' !in registration ==> IsEvenPlate(registration)
  {
    ExtractMiddleNumber(registration) % 2 == 0
  }

  /** Odd plate: exactly the plates that are not even. */
  predicate IsOddPlate(registration: string)
    ensures IsOddPlate(registration) <==> !IsEvenPlate(registration)
  {
    ExtractMiddleNumber(registration) % 2 != 0
  }

  /**
   * The parity tests rewritten without `%`: a plate is even exactly when its
   * middle number is twice a whole number, and odd exactly when it is one
   * more than that. Since middle numbers are never negative, an odd plate's
   * middle number is at least 1.
   */
  lemma PlateParity(registration: string)
    ensures var n := ExtractMiddleNumber(registration);
      (IsEvenPlate(registration) <==> n / 2 * 2 == n) &&
      (IsOddPlate(registration) <==> n / 2 * 2 + 1 == n) &&
      (IsOddPlate(registration) ==> n >= 1)
  {
  }

  /** In `a-b-rest`, with `a` and `b` free of `-`, the second piece is `b`. */
  lemma SecondPiece(a: string, b: string, rest: string)
    requires '-' !in a && '-' !in b
    ensures var parts := Split(a + "-" + b + "-" + rest, '-'); |parts| >= 2 && parts[1] == b
  {
    SplitAfterPiece(b, rest, '-');
    SplitAfterPiece(a, b + "-" + rest, '-');
    assert a + "-" + b + "-" + rest == a + ['-'] + (b + ['-'] + rest);
  }

  /**
   * The middle number of `a-b-rest` is `b` read as a 32-bit integer, or 0
   * when `b` is not one.
   */
  lemma MiddleNumberOf(a: string, b: string, rest: string)
    requires '-' !in a && '-' !in b
    ensures TryParseInt32(b).Some? ==> ExtractMiddleNumber(a + "-" + b + "-" + rest) == TryParseInt32(b).value
    ensures TryParseInt32(b).None? ==> ExtractMiddleNumber(a + "-" + b + "-" + rest) == 0
  {
    SecondPiece(a, b, rest);
  }

  /**
   * The middle number of a two-piece registration `a-b` is `b` read as a
   * 32-bit integer, or 0 when `b` is not one.
   */
  lemma MiddleNumberOfTwoPieces(a: string, b: string)
    requires '-' !in a && '-' !in b
    ensures TryParseInt32(b).Some? ==> ExtractMiddleNumber(a + "-" + b) == TryParseInt32(b).value
    ensures TryParseInt32(b).None? ==> ExtractMiddleNumber(a + "-" + b) == 0
  {
    SplitAfterPiece(a, b, '-');
    assert a + "-" + b == a + ['-'] + b;
  }

  /** A registration `pre-N-rest` with `N` written out in decimal has middle number `N`. */
  lemma MiddleNumberOfPlate(pre: string, n: nat, rest: string)
    requires '-' !in pre && n <= Int32Max
    ensures ExtractMiddleNumber(pre + "-" + NatDigits(n) + "-" + rest) == n
  {
    var digits := NatDigits(n);
    assert '-' !in digits by {
      assert forall i :: 0 <= i < |digits| ==> IsDigit(digits[i]);
    }
    MiddleNumberOf(pre, digits, rest);
    FormatThenParse(n);
  }

  /** `KA-01-HH-1234` has middle number 1: an odd plate. */
  // The registration is a parameter rather than a literal in the ensures, so
  // that the verifier does not evaluate `Split` on the literal character by character.
  lemma OddPlateExample(reg: string)
    requires reg == "KA-01-HH-1234"
    ensures ExtractMiddleNumber(reg) == 1 && IsOddPlate(reg)
  {
    assert TryParseInt32("01") == Some(1) by {
      assert DigitsValue("01") == 1 by { assert "01"[..1] == "0"; }
    }
    assert ExtractMiddleNumber(reg) == 1 by {
      assert reg == "KA" + "-" + "01" + "-" + "HH-1234";
      MiddleNumberOf("KA", "01", "HH-1234");
    }
    assert IsOddPlate(reg) by { PlateParity(reg); }
  }

  /** `KA-02-HH-1234` has middle number 2: an even plate. */
  // The registration is a parameter rather than a literal in the ensures, so
  // that the verifier does not evaluate `Split` on the literal character by character.
  lemma EvenPlateExample(reg: string)
    requires reg == "KA-02-HH-1234"
    ensures ExtractMiddleNumber(reg) == 2 && IsEvenPlate(reg)
  {
    assert TryParseInt32("02") == Some(2) by {
      assert DigitsValue("02") == 2 by { assert "02"[..1] == "0"; }
    }
    assert ExtractMiddleNumber(reg) == 2 by {
      assert reg == "KA" + "-" + "02" + "-" + "HH-1234";
      MiddleNumberOf("KA", "02", "HH-1234");
    }
  }

  /** `KA` has no second piece, so it counts as 0: an even plate. */
  lemma ShortPlateExample()
    ensures ExtractMiddleNumber("KA") == 0 && IsEvenPlate("KA")
  {
  }

  // ---------------------------------------------------------------------
  // Queries
  // ---------------------------------------------------------------------

  /** A condition on a parked vehicle, as the `Where` clauses of the queries test it. */
  type Criterion = Vehicle -> bool

  const AnyVehicle: Criterion := _ => true

  const OddPlate: Criterion := (v: Vehicle) => IsOddPlate(v.registration)

  const EvenPlate: Criterion := (v: Vehicle) => IsEvenPlate(v.registration)

  function TypeIs(vehicleType: string): Criterion
  {
    (v: Vehicle) => EqualsIgnoreCase(v.vehicleType, vehicleType)
  }

  function ColourIs(colour: string): Criterion
  {
    (v: Vehicle) => EqualsIgnoreCase(v.colour, colour)
  }

  function RegistrationIs(registration: string): Criterion
  {
    (v: Vehicle) => EqualsIgnoreCase(v.registration, registration)
  }

  /** The slot is occupied by a vehicle meeting `c`. */
  predicate Hit(slot: Slot, c: Criterion)
  {
    slot.Some? && c(slot.value)
  }

  /**
   * The 1-based numbers of the occupied slots whose vehicle meets `c`, in
   * slot order: each listed slot meets `c`. That the list ascends and misses
   * no matching slot is `MatchingSlotsOrdered` and `MatchingSlotsComplete`.
   */
  function MatchingSlots(s: seq<Slot>, c: Criterion): (ns: seq<nat>)
    ensures forall k :: 0 <= k < |ns| ==> 1 <= ns[k] <= |s| && Hit(s[ns[k] - 1], c)
    decreases |s|
  {
    if s == [] then []
    else MatchingSlots(s[..|s| - 1], c) + (if Hit(s[|s| - 1], c) then [|s|] else [])
  }

  /** The matching slots are listed in strictly ascending order. */
  lemma {:induction false} MatchingSlotsOrdered(s: seq<Slot>, c: Criterion)
    ensures forall k, l :: 0 <= k < l < |MatchingSlots(s, c)| ==> MatchingSlots(s, c)[k] < MatchingSlots(s, c)[l]
    decreases |s|
  {
    if s != [] {
      var p := s[..|s| - 1];
      MatchingSlotsOrdered(p, c);
      var ns, before := MatchingSlots(s, c), MatchingSlots(p, c);
      assert ns == before + (if Hit(s[|s| - 1], c) then [|s|] else []);
      forall k, l | 0 <= k < l < |ns|
        ensures ns[k] < ns[l]
      {
        assert ns[k] == before[k] && before[k] <= |p|;
        if l < |before| {
          assert ns[l] == before[l];
          assert before[k] < before[l];
        } else {
          assert ns[l] == |s|;
        }
      }
    }
  }

  /** Every slot meeting `c` is listed. */
  lemma {:induction false} MatchingSlotsComplete(s: seq<Slot>, c: Criterion)
    ensures forall i :: 0 <= i < |s| && Hit(s[i], c) ==> i + 1 in MatchingSlots(s, c)
    decreases |s|
  {
    if s != [] {
      var p := s[..|s| - 1];
      MatchingSlotsComplete(p, c);
      var ns, before := MatchingSlots(s, c), MatchingSlots(p, c);
      assert ns[..|before|] == before;
      forall i | 0 <= i < |s| && Hit(s[i], c)
        ensures i + 1 in ns
      {
        if i < |p| {
          assert p[i] == s[i];
          var j :| 0 <= j < |before| && before[j] == i + 1;
          assert ns[j] == i + 1;
        } else {
          assert ns[|before|] == |s|;
        }
      }
    }
  }


  /**
   * The first listed slot is the lowest slot meeting `c`, and nothing is
   * listed exactly when no slot meets `c`.
   */
  lemma FirstMatch(s: seq<Slot>, c: Criterion)
    ensures MatchingSlots(s, c) != [] ==> forall j :: 0 <= j < MatchingSlots(s, c)[0] - 1 ==> !Hit(s[j], c)
    ensures MatchingSlots(s, c) == [] <==> forall i :: 0 <= i < |s| ==> !Hit(s[i], c)
  {
    var ns := MatchingSlots(s, c);
    MatchingSlotsOrdered(s, c);
    MatchingSlotsComplete(s, c);
    if ns != [] {
      assert Hit(s[ns[0] - 1], c);
      forall j | 0 <= j < ns[0] - 1
        ensures !Hit(s[j], c)
      {
        forall m | 0 <= m < |ns|
          ensures ns[m] != j + 1
        {
          if m > 0 {
            assert ns[0] < ns[m];
          }
        }
        assert j + 1 !in ns;
      }
    } else {
      forall i | 0 <= i < |s|
        ensures !Hit(s[i], c)
      {
        assert i + 1 !in ns;
      }
    }
  }

  /** How many occupied slots meet `c`. */
  function Count(s: seq<Slot>, c: Criterion): nat
  {
    |MatchingSlots(s, c)|
  }

  /** Counting over a lot is counting over all but its last slot, plus the last slot. */
  lemma CountLast(s: seq<Slot>, c: Criterion)
    requires s != []
    ensures Count(s, c) == Count(s[..|s| - 1], c) + (if Hit(s[|s| - 1], c) then 1 else 0)
  {
  }

  /** The registrations of the occupied slots meeting `c`, in slot order. */
  function RegistrationsWhere(s: seq<Slot>, c: Criterion): seq<string>
    decreases |s|
  {
    if s == [] then []
    else
      var last := s[|s| - 1];
      RegistrationsWhere(s[..|s| - 1], c) + (if Hit(last, c) then [last.value.registration] else [])
  }

  /** The registrations listed are those of exactly the matching slots, one for one and in slot order. */
  lemma {:induction false} RegistrationsWhereAt(s: seq<Slot>, c: Criterion)
    ensures |RegistrationsWhere(s, c)| == |MatchingSlots(s, c)|
    ensures forall k :: 0 <= k < |RegistrationsWhere(s, c)| ==>
      RegistrationsWhere(s, c)[k] == s[MatchingSlots(s, c)[k] - 1].value.registration
    decreases |s|
  {
    if s != [] {
      var p := s[..|s| - 1];
      RegistrationsWhereAt(p, c);
      var ns, before := MatchingSlots(s, c), MatchingSlots(p, c);
      var regs, earlier := RegistrationsWhere(s, c), RegistrationsWhere(p, c);
      var last := s[|s| - 1];
      if Hit(last, c) {
        assert ns == before + [|s|] && regs == earlier + [last.value.registration];
        assert regs[|earlier|] == s[ns[|earlier|] - 1].value.registration;
      } else {
        assert ns == before && regs == earlier;
      }
      assert |regs| == |ns|;
      forall k | 0 <= k < |earlier|
        ensures regs[k] == s[ns[k] - 1].value.registration
      {
        assert regs[k] == earlier[k] && ns[k] == before[k];
        assert s[before[k] - 1] == p[before[k] - 1];
      }
    }
  }



  /** The status table: one row per occupied slot, in slot order. */
  function Rows(s: seq<Slot>): seq<StatusRow>
    decreases |s|
  {
    if s == [] then []
    else
      var last := s[|s| - 1];
      Rows(s[..|s| - 1]) +
        (if Hit(last, AnyVehicle) then [StatusRow(|s|, last.value.registration, last.value.vehicleType, last.value.colour)] else [])
  }

  /**
   * The status table has one row per occupied slot, in slot order, carrying
   * its number, registration, type and colour.
   */
  lemma {:induction false} RowsAt(s: seq<Slot>)
    ensures |Rows(s)| == |MatchingSlots(s, AnyVehicle)|
    ensures forall k :: 0 <= k < |Rows(s)| ==>
      Rows(s)[k] == StatusRow(MatchingSlots(s, AnyVehicle)[k],
        s[MatchingSlots(s, AnyVehicle)[k] - 1].value.registration,
        s[MatchingSlots(s, AnyVehicle)[k] - 1].value.vehicleType,
        s[MatchingSlots(s, AnyVehicle)[k] - 1].value.colour)
    decreases |s|
  {
    if s != [] {
      var p := s[..|s| - 1];
      RowsAt(p);
      var ns, before := MatchingSlots(s, AnyVehicle), MatchingSlots(p, AnyVehicle);
      var rows, earlier := Rows(s), Rows(p);
      assert ns[..|before|] == before && rows[..|earlier|] == earlier;
      forall k | 0 <= k < |earlier|
        ensures var v := s[ns[k] - 1].value; rows[k] == StatusRow(ns[k], v.registration, v.vehicleType, v.colour)
      {
        assert rows[k] == earlier[k] && ns[k] == before[k];
        assert s[before[k] - 1] == p[before[k] - 1];
      }
    }
  }




  /** The status report: the table, or "empty" exactly when no slot is occupied. */
  function StatusOf(s: seq<Slot>): (st: Status)
    ensures st.EmptyLot? <==> forall i :: 0 <= i < |s| ==> s[i].None?
    ensures st.Listing? ==> st.rows == Rows(s) && st.rows != []
  {
    var rows := Rows(s);
    FirstMatch(s, AnyVehicle);
    RowsAt(s);
    if rows == [] then EmptyLot else Listing(rows)
  }

  /**
   * Number of vehicles of a type: the number of occupied slots whose type
   * matches case-insensitively; at most the occupied count.
   */
  function CountVehiclesByType(s: seq<Slot>, vehicleType: string): (n: nat)
    ensures n == |set i | 0 <= i < |s| && s[i].Some? && EqualsIgnoreCase(s[i].value.vehicleType, vehicleType)|
    ensures n <= Count(s, AnyVehicle) <= |s|
    ensures n == 0 <== forall i :: 0 <= i < |s| ==> !Hit(s[i], TypeIs(vehicleType))
  {
    CountBounds(s, TypeIs(vehicleType));
    FirstMatch(s, TypeIs(vehicleType));
    CountIsCardinality(s, TypeIs(vehicleType));
    TypeIndices(s, vehicleType);
    Count(s, TypeIs(vehicleType))
  }

  /** The slots matched by `TypeIs` are those holding a vehicle of that type. */
  lemma TypeIndices(s: seq<Slot>, vehicleType: string)
    ensures MatchingIndices(s, TypeIs(vehicleType)) ==
      set i | 0 <= i < |s| && s[i].Some? && EqualsIgnoreCase(s[i].value.vehicleType, vehicleType)
  {
  }

  /** The registrations with an odd middle number, in slot order. */
  function RegistrationNumbersWithOddPlates(s: seq<Slot>): (regs: seq<string>)
    ensures forall k :: 0 <= k < |regs| ==> IsOddPlate(regs[k])
    ensures |regs| == |MatchingSlots(s, OddPlate)|
    ensures forall k :: 0 <= k < |regs| ==> regs[k] == s[MatchingSlots(s, OddPlate)[k] - 1].value.registration
  {
    var regs := RegistrationsWhere(s, OddPlate);
    RegistrationsWhereAt(s, OddPlate);
    assert forall k :: 0 <= k < |regs| ==> IsOddPlate(regs[k]) by {
      forall k | 0 <= k < |regs|
        ensures IsOddPlate(regs[k])
      {
        assert Hit(s[MatchingSlots(s, OddPlate)[k] - 1], OddPlate);
      }
    }
    regs
  }

  /** The registrations with an even middle number (0 when unreadable), in slot order. */
  function RegistrationNumbersWithEvenPlates(s: seq<Slot>): (regs: seq<string>)
    ensures forall k :: 0 <= k < |regs| ==> IsEvenPlate(regs[k])
    ensures |regs| == |MatchingSlots(s, EvenPlate)|
    ensures forall k :: 0 <= k < |regs| ==> regs[k] == s[MatchingSlots(s, EvenPlate)[k] - 1].value.registration
  {
    var regs := RegistrationsWhere(s, EvenPlate);
    RegistrationsWhereAt(s, EvenPlate);
    assert forall k :: 0 <= k < |regs| ==> IsEvenPlate(regs[k]) by {
      forall k | 0 <= k < |regs|
        ensures IsEvenPlate(regs[k])
      {
        assert Hit(s[MatchingSlots(s, EvenPlate)[k] - 1], EvenPlate);
      }
    }
    regs
  }

  /**
   * The 1-based numbers of the occupied slots whose colour matches
   * case-insensitively, ascending, each in 1..|s|, and none missing.
   */
  function SlotNumbersWithColour(s: seq<Slot>, colour: string): (ns: seq<nat>)
    ensures forall k :: 0 <= k < |ns| ==>
      1 <= ns[k] <= |s| && s[ns[k] - 1].Some? && EqualsIgnoreCase(s[ns[k] - 1].value.colour, colour)
    ensures forall k, l :: 0 <= k < l < |ns| ==> ns[k] < ns[l]
    ensures forall i :: 0 <= i < |s| && s[i].Some? && EqualsIgnoreCase(s[i].value.colour, colour) ==> i + 1 in ns
  {
    MatchingSlotsOrdered(s, ColourIs(colour));
    MatchingSlotsComplete(s, ColourIs(colour));
    MatchingSlots(s, ColourIs(colour))
  }

  /** The registrations at exactly the slots `SlotNumbersWithColour` lists, in the same order. */
  function RegistrationNumbersWithColour(s: seq<Slot>, colour: string): (regs: seq<string>)
    ensures |regs| == |SlotNumbersWithColour(s, colour)|
    ensures forall k :: 0 <= k < |regs| ==> regs[k] == s[SlotNumbersWithColour(s, colour)[k] - 1].value.registration
  {
    RegistrationsWhereAt(s, ColourIs(colour));
    RegistrationsWhere(s, ColourIs(colour))
  }

  /**
   * The lowest slot whose registration matches case-insensitively, or
   * `NotFound` exactly when no occupied slot matches (never a slot 0).
   */
  function SlotNumberForRegistrationNumber(s: seq<Slot>, registration: string): (r: Lookup)
    ensures r.Found? ==> 1 <= r.slot <= |s| && s[r.slot - 1].Some?
    ensures r.Found? ==> EqualsIgnoreCase(s[r.slot - 1].value.registration, registration)
    ensures r.Found? ==> forall j :: 0 <= j < r.slot - 1 ==> !Hit(s[j], RegistrationIs(registration))
    ensures r.NotFound? <==> forall j :: 0 <= j < |s| ==> !Hit(s[j], RegistrationIs(registration))
  {
    var ns := MatchingSlots(s, RegistrationIs(registration));
    FirstMatch(s, RegistrationIs(registration));
    if ns == [] then NotFound else Found(ns[0])
  }

  // ---------------------------------------------------------------------
  // Lemmas about the queries
  // ---------------------------------------------------------------------

  /** Any count is bounded by the number of occupied slots, which is bounded by the size. */
  lemma {:induction false} CountBounds(s: seq<Slot>, c: Criterion)
    ensures Count(s, c) <= Count(s, AnyVehicle) <= |s|
    decreases |s|
  {
    if s != [] {
      CountBounds(s[..|s| - 1], c);
    }
  }

  /** The indices of the slots meeting `c`, as a set. */
  function MatchingIndices(s: seq<Slot>, c: Criterion): set<int>
  {
    set i | 0 <= i < |s| && Hit(s[i], c)
  }

  /** The matching indices of a lot are those of all but its last slot, plus possibly the last. */
  lemma MatchingIndicesLast(s: seq<Slot>, c: Criterion)
    requires s != []
    ensures MatchingIndices(s, c) ==
      MatchingIndices(s[..|s| - 1], c) + (if Hit(s[|s| - 1], c) then {|s| - 1} else {})
  {
    var p := s[..|s| - 1];
    forall i ensures i in MatchingIndices(s, c) <==> i in MatchingIndices(p, c) + (if Hit(s[|s| - 1], c) then {|s| - 1} else {}) {
      if 0 <= i < |p| {
        assert p[i] == s[i];
      }
    }
  }

  /** The count of matching slots is the size of the set of matching slot indices. */
  lemma {:induction false} CountIsCardinality(s: seq<Slot>, c: Criterion)
    ensures Count(s, c) == |MatchingIndices(s, c)|
    decreases |s|
  {
    if s != [] {
      var p := s[..|s| - 1];
      CountIsCardinality(p, c);
      CountLast(s, c);
      MatchingIndicesLast(s, c);
      assert forall i :: i in MatchingIndices(p, c) ==> i < |s| - 1;
    }
  }

  /** All slots meet `c` exactly when the count is the lot's size. */
  lemma {:induction false} CountIsSizeIffAll(s: seq<Slot>, c: Criterion)
    ensures Count(s, c) == |s| <==> forall i :: 0 <= i < |s| ==> Hit(s[i], c)
    decreases |s|
  {
    if s != [] {
      var p := s[..|s| - 1];
      CountIsSizeIffAll(p, c);
      CountBounds(p, c);
      CountLast(s, c);
      assert forall i :: 0 <= i < |p| ==> p[i] == s[i];
    }
  }

  /** Replacing one slot changes a count by that slot's contribution only. */
  lemma {:induction false} CountAfterUpdate(s: seq<Slot>, i: nat, x: Slot, c: Criterion)
    requires i < |s|
    ensures Count(s[i := x], c) ==
      Count(s, c) - (if Hit(s[i], c) then 1 else 0) + (if Hit(x, c) then 1 else 0)
    decreases |s|
  {
    var t := s[i := x];
    var n := |s| - 1;
    if i == n {
      assert t[..n] == s[..n];
    } else {
      assert t[..n] == s[..n][i := x];
      CountAfterUpdate(s[..n], i, x, c);
    }
  }

  /** Parking adds exactly one occupied slot, unless the lot is full; then every slot is occupied. */
  lemma ParkOccupancy(s: seq<Slot>, v: Vehicle)
    ensures ParkInto(s, v).0.Allocated? ==> Count(ParkInto(s, v).1, AnyVehicle) == Count(s, AnyVehicle) + 1
    ensures ParkInto(s, v).0.Full? <==> Count(s, AnyVehicle) == |s|
  {
    CountIsSizeIffAll(s, AnyVehicle);
    if ParkInto(s, v).0.Allocated? {
      CountAfterUpdate(s, ParkInto(s, v).0.slot - 1, Some(v), AnyVehicle);
    }
  }

  /** Leaving an occupied slot removes exactly one occupied slot. */
  lemma LeaveOccupancy(s: seq<Slot>, k: int)
    ensures LeaveSlot(s, k).0 == Freed ==> Count(LeaveSlot(s, k).1, AnyVehicle) + 1 == Count(s, AnyVehicle)
  {
    if LeaveSlot(s, k).0 == Freed {
      CountAfterUpdate(s, k - 1, None, AnyVehicle);
    }
  }

  /** Every occupied slot is listed by exactly one of the odd-plate and even-plate filters. */
  lemma OddEvenSlots(s: seq<Slot>)
    ensures forall n :: n in MatchingSlots(s, AnyVehicle) <==>
      (n in MatchingSlots(s, OddPlate) || n in MatchingSlots(s, EvenPlate))
    ensures forall n :: !(n in MatchingSlots(s, OddPlate) && n in MatchingSlots(s, EvenPlate))
  {
    MatchingSlotsComplete(s, OddPlate);
    MatchingSlotsComplete(s, EvenPlate);
    MatchingSlotsComplete(s, AnyVehicle);
  }

  /**
   * Together the odd-plate and even-plate lists hold each parked
   * registration exactly as often as it is parked.
   */
  lemma {:induction false} OddEvenPartition(s: seq<Slot>)
    ensures multiset(RegistrationNumbersWithOddPlates(s)) + multiset(RegistrationNumbersWithEvenPlates(s))
         == multiset(RegistrationsWhere(s, AnyVehicle))
    decreases |s|
  {
    if s != [] {
      var p := s[..|s| - 1];
      var last := s[|s| - 1];
      OddEvenPartition(p);
      var odd := RegistrationsWhere(p, OddPlate);
      var even := RegistrationsWhere(p, EvenPlate);
      var all := RegistrationsWhere(p, AnyVehicle);
      if last.Some? {
        var r := [last.value.registration];
        assert RegistrationsWhere(s, AnyVehicle) == all + r;
        if IsOddPlate(last.value.registration) {
          assert RegistrationsWhere(s, OddPlate) == odd + r;
          assert RegistrationsWhere(s, EvenPlate) == even;
        } else {
          assert RegistrationsWhere(s, OddPlate) == odd;
          assert RegistrationsWhere(s, EvenPlate) == even + r;
        }
      } else {
        assert RegistrationsWhere(s, AnyVehicle) == all;
        assert RegistrationsWhere(s, OddPlate) == odd;
        assert RegistrationsWhere(s, EvenPlate) == even;
      }
    }
  }

  /** A vehicle whose registration was not parked yet is found at the slot it was given. */
  lemma ParkThenFind(s: seq<Slot>, v: Vehicle)
    requires ParkInto(s, v).0.Allocated?
    requires forall j :: 0 <= j < |s| ==> !Hit(s[j], RegistrationIs(v.registration))
    ensures SlotNumberForRegistrationNumber(ParkInto(s, v).1, v.registration) == Found(ParkInto(s, v).0.slot)
  {
    var after := ParkInto(s, v).1;
    var n := ParkInto(s, v).0.slot;
    assert Hit(after[n - 1], RegistrationIs(v.registration));
  }
}
