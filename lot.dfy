/**
 * The parking lot object: a fixed number of slots held in an array that the
 * operations update in place. Each method is proved against the value-level
 * definition of the same operation in module Parking, whose properties are
 * proved there.
 */
module Lot {
  import opened Options
  import opened Parking

  class ParkingLot {
    /** The number of slots, fixed when the lot is created. */
    const totalSlots: nat
    /** Slot `i` of the array is slot number `i + 1`; the array itself is never replaced. */
    const slots: array<Slot>

    ghost predicate Valid()
    {
      slots.Length == totalSlots
    }

    /** A lot of `size` slots, all empty; its status is the "empty" report. */
    constructor (size: nat)
      ensures Valid() && totalSlots == size && fresh(slots)
      ensures forall i :: 0 <= i < size ==> slots[i].None?
      ensures StatusOf(slots[..]) == EmptyLot
    {
      totalSlots := size;
      slots := new Slot[size](_ => None);
    }

    /**
     * Parks a vehicle in the lowest empty slot and reports its number, or
     * reports that the lot is full; exactly as `ParkInto` on the slots.
     */
    method ParkVehicle(registrationNo: string, colour: string, vehicleType: string) returns (r: ParkResult)
      requires Valid()
      modifies slots
      ensures Valid()
      ensures (r, slots[..]) == ParkInto(old(slots[..]), Vehicle(registrationNo, colour, vehicleType))
    {
      var v := Vehicle(registrationNo, colour, vehicleType);
      for i := 0 to totalSlots
        invariant forall j :: 0 <= j < i ==> slots[j].Some?
        invariant slots[..] == old(slots[..])
      {
        if slots[i].None? {
          slots[i] := Some(v);
          return Allocated(i + 1);
        }
      }
      return Full;
    }

    /**
     * Frees slot number `slotNumber` if it is in range and occupied, and
     * reports which of the three cases applied; exactly as `LeaveSlot`.
     */
    method LeaveVehicle(slotNumber: int) returns (r: LeaveResult)
      requires Valid()
      modifies slots
      ensures Valid()
      ensures (r, slots[..]) == LeaveSlot(old(slots[..]), slotNumber)
    {
      if slotNumber < 1 || slotNumber > totalSlots {
        return InvalidSlot;
      }
      if slots[slotNumber - 1].Some? {
        slots[slotNumber - 1] := None;
        r := Freed;
      } else {
        r := AlreadyEmpty;
      }
    }

    /** The status table of the occupied slots, or the "empty" report when there are none. */
    method DisplayStatus() returns (st: Status)
      requires Valid()
      ensures st == StatusOf(slots[..])
      ensures st.EmptyLot? <==> forall i :: 0 <= i < slots.Length ==> slots[i].None?
    {
      var rows: seq<StatusRow> := [];
      var isEmpty := true;
      for i := 0 to totalSlots
        invariant rows == Rows(slots[..i])
        invariant isEmpty == (rows == [])
      {
        assert slots[..i + 1][..i] == slots[..i];
        var slot := slots[i];
        if slot.Some? {
          rows := rows + [StatusRow(i + 1, slot.value.registration, slot.value.vehicleType, slot.value.colour)];
          isEmpty := false;
        }
      }
      assert slots[..totalSlots] == slots[..];
      st := if isEmpty then EmptyLot else Listing(rows);
    }

    /** How many parked vehicles have type `vehicleType`, compared case-insensitively. */
    method CountVehiclesByType(vehicleType: string) returns (count: nat)
      requires Valid()
      ensures count == Parking.CountVehiclesByType(slots[..], vehicleType)
      ensures count <= Count(slots[..], AnyVehicle)
    {
      count := 0;
      for i := 0 to totalSlots
        invariant count == Count(slots[..i], TypeIs(vehicleType))
      {
        assert slots[..i + 1][..i] == slots[..i];
        CountLast(slots[..i + 1], TypeIs(vehicleType));
        var slot := slots[i];
        if slot.Some? && Text.EqualsIgnoreCase(slot.value.vehicleType, vehicleType) {
          count := count + 1;
        }
      }
      assert slots[..totalSlots] == slots[..];
    }
  }

  /** Parks into a two-slot lot until it is full, frees slot 1 and parks again, checked against the contracts above. */
  method ExampleSession()
  {
    var lot := new ParkingLot(2);
    var r := lot.ParkVehicle("KA-01-AA-1111", "White", "car");
    assert r == Allocated(1);
    assert lot.slots[0].Some? && lot.slots[1].None?;
    r := lot.ParkVehicle("KA-02-AA-2222", "Black", "truck");
    assert r == Allocated(2);
    r := lot.ParkVehicle("KA-03-AA-3333", "Red", "car");
    assert r == Full;
    var l := lot.LeaveVehicle(1);
    assert l == Freed;
    l := lot.LeaveVehicle(1);
    assert l == AlreadyEmpty;
    l := lot.LeaveVehicle(3);
    assert l == InvalidSlot;
    r := lot.ParkVehicle("KA-03-AA-3333", "Red", "car");
    assert r == Allocated(1);
  }

  /** Vehicle types are compared without regard to case. */
  method ExampleTypeCount()
  {
    var lot := new ParkingLot(1);
    var r := lot.ParkVehicle("X", "White", "swift");
    assert lot.slots[0] == Some(Vehicle("X", "White", "swift"));
    assert Text.EqualsIgnoreCase("swift", "SWIFT");
    CountIsSizeIffAll(lot.slots[..], TypeIs("SWIFT"));
    var n := lot.CountVehiclesByType("SWIFT");
    assert n == 1;
  }
}
