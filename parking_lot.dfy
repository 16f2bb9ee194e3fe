/** The parking lot coordinator: the space flags, the single-lane entrance gate
    with its traffic direction, the exit counter and the stream of status
    messages, together with the vehicles' one-shot admission and departure
    attempts.  Every call is one atomic step. */
module Parking {
  import opened SpacePool

  /** Traffic direction of the lane, as the lot stores it. */
  const Idle: int := 0
  const Entering: int := 1
  const Exiting: int := -1

  /** A vehicle is only an identity; it never holds lot state. */
  datatype Vehicle = Vehicle(id: int)

  /** The status messages sent to the display, without their wording. */
  datatype Event =
    | WaitingForSpace(vehicle: int)
    | EnteredSpace(vehicle: int, space: int)
    | WaitingForEntrance(vehicle: int)
    | LeftSpace(vehicle: int, space: int, totalExits: int)
    | WaitingToExit(vehicle: int)

  class ParkingLot {
    /** One flag per space, true when occupied. */
    const spaces: array<bool>
    /** The one-slot entrance buffer is full: some vehicle is in the lane. */
    var gateHeld: bool
    /** Idle, Entering or Exiting. */
    var direction: int
    /** Number of completed departures. */
    var vehiclesExited: nat
    /** Status messages sent so far, oldest first. */
    var log: seq<Event>

    ghost predicate Valid()
      reads this
    {
      spaces.Length == Capacity && Exiting <= direction <= Entering
    }

    /** The lane is idle whenever nobody holds the gate. */
    ghost predicate LaneIdleWhenGateFree()
      reads this
    {
      !gateHeld ==> direction == Idle
    }

    constructor ()
      ensures Valid() && fresh(spaces)
      ensures spaces[..] == AllFree(Capacity)
      ensures !gateHeld && direction == Idle && vehiclesExited == 0 && log == []
      ensures LaneIdleWhenGateFree()
    {
      spaces := new bool[Capacity](_ => false);
      gateHeld := false;
      direction := Idle;
      vehiclesExited := 0;
      log := [];
    }

    /** The lowest free space, or -1 when the lot is full. */
    method FindAvailableSpace() returns (r: int)
      requires Valid()
      ensures -1 <= r < Capacity
      ensures r == -1 <==> forall j :: 0 <= j < Capacity ==> spaces[j]
      ensures r != -1 ==> !spaces[r] && forall j :: 0 <= j < r ==> spaces[j]
      ensures r == FirstFree(spaces[..])
    {
      var i := 0;
      while i < spaces.Length
        invariant 0 <= i <= spaces.Length
        invariant forall j :: 0 <= j < i ==> spaces[j]
      {
        if !spaces[i] {
          return i;
        }
        i := i + 1;
      }
      return -1;
    }

    /** Whether any space is free. */
    method HasAvailableSpaces() returns (r: bool)
      requires Valid()
      ensures r <==> exists j :: 0 <= j < Capacity && !spaces[j]
      ensures r <==> FirstFree(spaces[..]) != -1
      ensures r <==> OccupiedCount(spaces[..]) < Capacity
    {
      var i := 0;
      while i < spaces.Length
        invariant 0 <= i <= spaces.Length
        invariant forall j :: 0 <= j < i ==> spaces[j]
      {
        if !spaces[i] {
          assert !spaces[..][i];
          return true;
        }
        i := i + 1;
      }
      assert forall j :: 0 <= j < Capacity ==> spaces[..][j];
      return false;
    }

    /** Marks a space occupied, whatever it held before. */
    method OccupySpace(space: int)
      requires Valid() && 0 <= space < Capacity
      modifies spaces
      ensures spaces[..] == old(spaces[..])[space := true]
    {
      spaces[space] := true;
    }

    /** Marks a space free, whatever it held before. */
    method ReleaseSpace(space: int)
      requires Valid() && 0 <= space < Capacity
      modifies spaces
      ensures spaces[..] == old(spaces[..])[space := false]
    {
      spaces[space] := false;
    }

    /** Non-blocking send into the one-slot entrance buffer. */
    method TryAcquireGate() returns (acquired: bool)
      modifies this`gateHeld
      ensures acquired == !old(gateHeld)
      ensures gateHeld
    {
      acquired := !gateHeld;
      gateHeld := true;
    }

    /** Receive from the entrance buffer; only its holder does this, so it
        never blocks. */
    method ReleaseGate()
      requires gateHeld
      modifies this`gateHeld
      ensures !gateHeld
    {
      gateHeld := false;
    }

    /** One admission attempt: a vehicle first checks for a free space, then
        tries the gate. */
    method Enter(v: Vehicle) returns (space: int, ok: bool)
      requires Valid()
      modifies this, spaces
      ensures Valid()
      ensures gateHeld == old(gateHeld) && vehiclesExited == old(vehiclesExited)
      ensures ok <==> AnyFree(old(spaces[..])) && !old(gateHeld)
                      && (old(direction) == Idle || old(direction) == Entering)
      ensures ok ==> space == FirstFree(old(spaces[..]))
                     && spaces[..] == old(spaces[..])[space := true]
                     && OccupiedCount(spaces[..]) == OccupiedCount(old(spaces[..])) + 1
                     && direction == Idle
                     && log == old(log) + [EnteredSpace(v.id, space)]
      ensures !ok ==> space == -1 && spaces[..] == old(spaces[..]) && direction == old(direction)
      ensures !ok && !AnyFree(old(spaces[..])) ==> log == old(log) + [WaitingForSpace(v.id)]
      ensures !ok && AnyFree(old(spaces[..])) ==>
                log == old(log) + (if old(gateHeld) && old(direction) == Exiting
                                   then [WaitingForEntrance(v.id)] else [])
      ensures old(LaneIdleWhenGateFree()) ==> LaneIdleWhenGateFree()
    {
      var free := HasAvailableSpaces();
      if !free {
        log := log + [WaitingForSpace(v.id)];
        return -1, false;
      }
      space, ok := EnterThroughGate(v);
    }

    /** The part of an admission attempt after the free-space check, with the
        lane reset to idle when no space is left by the time the gate is held.
        On its own it covers the case where other vehicles took the last space
        between the check and the gate. */
    method EnterThroughGate(v: Vehicle) returns (space: int, ok: bool)
      requires Valid()
      modifies this, spaces
      ensures Valid()
      ensures gateHeld == old(gateHeld) && vehiclesExited == old(vehiclesExited)
      ensures ok <==> AnyFree(old(spaces[..])) && !old(gateHeld)
                      && (old(direction) == Idle || old(direction) == Entering)
      ensures ok ==> space == FirstFree(old(spaces[..]))
                     && spaces[..] == old(spaces[..])[space := true]
                     && OccupiedCount(spaces[..]) == OccupiedCount(old(spaces[..])) + 1
                     && direction == Idle
                     && log == old(log) + [EnteredSpace(v.id, space)]
      ensures !ok ==> space == -1 && spaces[..] == old(spaces[..])
      ensures !ok && !old(gateHeld) && (old(direction) == Idle || old(direction) == Entering) ==>
                direction == Idle
      ensures !ok && (old(gateHeld) || old(direction) == Exiting) ==> direction == old(direction)
      ensures !ok ==> log == old(log) + (if old(gateHeld) && old(direction) == Exiting
                                         then [WaitingForEntrance(v.id)] else [])
      ensures old(LaneIdleWhenGateFree()) ==> LaneIdleWhenGateFree()
    {
      var acquired := TryAcquireGate();
      if acquired {
        if direction == Idle || direction == Entering {
          direction := Entering;
          space := FindAvailableSpace();
          if space != -1 {
            OccupyAddsOne(spaces[..], space);
            OccupySpace(space);
            log := log + [EnteredSpace(v.id, space)];
            ReleaseGate();
            direction := Idle;
            return space, true;
          }
          direction := Idle;
        }
        ReleaseGate();
      } else if direction == Exiting {
        log := log + [WaitingForEntrance(v.id)];
        return -1, false;
      }
      return -1, false;
    }

    /** The same step as the source writes it: when no space is left by the
        time the gate is held, the gate is released but the lane stays marked
        as entering. */
    method EnterThroughGateAsWritten(v: Vehicle) returns (space: int, ok: bool)
      requires Valid()
      modifies this, spaces
      ensures Valid()
      ensures gateHeld == old(gateHeld) && vehiclesExited == old(vehiclesExited)
      ensures ok <==> AnyFree(old(spaces[..])) && !old(gateHeld)
                      && (old(direction) == Idle || old(direction) == Entering)
      ensures ok ==> space == FirstFree(old(spaces[..]))
                     && spaces[..] == old(spaces[..])[space := true]
                     && direction == Idle
                     && log == old(log) + [EnteredSpace(v.id, space)]
      ensures !ok ==> space == -1 && spaces[..] == old(spaces[..])
      ensures !ok && !old(gateHeld) && (old(direction) == Idle || old(direction) == Entering) ==>
                direction == Entering
      ensures !ok && (old(gateHeld) || old(direction) == Exiting) ==> direction == old(direction)
      ensures !ok ==> log == old(log) + (if old(gateHeld) && old(direction) == Exiting
                                         then [WaitingForEntrance(v.id)] else [])
    {
      var acquired := TryAcquireGate();
      if acquired {
        if direction == Idle || direction == Entering {
          direction := Entering;
          space := FindAvailableSpace();
          if space != -1 {
            OccupySpace(space);
            log := log + [EnteredSpace(v.id, space)];
            ReleaseGate();
            direction := Idle;
            return space, true;
          }
        }
        ReleaseGate();
      } else if direction == Exiting {
        log := log + [WaitingForEntrance(v.id)];
        return -1, false;
      }
      return -1, false;
    }

    /** One departure attempt by a vehicle parked in `space`. */
    method Exit(v: Vehicle, space: int) returns (ok: bool)
      requires Valid() && 0 <= space < Capacity
      modifies this, spaces
      ensures Valid()
      ensures gateHeld == old(gateHeld)
      ensures ok <==> !old(gateHeld) && (old(direction) == Idle || old(direction) == Exiting)
      ensures ok ==> spaces[..] == old(spaces[..])[space := false]
                     && vehiclesExited == old(vehiclesExited) + 1
                     && direction == Idle
                     && log == old(log) + [LeftSpace(v.id, space, vehiclesExited)]
      ensures ok && old(spaces[space]) ==>
                OccupiedCount(spaces[..]) + 1 == OccupiedCount(old(spaces[..]))
      ensures !ok ==> spaces[..] == old(spaces[..]) && vehiclesExited == old(vehiclesExited)
                      && direction == old(direction)
                      && log == old(log) + (if old(gateHeld) && old(direction) == Entering
                                            then [WaitingToExit(v.id)] else [])
      ensures old(LaneIdleWhenGateFree()) ==> LaneIdleWhenGateFree()
    {
      var acquired := TryAcquireGate();
      if acquired {
        if direction == Idle || direction == Exiting {
          direction := Exiting;
          if spaces[space] {
            ReleaseTakesOne(spaces[..], space);
          }
          ReleaseSpace(space);
          vehiclesExited := vehiclesExited + 1;
          log := log + [LeftSpace(v.id, space, vehiclesExited)];
          ReleaseGate();
          direction := Idle;
          return true;
        }
        ReleaseGate();
      } else if direction == Entering {
        log := log + [WaitingToExit(v.id)];
        return false;
      }
      return false;
    }
  }

  /** A full lot, gate free, lane idle: the state in which a vehicle that saw
      the last free space reaches the gate after another vehicle took it. */
  method FullLot() returns (lot: ParkingLot)
    ensures fresh(lot) && fresh(lot.spaces) && lot.Valid()
    ensures !lot.gateHeld && lot.direction == Idle && lot.LaneIdleWhenGateFree()
    ensures !AnyFree(lot.spaces[..])
  {
    lot := new ParkingLot();
    for i := 0 to Capacity
      invariant lot.Valid() && !lot.gateHeld && lot.direction == Idle
      invariant forall j :: 0 <= j < i ==> lot.spaces[j]
    {
      lot.OccupySpace(i);
    }
    assert forall j :: 0 <= j < Capacity ==> lot.spaces[..][j];
  }

  /** As written: after the late entrant leaves the lane marked as entering,
      no parked vehicle can leave and no vehicle can enter, and the lot stays
      in that state. */
  method LateEntrantLocksLaneAsWritten(parked: int) returns (exited: bool, entered: bool)
    requires 0 <= parked < Capacity
    ensures !exited && !entered
  {
    var lot := FullLot();
    var _, _ := lot.EnterThroughGateAsWritten(Vehicle(1));
    assert !lot.gateHeld && lot.direction == Entering;
    exited := lot.Exit(Vehicle(2), parked);
    var space;
    space, entered := lot.Enter(Vehicle(3));
    assert !lot.gateHeld && lot.direction == Entering;
    var again := lot.Exit(Vehicle(2), parked);
    exited := exited || again;
  }

  /** Corrected: after the late entrant gives up, the lane is idle again and a
      parked vehicle can leave at once. */
  method LateEntrantThenExit(parked: int) returns (exited: bool)
    requires 0 <= parked < Capacity
    ensures exited
  {
    var lot := FullLot();
    var _, _ := lot.EnterThroughGate(Vehicle(1));
    exited := lot.Exit(Vehicle(2), parked);
  }
}
