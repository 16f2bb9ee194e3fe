/** The pool of parking spaces, seen as a value: one occupancy flag per space,
    `true` meaning occupied.  These functions specify the scans and point writes
    that the ParkingLot class performs on its array of flags. */
module SpacePool {

  /** The number of spaces in the lot: the length of the `spaces` array. */
  const Capacity: nat := 20

  /** Some space is still free. */
  predicate AnyFree(s: seq<bool>)
  {
    exists j :: 0 <= j < |s| && !s[j]
  }

  /** The index of the lowest free space, or -1 when every space is occupied. */
  function FirstFree(s: seq<bool>): (r: int)
    ensures -1 <= r < |s|
    ensures r == -1 <==> forall j :: 0 <= j < |s| ==> s[j]
    ensures r != -1 ==> !s[r] && forall j :: 0 <= j < r ==> s[j]
    ensures r != -1 <==> AnyFree(s)
  {
    if |s| == 0 then -1
    else if !s[0] then 0
    else
      var k := FirstFree(s[1..]);
      if k == -1 then -1 else k + 1
  }

  /** The number of occupied spaces. */
  function OccupiedCount(s: seq<bool>): (r: nat)
    ensures r <= |s|
    ensures r == |s| <==> !AnyFree(s)
    ensures r == 0 <==> forall j :: 0 <= j < |s| ==> !s[j]
  {
    if |s| == 0 then 0
    else (if s[0] then 1 else 0) + OccupiedCount(s[1..])
  }

  /** A lot with every space free, as the lot is created. */
  function AllFree(n: nat): (s: seq<bool>)
    ensures |s| == n
    ensures forall j :: 0 <= j < n ==> !s[j]
  {
    seq(n, _ => false)
  }

  /** Writing one flag changes the occupied count by the difference between the
      new flag and the old one, and by nothing else. */
  lemma {:induction false} OccupiedCountUpdate(s: seq<bool>, i: nat, b: bool)
    requires i < |s|
    ensures OccupiedCount(s[i := b])
         == OccupiedCount(s) - (if s[i] then 1 else 0) + (if b then 1 else 0)
  {
    if i > 0 {
      OccupiedCountUpdate(s[1..], i - 1, b);
      assert s[i := b][1..] == s[1..][i - 1 := b];
    }
  }

  /** Occupying a free space adds exactly one to the occupied count. */
  lemma OccupyAddsOne(s: seq<bool>, i: nat)
    requires i < |s| && !s[i]
    ensures OccupiedCount(s[i := true]) == OccupiedCount(s) + 1
  {
    OccupiedCountUpdate(s, i, true);
  }

  /** Releasing an occupied space takes exactly one from the occupied count. */
  lemma ReleaseTakesOne(s: seq<bool>, i: nat)
    requires i < |s| && s[i]
    ensures OccupiedCount(s[i := false]) + 1 == OccupiedCount(s)
  {
    OccupiedCountUpdate(s, i, false);
  }

  /** Occupying a free space and then releasing it gives back the pool as it was. */
  lemma OccupyReleaseRoundTrip(s: seq<bool>, i: nat)
    requires i < |s| && !s[i]
    ensures s[i := true][i := false] == s
  {
  }

  /** Because the lowest free index always wins, the lot fills from the left:
      after occupying the first free space, the next free space (if any) lies
      strictly to its right. */
  lemma FirstFreeAdvances(s: seq<bool>)
    requires AnyFree(s)
    ensures FirstFree(s[FirstFree(s) := true]) == -1
         || FirstFree(s[FirstFree(s) := true]) > FirstFree(s)
  {
  }
}
