/** The collision "hotel": N rooms addressed directly by a polynomial string
    hash reduced mod N. A guest checks in only when their room is empty;
    there is no probing, so a collision turns the guest away. */
module Collisions {
  import opened Wrappers
  import Grid

  /** Multiplier of the string hash. */
  const Multiplier := 31

  /** `hashcode`: the left fold h := h * 31 + ord(c) from h = 0 over exact
      (unbounded) integers. */
  function HashCode(name: string): (h: int)
    ensures h >= 0
  {
    if name == [] then 0 else HashCode(name[..|name| - 1]) * Multiplier + name[|name| - 1] as int
  }

  function Power(b: nat, e: nat): (p: nat)
    ensures b >= 1 ==> p >= 1
  {
    if e == 0 then 1 else Power(b, e - 1) * b
  }

  /** The hash of a concatenation: the first part's hash shifted by one
      factor of 31 per character of the second, plus the second's hash. */
  lemma {:induction false} HashCodeConcat(a: string, b: string)
    ensures HashCode(a + b) == HashCode(a) * Power(Multiplier, |b|) + HashCode(b)
    decreases |b|
  {
    if b != [] {
      var init := b[..|b| - 1];
      assert (a + b)[..|a + b| - 1] == a + init;
      HashCodeConcat(a, init);
      Shift(HashCode(a), Power(Multiplier, |init|), HashCode(init), b[|b| - 1] as int);
    } else {
      assert a + b == a;
    }
  }

  lemma Shift(x: int, p: int, y: int, c: int)
    ensures (x * p + y) * Multiplier + c == x * (p * Multiplier) + (y * Multiplier + c)
  {
  }

  /** Different names can share a hash code: "Aa" and "BB" both hash to
      65 * 31 + 97 == 66 * 31 + 66 == 2112, and so land in the same room of
      every hotel. */
  lemma DistinctNamesCollide(n: int)
    requires n >= 1
    ensures "Aa" != "BB" && HashCode("Aa") == HashCode("BB") == 2112
    ensures HashFunction("Aa", n) == HashFunction("BB", n)
  {
    assert "Aa"[..1] == "A" && "BB"[..1] == "B";
    assert "A"[..0] == [] && "B"[..0] == [];
  }

  /** `hash_function`: the room of a name, its hash code mod N. */
  function HashFunction(name: string, n: int): (room: int)
    requires n >= 1
    ensures 0 <= room < n
    ensures HashCode(name) == HashCode(name) / n * n + room
  {
    HashCode(name) % n
  }

  /** The `hashcode` loop computes the fold. */
  method ComputeHashCode(name: string) returns (h: int)
    ensures h == HashCode(name)
  {
    h := 0;
    for i := 0 to |name|
      invariant h == HashCode(name[..i])
    {
      assert name[..i + 1][..i] == name[..i];
      h := h * Multiplier + name[i] as int;
    }
    assert name[..|name|] == name;
  }

  /** The number of occupied rooms. */
  function Occupied(rooms: seq<Option<string>>): (k: nat)
    ensures k <= |rooms|
    ensures k == 0 <==> forall i :: 0 <= i < |rooms| ==> rooms[i] == None
  {
    if rooms == [] then 0 else (if rooms[0].Some? then 1 else 0) + Occupied(rooms[1..])
  }

  /** Putting a guest into a room adds one occupied room exactly when that
      room was empty. */
  lemma {:induction false} OccupiedAfterFill(rooms: seq<Option<string>>, h: int, name: string)
    requires 0 <= h < |rooms|
    ensures Occupied(rooms[h := Some(name)]) == Occupied(rooms) + if rooms[h] == None then 1 else 0
  {
    var filled := rooms[h := Some(name)];
    if h == 0 {
      assert filled[1..] == rooms[1..];
    } else {
      assert filled[1..] == rooms[1..][h - 1 := Some(name)];
      OccupiedAfterFill(rooms[1..], h - 1, name);
    }
  }

  /** `[None] * N`: n empty rooms. */
  function Vacant(n: nat): (rooms: seq<Option<string>>)
    ensures |rooms| == n && Occupied(rooms) == 0
  {
    if n == 0 then [] else [None] + Vacant(n - 1)
  }

  /** The rooms after one `check_in`, and whether it succeeded. */
  function CheckInOne(rooms: seq<Option<string>>, name: string): (r: (seq<Option<string>>, bool))
    requires |rooms| >= 1
  {
    var h := HashFunction(name, |rooms|);
    if rooms[h] == None then (rooms[h := Some(name)], true) else (rooms, false)
  }

  /** A `check_in` succeeds exactly when the name's room is empty; it then
      puts the name there and touches no other room, and otherwise it
      changes nothing. It always adds one occupied room on success and none
      on failure. */
  lemma CheckInOneSpec(rooms: seq<Option<string>>, name: string)
    requires |rooms| >= 1
    ensures var (after, ok) := CheckInOne(rooms, name);
            var h := HashFunction(name, |rooms|);
            && |after| == |rooms|
            && (ok <==> rooms[h] == None)
            && (ok ==> after[h] == Some(name))
            && (forall i :: 0 <= i < |rooms| && i != h ==> after[i] == rooms[i])
            && (!ok ==> after == rooms)
            && Occupied(after) == Occupied(rooms) + if ok then 1 else 0
  {
    OccupiedAfterFill(rooms, HashFunction(name, |rooms|), name);
  }

  /** The rooms after `check_in` of each name in turn, and how many of those
      check-ins succeeded. */
  function CheckInAll(rooms: seq<Option<string>>, names: seq<string>): (r: (seq<Option<string>>, nat))
    requires |rooms| >= 1
    ensures |r.0| == |rooms|
    ensures r.1 == Occupied(r.0) - Occupied(rooms)
    ensures r.1 <= |names| && r.1 <= |rooms| - Occupied(rooms)
    ensures forall i :: 0 <= i < |rooms| && rooms[i] != None ==> r.0[i] == rooms[i]
    decreases |names|
  {
    if names == [] then (rooms, 0)
    else
      var (before, k) := CheckInAll(rooms, names[..|names| - 1]);
      CheckInOneSpec(before, names[|names| - 1]);
      var (after, ok) := CheckInOne(before, names[|names| - 1]);
      (after, if ok then k + 1 else k)
  }

  /** One simulation on an empty hotel admits no more guests than there are
      guests or rooms. */
  lemma AdmissionsBound(n: int, names: seq<string>)
    requires n >= 1
    ensures CheckInAll(Vacant(n), names).1 <= |names|
    ensures CheckInAll(Vacant(n), names).1 <= n
    ensures CheckInAll(Vacant(n), names).1 == Occupied(CheckInAll(Vacant(n), names).0)
  { }

  /** Of two colliding guests only the first is admitted. */
  lemma SecondOfCollidingPairTurnedAway(n: int)
    requires n >= 1
    ensures CheckInAll(Vacant(n), ["Aa", "BB"]).1 == 1
    ensures CheckInAll(Vacant(n), ["Aa", "BB"]).0[HashFunction("Aa", n)] == Some("Aa")
  {
    DistinctNamesCollide(n);
    var names := ["Aa", "BB"];
    assert names[..1] == ["Aa"] && names[..1][..0] == [];
  }

  /** The admissions of several simulations, each on a freshly emptied
      hotel of n rooms. */
  function TotalAdmissions(n: int, trialNames: seq<seq<string>>): (total: nat)
    requires n >= 1
    ensures total <= |trialNames| * n
    decreases |trialNames|
  {
    if trialNames == [] then 0
    else
      var k := |trialNames| - 1;
      var before := TotalAdmissions(n, trialNames[..k]);
      Grid.MulSucc(k, n);
      before + CheckInAll(Vacant(n), trialNames[k]).1
  }

  /** Several simulations of g guests each admit at most g per simulation. */
  lemma {:induction false} TotalAdmissionsBound(n: int, trialNames: seq<seq<string>>, g: nat)
    requires n >= 1
    requires forall t :: 0 <= t < |trialNames| ==> |trialNames[t]| == g
    ensures TotalAdmissions(n, trialNames) <= |trialNames| * g
    decreases |trialNames|
  {
    if trialNames != [] {
      var k := |trialNames| - 1;
      TotalAdmissionsBound(n, trialNames[..k], g);
      Grid.MulSucc(k, g);
    }
  }

  class SimulateCollisions {
    /** Number of rooms. */
    const N: int
    /** Guests per simulation. */
    const guests: int
    /** Number of simulations. */
    const trials: int
    /** The rooms; None is an empty room. */
    var hotel: array<Option<string>>

    ghost predicate Valid()
      reads this
    {
      N >= 1 && hotel.Length == N
    }

    /** A hotel of N empty rooms. The source's defaults (1024 rooms, as many
        guests, 10 trials) are ordinary arguments here. */
    constructor (N: int, guests: int, trials: int)
      requires N >= 1
      ensures Valid() && fresh(hotel) && hotel[..] == Vacant(N)
      ensures this.N == N && this.guests == guests && this.trials == trials
    {
      this.N := N;
      this.guests := guests;
      this.trials := trials;
      hotel := new Option<string>[N](_ => None);
    }

    /** `reset`: a fresh list of N empty rooms. */
    method Reset()
      requires Valid()
      modifies this
      ensures Valid() && fresh(hotel) && hotel[..] == Vacant(N)
    {
      hotel := new Option<string>[N](_ => None);
    }

    /** `check_in`: admit the guest when their room is empty. */
    method CheckIn(name: string) returns (checkedIn: bool)
      requires Valid()
      modifies hotel
      ensures Valid()
      ensures (hotel[..], checkedIn) == CheckInOne(old(hotel[..]), name)
    {
      var h := HashFunction(name, N);
      checkedIn := hotel[h] == None;
      if checkedIn {
        hotel[h] := Some(name);
      }
    }

    /** `simulate_check_in`, with the guests' names given: try each in turn
        and count the successes. */
    method SimulateCheckIn(names: seq<string>) returns (success: int)
      requires Valid() && |names| == guests
      modifies hotel
      ensures Valid()
      ensures (hotel[..], success) == CheckInAll(old(hotel[..]), names)
    {
      ghost var start := hotel[..];
      success := 0;
      for i := 0 to guests
        invariant hotel[..] == CheckInAll(start, names[..i]).0
        invariant success == CheckInAll(start, names[..i]).1
      {
        assert names[..i + 1][..i] == names[..i];
        var ok := CheckIn(names[i]);
        if ok {
          success := success + 1;
        }
      }
      assert names[..|names|] == names;
    }

    /** `main` without its report: `trials` simulations, each on a reset
        hotel, with the names of every simulation given; returns the total
        number of admissions. */
    method RunSimulations(trialNames: seq<seq<string>>) returns (totalSuccess: int)
      requires Valid() && |trialNames| == trials
      requires forall t :: 0 <= t < |trialNames| ==> |trialNames[t]| == guests
      modifies this, hotel
      ensures Valid()
      ensures totalSuccess == TotalAdmissions(N, trialNames)
    {
      totalSuccess := 0;
      for t := 0 to trials
        invariant Valid()
        invariant totalSuccess == TotalAdmissions(N, trialNames[..t])
      {
        assert trialNames[..t + 1][..t] == trialNames[..t];
        Reset();
        var current := SimulateCheckIn(trialNames[t]);
        totalSuccess := totalSuccess + current;
      }
      assert trialNames[..|trialNames|] == trialNames;
    }
  }
}
