/** A train line as a singly linked chain of stations, with a head, a tail
    and a cached station count, so that adding at the end and counting take
    no walk down the chain. */
module TrainLine {
  import opened Text

  /** A stop on a line: a fixed name and the next stop, if any. */
  class Station {
    const name: string
    var next: Station?

    /** A new station has no next stop. */
    constructor (name: string)
      ensures this.name == name && next == null
    {
      this.name := name;
      next := null;
    }

    method SetNext(nextStation: Station?)
      modifies this
      ensures next == nextStation
    {
      next := nextStation;
    }

    function GetNext(): (s: Station?)
      reads this
      ensures s == next
    {
      next
    }

    /** The name never changes: it is fixed at construction. */
    function GetName(): (s: string)
      ensures s == name
    {
      name
    }

    function HasNext(): (b: bool)
      reads this
      ensures b <==> next != null
    {
      next != null
    }
  }

  /** What `add` accepts: a station's name, or a station. */
  datatype NewStation = ByName(stationName: string) | ByStation(station: Station)

  /** The station reached from s after k steps along `next`, staying inside
      the stations r; null once the chain ends. */
  ghost function Follow(s: Station?, k: nat, r: seq<Station>): Station?
    reads r
    decreases k
  {
    if k == 0 || s == null then s
    else if s in r then Follow(s.next, k - 1, r)
    else null
  }

  /** The names of the stations, in order. */
  ghost function NamesOf(stations: seq<Station>): (names: seq<string>)
    ensures |names| == |stations| && forall i :: 0 <= i < |stations| ==> names[i] == stations[i].name
  {
    seq(|stations|, i requires 0 <= i < |stations| => stations[i].name)
  }

  const Singular := "station"
  const Plural := Singular + "s"
  /** The word used for a line with no stations. */
  const Empty := Plural

  class EuropeanTrainLine {
    const name: string
    var head: Station?
    var tail: Station?
    var count: int

    /** The stations from head to tail. */
    ghost var nodes: seq<Station>

    /** head and tail are the ends of the chain, each station's next is the
        one after it, the last has none, no station appears twice, and
        count is the number of stations. */
    ghost predicate Valid()
      reads this, nodes
    {
      && count == |nodes|
      && (forall i, j :: 0 <= i < j < |nodes| ==> nodes[i] != nodes[j])
      && (nodes == [] ==> head == null && tail == null)
      && (nodes != [] ==> head == nodes[0] && tail == nodes[|nodes| - 1] && tail.next == null)
      && (forall i :: 0 <= i < |nodes| - 1 ==> nodes[i].next == nodes[i + 1])
    }

    /** The station names from head to tail. */
    ghost function Names(): (names: seq<string>)
      reads this
    {
      NamesOf(nodes)
    }

    /** A new line has no stations. */
    constructor (name: string)
      ensures Valid() && this.name == name
      ensures head == null && tail == null && count == 0 && nodes == []
    {
      this.name := name;
      head := null;
      tail := null;
      count := 0;
      nodes := [];
    }

    /** `add`: a name becomes a new station; the station is linked after the
        tail (or becomes the head of an empty line), becomes the tail, loses
        any next it had, and the count goes up by one. */
    method Add(newStation: NewStation)
      requires Valid()
      requires newStation.ByStation? ==> newStation.station !in nodes
      modifies this, nodes, if newStation.ByStation? then {newStation.station} else {}
      ensures Valid()
      ensures newStation.ByName? ==> fresh(tail) && tail.name == newStation.stationName
      ensures newStation.ByStation? ==> tail == newStation.station
      ensures nodes == old(nodes) + [tail] && Names() == old(Names()) + [tail.name]
      ensures count == old(count) + 1 && tail.next == null
      ensures head == if old(head) == null then tail else old(head)
    {
      var station: Station;
      if newStation.ByName? {
        station := new Station(newStation.stationName);
      } else {
        station := newStation.station;
      }
      if head == null {
        head := station;
      } else {
        tail.SetNext(station);
      }
      tail := station;
      tail.SetNext(null);
      count := count + 1;
      nodes := nodes + [station];
    }

    /** `count_stations`: the cached count, which is the number of stations
        on the chain. */
    function CountStations(): (k: int)
      reads this, nodes
      requires Valid()
      ensures k == |nodes|
    {
      count
    }

    /** `__len__`. */
    function Length(): (k: int)
      reads this, nodes
      requires Valid()
      ensures k == |nodes|
    {
      CountStations()
    }

    /** `__bool__`: whether the line has a station. */
    function IsTruthy(): (b: bool)
      reads this, nodes
      requires Valid()
      ensures b <==> nodes != []
    {
      count > 0
    }

    /** `__str__`: "<name> has <count> station", with "stations" for any
        count other than one. The count reads back from the text. */
    function ToString(): (s: string)
      reads this, nodes
      requires Valid()
      ensures StartsWith(s, name + " has ")
      ensures var rest := s[|name| + 5..];
              var d := |NatToString(|nodes|)|;
              && d < |rest| && IsDigits(rest[..d]) && DigitsValue(rest[..d]) == |nodes| && rest[d] == ' '
              && (|nodes| == 1 <==> rest[d + 1..] == Singular)
              && (|nodes| != 1 <==> rest[d + 1..] == Plural)
    {
      NatToStringRoundTrip(count);
      var digits := NatToString(count);
      var textual := if count == 0 then Empty else if count == 1 then Singular else Plural;
      var s := name + " has " + digits + " " + textual;
      var rest := digits + " " + textual;
      assert s == (name + " has ") + rest;
      assert s[|name| + 5..] == rest;
      assert rest[..|digits|] == digits && rest[|digits| + 1..] == textual;
      assert |Singular| != |Plural|;
      s
    }

    /** The chain from head holds exactly the line's stations: i steps along
        `next` reach the i-th station, and count steps run off the end. */
    lemma ChainFromHead()
      requires Valid()
      ensures forall i :: 0 <= i < |nodes| ==> Follow(head, i, nodes) == nodes[i]
      ensures Follow(head, |nodes|, nodes) == null
    {
      if nodes != [] {
        forall i | 0 <= i <= |nodes| {
          FollowFrom(0, i);
        }
      }
    }

    lemma {:induction false} FollowFrom(i: nat, k: nat)
      requires Valid() && i < |nodes| && i + k <= |nodes|
      ensures Follow(nodes[i], k, nodes) == if i + k < |nodes| then nodes[i + k] else null
      decreases k
    {
      if k > 0 {
        assert nodes[i] in nodes;
        if i + 1 < |nodes| {
          FollowFrom(i + 1, k - 1);
        }
      }
    }
  }
}
