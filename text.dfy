/** The pieces of Python's string formatting the model needs: decimal
    rendering of a non-negative int (as an f-string does) and `sep.join`. */
module Text {

  function DigitChar(d: int): (c: char)
    requires 0 <= d < 10
    ensures '0' <= c <= '9' && c as int - '0' as int == d
  {
    (d + '0' as int) as char
  }

  predicate IsDigits(s: string)
  {
    forall i :: 0 <= i < |s| ==> '0' <= s[i] <= '9'
  }

  /** `str(k)` for k >= 0: the shortest decimal numeral of k, without sign
      and without leading zeros. */
  function NatToString(k: nat): (s: string)
    ensures |s| >= 1 && IsDigits(s)
    ensures |s| > 1 ==> s[0] != '0'
    ensures k < 10 <==> |s| == 1
  {
    if k < 10 then [DigitChar(k)] else NatToString(k / 10) + [DigitChar(k % 10)]
  }

  /** The value of a decimal numeral, read left to right. */
  function DigitsValue(s: string): (v: nat)
    requires IsDigits(s)
  {
    if s == [] then 0 else DigitsValue(s[..|s| - 1]) * 10 + (s[|s| - 1] as int - '0' as int)
  }

  /** Reading back a rendered number gives the number. */
  lemma {:induction false} NatToStringRoundTrip(k: nat)
    ensures DigitsValue(NatToString(k)) == k
  {
    var s := NatToString(k);
    if k >= 10 {
      NatToStringRoundTrip(k / 10);
      assert s[..|s| - 1] == NatToString(k / 10);
    }
  }

  /** Python's `sep.join(parts)`: the parts in order with sep between
      neighbours; "" for no parts. */
  function Join(parts: seq<string>, sep: string): (s: string)
  {
    if |parts| == 0 then ""
    else if |parts| == 1 then parts[0]
    else Join(parts[..|parts| - 1], sep) + sep + parts[|parts| - 1]
  }

  /** The join read from the other end: the first part, the separator, then
      the join of the rest. */
  lemma {:induction false} JoinCons(x: string, rest: seq<string>, sep: string)
    requires |rest| > 0
    ensures Join([x] + rest, sep) == x + sep + Join(rest, sep)
  {
    var parts := [x] + rest;
    if |rest| == 1 {
      assert parts[..|parts| - 1] == [x];
    } else {
      assert parts[..|parts| - 1] == [x] + rest[..|rest| - 1];
      JoinCons(x, rest[..|rest| - 1], sep);
    }
  }

  /** The length of a join: every part, plus one separator between each pair
      of neighbours. */
  lemma {:induction false} JoinLength(parts: seq<string>, sep: string)
    requires |parts| > 0
    ensures |Join(parts, sep)| == TotalLength(parts) + (|parts| - 1) * |sep|
  {
    if |parts| > 1 {
      JoinLength(parts[..|parts| - 1], sep);
      TotalLengthSnoc(parts[..|parts| - 1], parts[|parts| - 1]);
      assert parts[..|parts| - 1] + [parts[|parts| - 1]] == parts;
    }
  }

  function TotalLength(parts: seq<string>): nat
  {
    if parts == [] then 0 else |parts[0]| + TotalLength(parts[1..])
  }

  lemma {:induction false} TotalLengthSnoc(parts: seq<string>, x: string)
    ensures TotalLength(parts + [x]) == TotalLength(parts) + |x|
  {
    if parts != [] {
      assert (parts + [x])[1..] == parts[1..] + [x];
      TotalLengthSnoc(parts[1..], x);
    }
  }

  /** Where the i-th part starts inside the join: after the parts before
      it and one separator per earlier part. */
  function JoinOffset(parts: seq<string>, sep: string, i: int): (k: nat)
    requires 0 <= i <= |parts|
  {
    TotalLength(parts[..i]) + i * |sep|
  }

  /** Content and order: the join holds every part, verbatim, at its
      offset. */
  lemma {:induction false} JoinHasPartAt(parts: seq<string>, sep: string, i: int)
    requires 0 <= i < |parts|
    ensures JoinOffset(parts, sep, i) + |parts[i]| <= |Join(parts, sep)|
    ensures Join(parts, sep)[JoinOffset(parts, sep, i)..JoinOffset(parts, sep, i) + |parts[i]|] == parts[i]
    decreases |parts|
  {
    var n := |parts|;
    if n == 1 {
      assert parts[..0] == [];
    } else {
      var init := parts[..n - 1];
      var j := Join(init, sep);
      assert Join(parts, sep) == j + sep + parts[n - 1];
      if i < n - 1 {
        JoinHasPartAt(init, sep, i);
        assert init[..i] == parts[..i];
        assert JoinOffset(parts, sep, i) == JoinOffset(init, sep, i);
      } else {
        JoinLength(init, sep);
        assert parts[..i] == init;
        assert (n - 1) * |sep| == (n - 2) * |sep| + |sep|;
        assert JoinOffset(parts, sep, i) == |j| + |sep|;
      }
    }
  }

  /** Consecutive parts start in order: the next one begins after this part
      and one separator. */
  lemma JoinOffsetNext(parts: seq<string>, sep: string, i: int)
    requires 0 <= i < |parts|
    ensures JoinOffset(parts, sep, i + 1) == JoinOffset(parts, sep, i) + |parts[i]| + |sep|
  {
    assert parts[..i + 1] == parts[..i] + [parts[i]];
    TotalLengthSnoc(parts[..i], parts[i]);
  }

  /** A slice that lies inside the middle piece of a concatenation is a
      slice of that piece. */
  lemma SliceOfMiddle(a: string, b: string, c: string, x: int, l: int)
    requires 0 <= x && 0 <= l && x + l <= |b|
    ensures (a + b + c)[|a| + x..|a| + x + l] == b[x..x + l]
  {
    var s := a + b + c;
    assert forall j :: |a| + x <= j < |a| + x + l ==> s[j] == b[j - |a|];
  }

  /** `str` applied to every element. */
  function Shown<T>(xs: seq<T>, show: T -> string): (r: seq<string>)
    ensures |r| == |xs| && forall i :: 0 <= i < |xs| ==> r[i] == show(xs[i])
  {
    seq(|xs|, i requires 0 <= i < |xs| => show(xs[i]))
  }

  /** Python's `s.startswith(prefix)`. */
  predicate StartsWith(s: string, prefix: string)
  {
    |prefix| <= |s| && s[..|prefix|] == prefix
  }
}
