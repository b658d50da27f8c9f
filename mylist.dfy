/** `MyList`: a growable list over a fixed-size block. The block has
    `maximum_size` slots; the first `actual_size` hold the elements in order
    and the rest hold None. Inserting into a full block first replaces it by
    one `factor` times larger (2 by default). */
module OwnList {
  import opened Wrappers
  import opened Text

  /** Default growth factor of `_ensure_capacity`. */
  const ResizeBy := 2

  /** What `__str__` shows for a list holding xs in a block of m slots:
      "k/m; List is empty" or "k/m; [ e0, e1, ... ]". */
  function Render<T>(xs: seq<T>, m: nat, show: T -> string): string
  {
    NatToString(|xs|) + "/" + NatToString(m) + "; "
      + if |xs| == 0 then "List is empty" else "[ " + Join(Shown(xs, show), ", ") + " ]"
  }

  /** The head of the text is the element count and the block size, each
      readable back as a number; an empty list says so, and a non-empty one
      shows its elements bracketed. */
  lemma RenderShape<T>(xs: seq<T>, m: nat, show: T -> string)
    ensures var head := NatToString(|xs|) + "/" + NatToString(m) + "; ";
            && StartsWith(Render(xs, m, show), head)
            && DigitsValue(NatToString(|xs|)) == |xs| && DigitsValue(NatToString(m)) == m
            && (|xs| == 0 ==> Render(xs, m, show) == head + "List is empty")
            && (|xs| > 0 ==> Render(xs, m, show)[|head|..|head| + 2] == "[ "
                             && Render(xs, m, show)[|Render(xs, m, show)| - 2..] == " ]")
  {
    NatToStringRoundTrip(|xs|);
    NatToStringRoundTrip(m);
  }

  /** Content and order of `__str__`: element i's text appears verbatim in
      the output, after "[ " and after every earlier element and its ", ". */
  lemma RenderListsInOrder<T>(xs: seq<T>, m: nat, show: T -> string, i: int)
    requires 0 <= i < |xs|
    ensures var at := |NatToString(|xs|) + "/" + NatToString(m) + "; [ "| + JoinOffset(Shown(xs, show), ", ", i);
            && at + |show(xs[i])| <= |Render(xs, m, show)|
            && Render(xs, m, show)[at..at + |show(xs[i])|] == show(xs[i])
    ensures i + 1 < |xs| ==>
            JoinOffset(Shown(xs, show), ", ", i + 1) == JoinOffset(Shown(xs, show), ", ", i) + |show(xs[i])| + 2
  {
    var parts := Shown(xs, show);
    var head := NatToString(|xs|) + "/" + NatToString(m) + "; [ ";
    var joined := Join(parts, ", ");
    var off := JoinOffset(parts, ", ", i);
    JoinHasPartAt(parts, ", ", i);
    JoinOffsetNext(parts, ", ", i);
    assert Render(xs, m, show) == head + joined + " ]";
    SliceOfMiddle(head, joined, " ]", off, |parts[i]|);
  }

  class MyList<T> {
    /** `_data`: the block; replaced by a larger one when it fills up. */
    var data: array<Option<T>>
    /** `_actual_size`. */
    var size: int
    /** `_maximum_size`. */
    var maximumSize: int

    /** The elements, in order. */
    ghost var Contents: seq<T>

    /** The first `size` slots hold the elements, the rest hold None, and
        the block is exactly `maximumSize` slots long. */
    ghost predicate Valid()
      reads this, data
    {
      && 1 <= maximumSize == data.Length
      && size == |Contents| <= maximumSize
      && (forall i :: 0 <= i < size ==> data[i] == Some(Contents[i]))
      && (forall i :: size <= i < maximumSize ==> data[i] == None)
    }

    /** An empty list over a block of `maximumSize` empty slots; the
        source's default of 4 slots is an ordinary argument here. */
    constructor (maximumSize: int)
      requires maximumSize >= 1
      ensures Valid() && fresh(data)
      ensures this.maximumSize == maximumSize && size == 0 && Contents == []
    {
      this.maximumSize := maximumSize;
      size := 0;
      data := new Option<T>[maximumSize](_ => None);
      Contents := [];
    }

    /** `__len__`. */
    function Len(): (k: int)
      reads this, data
      requires Valid()
      ensures k == |Contents| && 0 <= k <= maximumSize
    {
      size
    }

    /** `_ensure_capacity`: when the block is full, multiply its size by
        `factor` and copy the elements into a fresh block; otherwise do
        nothing. The elements never change. */
    method EnsureCapacity(factor: int)
      requires Valid() && factor >= 1
      modifies this
      ensures Valid() && Contents == old(Contents) && size == old(size)
      ensures old(size) == old(maximumSize) ==> maximumSize == old(maximumSize) * factor && fresh(data)
      ensures old(size) < old(maximumSize) ==> maximumSize == old(maximumSize) && data == old(data)
    {
      if size == maximumSize {
        var grown := maximumSize * factor;
        assert grown >= maximumSize by {
          assert maximumSize * factor == maximumSize * (factor - 1) + maximumSize;
        }
        var temp := new Option<T>[grown](_ => None);
        for i := 0 to size
          modifies temp
          invariant forall j :: 0 <= j < i ==> temp[j] == data[j]
          invariant forall j :: i <= j < grown ==> temp[j] == None
        {
          temp[i] := data[i];
        }
        maximumSize := grown;
        data := temp;
      }
    }

    /** `insert`: at a valid index (0 through the length), make room (growing
        a full block by the default factor), shift the tail one slot right
        and store the value; at any other index do nothing. */
    method Insert(index: int, value: T)
      requires Valid()
      modifies this, data
      ensures Valid()
      ensures 0 <= index <= old(size) ==> Contents == old(Contents)[..index] + [value] + old(Contents)[index..]
      ensures !(0 <= index <= old(size)) ==> Contents == old(Contents)
      ensures maximumSize == if 0 <= index <= old(size) && old(size) == old(maximumSize)
                             then old(maximumSize) * ResizeBy else old(maximumSize)
    {
      if 0 <= index <= size {
        EnsureCapacity(ResizeBy);
        ShiftRight(index);
        data[index] := Some(value);
        ghost var inserted := Contents[..index] + [value] + Contents[index..];
        forall j | 0 <= j <= size
          ensures data[j] == Some(inserted[j])
        {
          if j > index {
            assert inserted[j] == Contents[j - 1];
          }
        }
        size := size + 1;
        Contents := inserted;
      }
    }

    /** The shifting loop of `insert`: slots index .. size - 1 move one slot
        right, into a block that has room for them. */
    method ShiftRight(index: int)
      requires Valid() && 0 <= index <= size < maximumSize
      modifies data
      ensures forall j :: 0 <= j < index ==> data[j] == Some(Contents[j])
      ensures forall j :: index < j <= size ==> data[j] == Some(Contents[j - 1])
      ensures forall j :: size < j < maximumSize ==> data[j] == None
    {
      var i := size - 1;
      while i >= index
        invariant index - 1 <= i <= size - 1
        invariant forall j :: 0 <= j <= i ==> data[j] == Some(Contents[j])
        invariant forall j :: i + 2 <= j <= size ==> data[j] == Some(Contents[j - 1])
        invariant forall j :: size < j < maximumSize ==> data[j] == None
      {
        data[i + 1] := data[i];
        i := i - 1;
      }
    }

    /** `append`: insert at the end. */
    method Append(value: T)
      requires Valid()
      modifies this, data
      ensures Valid()
      ensures Contents == old(Contents) + [value]
      ensures maximumSize == if old(size) == old(maximumSize) then old(maximumSize) * ResizeBy else old(maximumSize)
    {
      Insert(size, value);
      assert old(Contents)[..old(size)] == old(Contents);
    }

    /** `remove`: at a valid index (0 through length - 1), return the element
        there, shift the tail one slot left and clear the last slot; at any
        other index return None and change nothing. The block never
        shrinks. */
    method Remove(index: int) returns (removed: Option<T>)
      requires Valid()
      modifies this, data
      ensures Valid() && maximumSize == old(maximumSize)
      ensures 0 <= index < old(size) ==>
                removed == Some(old(Contents)[index])
                && Contents == old(Contents)[..index] + old(Contents)[index + 1..]
      ensures !(0 <= index < old(size)) ==> removed == None && Contents == old(Contents)
    {
      removed := None;
      if index >= 0 && index < size {
        removed := data[index];
        for i := index to size - 1
          modifies data
          invariant forall j :: 0 <= j < index ==> data[j] == Some(Contents[j])
          invariant forall j :: index <= j < i ==> data[j] == Some(Contents[j + 1])
          invariant forall j :: i <= j < size ==> data[j] == Some(Contents[j])
          invariant forall j :: size <= j < maximumSize ==> data[j] == None
        {
          data[i] := data[i + 1];
        }
        data[size - 1] := None;
        ghost var rest := Contents[..index] + Contents[index + 1..];
        forall j | 0 <= j < size - 1
          ensures data[j] == Some(rest[j])
        {
          if j >= index {
            assert rest[j] == Contents[j + 1];
          }
        }
        size := size - 1;
        Contents := rest;
      }
    }

    /** `pop`: remove the last element; None on an empty list. */
    method Pop() returns (removed: Option<T>)
      requires Valid()
      modifies this, data
      ensures Valid() && maximumSize == old(maximumSize)
      ensures old(size) > 0 ==> removed == Some(old(Contents)[old(size) - 1]) && Contents == old(Contents)[..old(size) - 1]
      ensures old(size) == 0 ==> removed == None && Contents == old(Contents)
    {
      removed := Remove(size - 1);
    }

    /** `__str__`, with `show` standing for Python's `str` of an element. */
    method ToString(show: T -> string) returns (s: string)
      requires Valid()
      ensures s == Render(Contents, maximumSize, show)
    {
      s := NatToString(size) + "/" + NatToString(maximumSize) + "; ";
      if size == 0 {
        s := s + "List is empty";
      } else {
        ghost var head := s;
        ghost var parts := Shown(Contents, show);
        s := s + "[ " + show(data[0].value);
        assert parts[..1] == [parts[0]];
        for i := 1 to size
          invariant s == head + "[ " + Join(parts[..i], ", ")
        {
          assert parts[..i + 1][..i] == parts[..i];
          s := s + ", " + show(data[i].value);
        }
        assert parts[..size] == parts;
        s := s + " ]";
      }
    }
  }
}
