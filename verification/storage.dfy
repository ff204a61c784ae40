/**
  The storage behind an ExprVector: either an owned, growable vector or a
  borrowed raw buffer, together with the logical length `n`.
  `buffer` is where every element access goes; it points at `vect` when
  the storage is owned and at caller-supplied memory when it is borrowed.
 */
module Storage {

  /** The value a resized vector gives its new slots (`int()` is zero). */
  const Zero: int := 0

  /** `s` truncated or padded with zeros to length `m`, as `std::vector::resize` leaves it. */
  function Resized(s: seq<int>, m: nat): (r: seq<int>)
    ensures |r| == m
    ensures forall i :: 0 <= i < m && i < |s| ==> r[i] == s[i]
    ensures forall i :: |s| <= i < m ==> r[i] == Zero
  {
    if m <= |s| then s[..m] else s + seq(m - |s|, _ => Zero)
  }

  /** The first `m` elements of `src`, as an element-by-element copy leaves them. */
  function Copied(src: seq<int>, m: nat): (r: seq<int>)
    requires m <= |src|
    ensures |r| == m && forall i :: 0 <= i < m ==> r[i] == src[i]
  {
    src[..m]
  }

  /**
    A stale length of zero (any value other than the source's length would
    do) gives a copy of a three-element storage that holds none of its elements.
   */
  lemma StaleCopyLosesElements()
    ensures var src := [1, 2, 3]; Copied(src, 0) != Copied(src, |src|)
  {
    assert |Copied([1, 2, 3], 0)| == 0;
  }

  /** A fresh array holding `other.buffer[0 .. m-1]`, filled by an ascending loop. */
  method CopyOf(other: BuffData, m: nat) returns (v: array<int>)
    requires m <= other.buffer.Length
    ensures fresh(v) && v[..] == Copied(other.buffer[..], m)
  {
    v := new int[m];
    var i := 0;
    while i < m
      invariant 0 <= i <= m
      invariant forall j :: 0 <= j < i ==> v[j] == other.buffer[j]
    {
      v[i] := other.buffer[i];
      i := i + 1;
    }
  }

  class BuffData {
    /** The owned storage. */
    var vect: array<int>
    /** Where element accesses go: `vect`, or a borrowed buffer. */
    var buffer: array<int>
    /** The logical length. */
    var n: nat

    /** The buffer holds at least `n` elements. */
    ghost predicate Valid()
      reads this
    {
      n <= buffer.Length
    }

    /** The storage is the owned vector, not a borrowed buffer. */
    ghost predicate Owned()
      reads this
    {
      buffer == vect
    }

    /** The elements `0 .. n-1`. */
    ghost function Contents(): seq<int>
      reads this, buffer
      requires Valid()
    {
      buffer[..n]
    }

    /** An empty storage: no owned elements and length 0. */
    constructor Empty()
      ensures Valid() && Owned() && n == 0
      ensures fresh(vect) && vect.Length == 0
    {
      vect := new int[0];
      // the C++ leaves `buffer` uninitialised; with n == 0 no access reaches it
      buffer := vect;
      n := 0;
    }

    /** Owned storage of `m` value-initialised (zero) elements. */
    constructor Sized(m: nat)
      ensures Valid() && Owned() && fresh(vect)
      ensures n == m && Contents() == seq(m, _ => Zero)
    {
      var v := new int[m](_ => Zero);
      vect := v;
      buffer := v;
      n := m;
    }

    /** Owned storage of `m` elements, each equal to `initialValue`. */
    constructor Filled(m: nat, initialValue: int)
      ensures Valid() && Owned() && fresh(vect)
      ensures n == m && Contents() == seq(m, _ => initialValue)
    {
      var v := new int[m](_ => initialValue);
      vect := v;
      buffer := v;
      n := m;
    }

    /**
      The copy constructor as written: the owned vector is resized by this
      object's own length, which has not been set yet, so its size is
      whatever `stale` value the member held; elements are then read from
      `other` up to that size, through `other`'s buffer.
     */
    constructor CopyAsWritten(other: BuffData, stale: nat)
      requires stale <= other.buffer.Length
      ensures Valid() && Owned() && fresh(vect)
      ensures n == stale && Contents() == Copied(other.buffer[..], stale)
    {
      var v := CopyOf(other, stale);
      vect := v;
      buffer := v;
      n := stale;
    }

    /** The copy constructor as evidently intended: sized by `other`'s length. */
    constructor Copy(other: BuffData)
      requires other.Valid()
      ensures Valid() && Owned() && fresh(vect)
      ensures n == other.n && Contents() == other.Contents()
    {
      var v := CopyOf(other, other.n);
      vect := v;
      buffer := v;
      n := other.n;
    }

    /**
      Resizes the owned vector to `m` elements, keeping its existing prefix,
      and makes it the storage. A borrowed buffer is abandoned: what it held
      is not copied, because the resize acts on `vect`.
     */
    method Resize(m: nat)
      modifies this
      ensures Valid() && Owned() && fresh(vect)
      ensures n == m && vect[..] == Resized(old(vect[..]), m)
    {
      var s := Resized(vect[..], m);
      var v := new int[m](i requires 0 <= i < m => s[i]);
      vect := v;
      buffer := v;
      n := m;
    }

    /** Element `i`, read through the storage pointer. */
    function At(i: nat): (x: int)
      reads this, buffer
      requires Valid() && i < n
      ensures x == Contents()[i]
    {
      buffer[i]
    }

    /** Writes element `i` through the storage pointer; nothing else changes. */
    method Put(i: nat, x: int)
      requires Valid() && i < n
      modifies buffer
      ensures buffer[i] == x
      ensures forall j :: 0 <= j < buffer.Length && j != i ==> buffer[j] == old(buffer[j])
    {
      buffer[i] := x;
    }
  }

  /**
    The copy constructor as written, applied to a three-element storage
    while its own length member happens to hold 0: the copy is empty.
   */
  method StaleCopyIsEmpty() returns (copyLength: nat, sourceLength: nat)
    ensures copyLength == 0 && sourceLength == 3
  {
    var src := new BuffData.Filled(3, 1);
    var copy := new BuffData.CopyAsWritten(src, 0);
    copyLength, sourceLength := copy.n, src.n;
  }
}
