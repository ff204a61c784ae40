/**
  The user-visible vector: an ExprVector over a BuffData storage. It is
  assigned from any expression in one fused index loop, reduces with
  `sum()`, and turns into an expression (`data()`, unary minus) without
  copying its elements.
 */
module Vectors {
  import opened Storage
  import opened Expressions

  /** A value, or the `std::logic_error` the source throws instead. */
  datatype Result<T> = Ok(value: T) | LogicError(what: string)

  const EmptySumMessage: string := "ExprVector::sum() called with zero length buffer"

  /** The left fold `((s[0] + s[1]) + ...) + s[|s|-1]`. */
  function LeftSum(s: seq<int>): int
    requires |s| > 0
  {
    if |s| == 1 then s[0] else LeftSum(s[..|s| - 1]) + s[|s| - 1]
  }

  class ExprVector {
    /** The underlying container, embedded by value in the C++ object. */
    const cont: BuffData

    ghost predicate Valid()
      reads this, cont
    {
      cont.Valid()
    }

    /** The elements `0 .. size()-1`. */
    ghost function Contents(): seq<int>
      reads this, cont, cont.buffer
      requires Valid()
    {
      cont.Contents()
    }

    /** An empty vector; it must be given a buffer or be assigned into before use. */
    constructor ()
      ensures Valid() && fresh(cont) && fresh(cont.vect) && cont.Owned()
      ensures Contents() == [] && cont.vect.Length == 0
    {
      cont := new BuffData.Empty();
    }

    /** A vector owning `n` zero elements. */
    constructor Sized(n: nat)
      ensures Valid() && fresh(cont) && fresh(cont.vect) && cont.Owned()
      ensures Contents() == seq(n, _ => Zero)
    {
      cont := new BuffData.Sized(n);
    }

    /** A vector owning `n` elements, each equal to `initialValue`. */
    constructor Filled(n: nat, initialValue: int)
      ensures Valid() && fresh(cont) && fresh(cont.vect) && cont.Owned()
      ensures Contents() == seq(n, _ => initialValue)
    {
      cont := new BuffData.Filled(n, initialValue);
    }

    /** A vector over a copy of the container `other`, made by the corrected copy constructor. */
    constructor FromContainer(other: BuffData)
      requires other.Valid()
      ensures Valid() && fresh(cont) && fresh(cont.vect) && cont.Owned()
      ensures Contents() == other.Contents()
    {
      cont := new BuffData.Copy(other);
    }

    /**
      Borrows `buffer` as the storage, with length `n`: nothing is
      allocated or copied, and later writes go through to `buffer`.
     */
    method SetBuffer(buffer: array<int>, n: nat)
      requires n <= buffer.Length
      modifies cont
      ensures Valid() && cont.buffer == buffer && cont.n == n
      ensures cont.vect == old(cont.vect)
      ensures Contents() == buffer[..n]
    {
      cont.buffer := buffer;
      cont.n := n;
    }

    /** `size()`: the container's length. */
    function Size(): (n: nat)
      reads this, cont
      ensures n == Expressions.Size(AsExpr())
    {
      cont.n
    }

    /** `data()`: the vector as an operand of an expression, referring to its own container. */
    function AsExpr(): (e: Expr)
      reads this
      ensures Leaves(e) == {cont}
    {
      Leaf(cont)
    }

    /** `v[i]` as a value. */
    function At(i: nat): (x: int)
      reads this, cont, cont.buffer
      requires Valid() && i < cont.n
      ensures Defined(AsExpr(), i) && x == Eval(AsExpr(), i)
    {
      LeafNode(cont, i);
      cont.buffer[i]
    }

    /** `v[i] = x`: writes one element through the storage; no other slot of the buffer changes. */
    method Put(i: nat, x: int)
      requires Valid() && i < cont.n
      modifies cont.buffer
      ensures Contents() == old(Contents())[i := x]
      ensures forall j :: 0 <= j < cont.buffer.Length && j != i ==> cont.buffer[j] == old(cont.buffer[j])
    {
      cont.Put(i, x);
    }

    /**
      Unary minus: a negation node over the vector's own container. No
      element is copied; the node reads the container when it is indexed.
     */
    function Negate(): (e: Expr)
      reads this, cont, cont.buffer
      requires Valid()
      ensures Leaves(e) == {cont} && Expressions.Size(e) == cont.n
      ensures forall i :: 0 <= i < cont.n ==> Defined(e, i) && Eval(e, i) == -cont.buffer[i]
    {
      var e := Neg(Leaf(cont));
      assert Leaves(e) == {cont};
      assert forall i :: 0 <= i < cont.n ==> Defined(e, i) && Eval(e, i) == -cont.buffer[i] by {
        forall i | 0 <= i < cont.n
          ensures Defined(e, i) && Eval(e, i) == -cont.buffer[i]
        {
          NegNode(Leaf(cont), i);
          LeafNode(cont, i);
        }
      }
      e
    }

    /**
      Column `i` of `e` as the assignment loop sees it when the destination
      is empty: the destination resized to `e`'s size, every other storage
      as it is now.
     */
    ghost function ResizedColumn(e: Expr, i: nat): (col: map<BuffData, Cell>)
      reads this, cont, cont.vect, Footprint(e)
      ensures col.Keys == Leaves(e)
    {
      ColumnWith(e, i, cont, Resized(cont.vect[..], Expressions.Size(e)))
    }

    /**
      The fused assignment `*this = e` from an expression node (assignment
      from another plain vector is `CopyAssign`). An empty destination is
      first resized to `e`'s size (and so becomes owned), and `e` is then
      read with the destination holding the resized vector; a non-empty one
      keeps its size and storage, so `e` must be at least that long. Then
      one index loop copies `e` in. Each element is the value `e` had when
      the loop started, even when the destination is itself an operand of `e`.
     */
    method Assign(e: Expr)
      requires Valid() && !e.Leaf?
      requires cont.n != 0 ==> cont.n <= Expressions.Size(e)
      requires cont.n != 0 ==> forall i :: 0 <= i < cont.n ==> Defined(e, i)
      requires cont.n == 0 ==> forall i :: 0 <= i < Expressions.Size(e) ==> DefinedAt(e, i, ResizedColumn(e, i))
      modifies cont, cont.buffer
      ensures Valid()
      ensures old(cont.n) == 0 ==> cont.n == old(Expressions.Size(e)) && cont.Owned() && fresh(cont.buffer)
      ensures old(cont.n) == 0 ==>
        forall i :: 0 <= i < cont.n ==> cont.buffer[i] == old(EvalAt(e, i, ResizedColumn(e, i)))
      ensures old(cont.n) == 0 ==> old(cont.buffer)[..] == old(cont.buffer[..])
      ensures old(cont.n) != 0 ==>
        cont.n == old(cont.n) && cont.buffer == old(cont.buffer) && cont.vect == old(cont.vect)
      ensures old(cont.n) != 0 ==> forall i :: 0 <= i < cont.n ==> cont.buffer[i] == old(Eval(e, i))
      ensures old(cont.n) != 0 ==>
        forall j :: cont.n <= j < cont.buffer.Length ==> cont.buffer[j] == old(cont.buffer[j])
    {
      LeavesAllocated(e);
      if cont.n == 0 {
        ghost var s := Resized(cont.vect[..], Expressions.Size(e));
        cont.Resize(Expressions.Size(e));
        forall j | 0 <= j < cont.n
          ensures Defined(e, j) && Eval(e, j) == old(EvalAt(e, j, ResizedColumn(e, j)))
        {
          assert cont.buffer[j] == s[j];
          assert forall c :: c in Leaves(e) ==> CellAt(c, j) == old(ResizedColumn(e, j))[c];
          assert Column(e, j) == old(ResizedColumn(e, j));
        }
      }
      CopyFrom(e);
    }

    /**
      `*this = other` between two plain vectors. The templated `operator=`
      is never a copy assignment, so C++ generates a member-wise one: the
      owned vector's elements, the `buffer` pointer and the length are
      copied. The destination then reads and writes through `other`'s
      storage, and a buffer it had borrowed is not written. Assigning a
      vector to itself changes nothing.
     */
    method CopyAssign(other: ExprVector)
      modifies cont
      ensures cont.n == old(other.cont.n) && cont.buffer == old(other.cont.buffer)
      ensures cont.vect[..] == old(other.cont.vect[..])
      ensures other.cont != cont ==> fresh(cont.vect)
    {
      if other.cont != cont {
        var s := other.cont.vect[..];
        var v := new int[|s|](i requires 0 <= i < |s| => s[i]);
        cont.vect := v;
        cont.buffer := other.cont.buffer;
        cont.n := other.cont.n;
      }
    }

    /**
      The loop of the fused assignment: `cont[i] = e[i]` for ascending `i`
      below the destination's own size. Each step writes slot `i` only, and
      element `j > i` of `e` depends only on slot `j` of its operands, so
      every element is the value `e` had when the loop started.
     */
    method CopyFrom(e: Expr)
      requires Valid()
      requires forall i :: 0 <= i < cont.n ==> Defined(e, i)
      modifies cont.buffer
      ensures forall i :: 0 <= i < cont.n ==> cont.buffer[i] == old(Eval(e, i))
      ensures forall j :: cont.n <= j < cont.buffer.Length ==> cont.buffer[j] == old(cont.buffer[j])
    {
      LeavesAllocated(e);
      var buf := cont.buffer;
      var i := 0;
      while i < cont.n
        invariant 0 <= i <= cont.n
        invariant forall j :: 0 <= j < i ==> buf[j] == old(Eval(e, j))
        invariant forall j :: i <= j < buf.Length ==> buf[j] == old(buf[j])
      {
        assert forall c :: c in Leaves(e) ==> CellAt(c, i) == old(CellAt(c, i));
        assert old(Defined(e, i)) && Column(e, i) == old(Column(e, i));
        assert Defined(e, i) && Eval(e, i) == old(Eval(e, i));
        buf[i] := Eval(e, i);
        i := i + 1;
      }
    }

    /**
      `sum()`: the left fold of `+` from element 0; a zero-length vector
      throws `logic_error`. Nothing is modified.
     */
    method Sum() returns (r: Result<int>)
      requires Valid()
      ensures cont.n == 0 ==> r == LogicError(EmptySumMessage)
      ensures cont.n != 0 ==> r == Ok(LeftSum(Contents()))
    {
      forall i | 0 <= i < cont.n
        ensures Defined(AsExpr(), i) && Eval(AsExpr(), i) == Contents()[i]
      {
        LeafNode(cont, i);
      }
      r := SumOf(AsExpr());
      assert Elements(AsExpr()) == Contents();
    }
  }

  /**
    After `b = a` between two plain vectors, a write through `b` is seen
    through `a`: both vectors read and write the same storage.
   */
  method CopyAssignShares() returns (seen: int)
    ensures seen == 1
  {
    var a := new ExprVector.Filled(3, 0);
    var b := new ExprVector.Sized(3);
    b.CopyAssign(a);
    b.Put(0, 1);
    seen := a.At(0);
  }

  /**
    `sum()` of any vector, including one whose container is an expression
    node: reads `e[0]`, then adds `e[1]`, `e[2]`, ... in ascending order.
   */
  method SumOf(e: Expr) returns (r: Result<int>)
    requires AllDefined(e)
    ensures Size(e) == 0 ==> r == LogicError(EmptySumMessage)
    ensures Size(e) != 0 ==> AllDefined(e) && r == Ok(LeftSum(Elements(e)))
  {
    if Size(e) == 0 {
      return LogicError(EmptySumMessage);
    }
    ghost var s := Elements(e);
    var val := Eval(e, 0);
    var i := 1;
    while i < Size(e)
      invariant 1 <= i <= Size(e)
      invariant val == LeftSum(s[..i])
    {
      assert s[..i + 1][..i] == s[..i];
      val := val + Eval(e, i);
      i := i + 1;
    }
    assert s[..i] == s;
    return Ok(val);
  }

  /** The accumulation from zero of a plain `std::vector` sum loop. */
  function Total(s: seq<int>): int
  {
    if |s| == 0 then 0 else Total(s[..|s| - 1]) + s[|s| - 1]
  }

  /** Starting the fold at element 0 instead of at zero gives the same sum. */
  lemma {:induction false} LeftSumIsTotal(s: seq<int>)
    requires |s| > 0
    ensures LeftSum(s) == Total(s)
  {
    if |s| > 1 {
      LeftSumIsTotal(s[..|s| - 1]);
    } else {
      assert s[..0] == [];
    }
  }

  /** The sum of an element-wise sum or difference is the sum or difference of the sums. */
  lemma {:induction false} LeftSumZip(op: Op, s: seq<int>, t: seq<int>)
    requires |s| == |t| > 0 && (op == Add || op == Sub)
    ensures LeftSum(ZipApply(op, s, t)) == Apply(op, LeftSum(s), LeftSum(t))
  {
    var z := ZipApply(op, s, t);
    if |s| > 1 {
      var k := |s| - 1;
      assert z[..k] == ZipApply(op, s[..k], t[..k]);
      LeftSumZip(op, s[..k], t[..k]);
    }
  }

  /** The sum of the negated elements is the negated sum. */
  lemma {:induction false} LeftSumNegate(s: seq<int>)
    requires |s| > 0
    ensures LeftSum(NegateAll(s)) == -LeftSum(s)
  {
    if |s| > 1 {
      var k := |s| - 1;
      assert NegateAll(s)[..k] == NegateAll(s[..k]);
      LeftSumNegate(s[..k]);
    }
  }

  /** Scaling every element by `k` scales the sum by `k`. */
  lemma {:induction false} LeftSumScale(k: int, t: seq<int>)
    requires |t| > 0
    ensures LeftSum(PreApply(Mul, k, t)) == k * LeftSum(t)
  {
    if |t| > 1 {
      var m := |t| - 1;
      assert PreApply(Mul, k, t)[..m] == PreApply(Mul, k, t[..m]);
      LeftSumScale(k, t[..m]);
      assert k * LeftSum(t) == k * LeftSum(t[..m]) + k * t[m];
    }
  }

  /**
    Summing a fused sum or difference of two equally long vectors gives the
    sum or difference of their sums.
   */
  lemma SumOfBin(op: Op, a: Expr, b: Expr)
    requires op == Add || op == Sub
    requires AllDefined(Bin(op, a, b)) && Size(a) == Size(b) > 0
    ensures AllDefined(a) && AllDefined(b)
    ensures LeftSum(Elements(Bin(op, a, b))) == Apply(op, LeftSum(Elements(a)), LeftSum(Elements(b)))
  {
    BinElements(op, a, b);
    LeftSumZip(op, Elements(a), Elements(b));
  }

  /** `(-a).sum()` is `-(a.sum())`. */
  lemma SumOfNeg(a: Expr)
    requires AllDefined(Neg(a)) && Size(a) > 0
    ensures AllDefined(a) && LeftSum(Elements(Neg(a))) == -LeftSum(Elements(a))
  {
    NegElements(a);
    LeftSumNegate(Elements(a));
  }

  /** `(k * b).sum()` is `k * b.sum()`. */
  lemma SumOfScaled(k: int, b: Expr)
    requires AllDefined(Pre(Mul, k, b)) && Size(b) > 0
    ensures AllDefined(b) && LeftSum(Elements(Pre(Mul, k, b))) == k * LeftSum(Elements(b))
  {
    ScaledElements(k, b);
    LeftSumScale(k, Elements(b));
  }
}
