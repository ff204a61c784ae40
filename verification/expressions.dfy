/**
  The lazy expression nodes. A node stores no elements: it holds references
  to its operand storages (and, for the scalar variants, the scalar it was
  built with) and computes element `i` on demand from element `i` of its
  operands. A tree of nodes is an `Expr`; its leaves are the storages of
  the vectors that appear in the expression.
 */
module Expressions {
  import opened Storage

  /** The four arithmetic operators of the binary and scalar nodes. */
  datatype Op = Add | Sub | Mul | Div

  datatype Expr =
    | Leaf(cont: BuffData)               // an ExprVector over a BuffData, referenced by `data()`
    | Neg(op1: Expr)                     // ExprVectorNeg
    | Bin(op: Op, op1: Expr, op2: Expr)  // ExprVectorAdd / Subtr / Mult / Div
    | Pre(op: Op, val1: int, op2: Expr)  // ExprVectPreSum / Subtr / Mult / Div: scalar on the left
    | Post(op: Op, op1: Expr, val2: int) // ExprVectPostSum / Subtr / Mult / Div: scalar on the right

  function Abs(x: int): nat
  {
    if x < 0 then -x else x
  }

  /**
    Integer division as C++ defines it: the quotient is truncated toward
    zero, so the remainder is smaller than the divisor in magnitude and
    has the sign of the dividend.
   */
  function CDiv(x: int, y: int): (q: int)
    requires y != 0
    ensures Abs(x - q * y) < Abs(y)
    ensures x - q * y == 0 || (x - q * y < 0 <==> x < 0)
  {
    var a, b := Abs(x), Abs(y);
    var q := a / b;
    assert a == q * b + a % b;
    if (x < 0) == (y < 0) then
      assert x - q * y == (if x < 0 then -(a % b) else a % b);
      q
    else
      assert x - (-q) * y == (if x < 0 then -(a % b) else a % b);
      -q
  }

  /** One element-wise application of an operator. */
  function Apply(op: Op, x: int, y: int): int
    requires op == Div ==> y != 0
  {
    match op
    case Add => x + y
    case Sub => x - y
    case Mul => x * y
    case Div => CDiv(x, y)
  }

  /** The storages an expression reads. */
  function Leaves(e: Expr): set<BuffData>
  {
    match e
    case Leaf(c) => {c}
    case Neg(a) => Leaves(a)
    case Bin(_, a, b) => Leaves(a) + Leaves(b)
    case Pre(_, _, b) => Leaves(b)
    case Post(_, a, _) => Leaves(a)
  }

  /** The storages an expression reads, together with the buffers they point at. */
  ghost function Footprint(e: Expr): set<object>
    reads Leaves(e)
  {
    Leaves(e) + set c | c in Leaves(e) :: c.buffer
  }

  /**
    `size()` of a node: that of its first vector operand. Nothing compares
    the sizes of the two operands of a binary node.
   */
  function Size(e: Expr): nat
    reads Leaves(e)
  {
    match e
    case Leaf(c) => c.n
    case Neg(a) => Size(a)
    case Bin(_, a, _) => Size(a)
    case Pre(_, _, b) => Size(b)
    case Post(_, a, _) => Size(a)
  }

  /**
    What one storage contributes to element `i` of an expression: its
    length, the length of the buffer it points at, and the element at `i`
    (0 where the buffer has none).
   */
  datatype Cell = Cell(n: nat, len: nat, val: int)

  function CellAt(c: BuffData, i: nat): Cell
    reads c, c.buffer
  {
    Cell(c.n, c.buffer.Length, if i < c.buffer.Length then c.buffer[i] else 0)
  }

  /** Column `i`: what every storage of `e` contributes to element `i`. */
  function Column(e: Expr, i: nat): (col: map<BuffData, Cell>)
    reads Footprint(e)
    ensures col.Keys == Leaves(e)
  {
    map c | c in Leaves(e) :: CellAt(c, i)
  }

  /**
    Column `i` of `e` once storage `c` holds exactly the elements `s`, in a
    buffer of that length; every other storage contributes what it holds now.
   */
  function ColumnWith(e: Expr, i: nat, c: BuffData, s: seq<int>): (col: map<BuffData, Cell>)
    reads Footprint(e)
    ensures col.Keys == Leaves(e)
  {
    map d | d in Leaves(e) :: if d == c then Cell(|s|, |s|, if i < |s| then s[i] else 0) else CellAt(d, i)
  }

  /** `col` agrees with the heap on what the storages of `e` contribute at `i`. */
  ghost predicate Tracks(e: Expr, i: nat, col: map<BuffData, Cell>)
    reads Footprint(e)
  {
    forall c :: c in Leaves(e) ==> c in col && col[c] == CellAt(c, i)
  }

  /**
    Element `i` of `e` can be read from column `col`: every storage is
    read at `i` inside its length (which is inside its buffer), and no
    divisor is zero.
   */
  predicate DefinedAt(e: Expr, i: nat, col: map<BuffData, Cell>)
    requires Leaves(e) <= col.Keys
    decreases e, 0
  {
    match e
    case Leaf(c) => i < col[c].n <= col[c].len
    case Neg(a) => DefinedAt(a, i, col)
    case Bin(op, a, b) =>
      DefinedAt(a, i, col) && DefinedAt(b, i, col) && (op == Div ==> EvalAt(b, i, col) != 0)
    case Pre(op, _, b) => DefinedAt(b, i, col) && (op == Div ==> EvalAt(b, i, col) != 0)
    case Post(op, a, k) => DefinedAt(a, i, col) && (op == Div ==> k != 0)
  }

  /** Element `i` of `e`, computed from column `col` alone. */
  function EvalAt(e: Expr, i: nat, col: map<BuffData, Cell>): int
    requires Leaves(e) <= col.Keys && DefinedAt(e, i, col)
    decreases e, 1
  {
    match e
    case Leaf(c) => col[c].val
    case Neg(a) => -EvalAt(a, i, col)
    case Bin(op, a, b) => Apply(op, EvalAt(a, i, col), EvalAt(b, i, col))
    case Pre(op, k, b) => Apply(op, k, EvalAt(b, i, col))
    case Post(op, a, k) => Apply(op, EvalAt(a, i, col), k)
  }

  /**
    Reading element `i` of `e` is defined. Outside this the C++ behaviour
    is undefined: an out-of-range read or an integer division by zero.
   */
  predicate Defined(e: Expr, i: nat)
    reads Footprint(e)
  {
    DefinedAt(e, i, Column(e, i))
  }

  /**
    `operator[](i)` of a node: element `i` of each operand, combined. It
    depends on the heap only through column `i`.
   */
  function Eval(e: Expr, i: nat): int
    reads Footprint(e)
    requires Defined(e, i)
  {
    EvalAt(e, i, Column(e, i))
  }

  /*
    Properties of the node algebra.
   */

  /** The storages of an allocated expression are allocated. */
  lemma {:induction false} LeavesAllocated(e: Expr)
    ensures forall c :: c in Leaves(e) ==> allocated(c)
  {
    match e
    case Leaf(_) =>
    case Neg(a) => LeavesAllocated(a);
    case Bin(_, a, b) => LeavesAllocated(a); LeavesAllocated(b);
    case Pre(_, _, b) => LeavesAllocated(b);
    case Post(_, a, _) => LeavesAllocated(a);
  }

  /** Any column that tracks the heap gives the same answers as the heap. */
  lemma {:induction false} TracksAgree(e: Expr, i: nat, col: map<BuffData, Cell>)
    requires Tracks(e, i, col)
    ensures Leaves(e) <= col.Keys
    ensures DefinedAt(e, i, col) == Defined(e, i)
    ensures Defined(e, i) ==> EvalAt(e, i, col) == Eval(e, i)
  {
    SameColumn(e, i, col, Column(e, i));
  }

  /** Two columns that agree on the storages of `e` give the same answers. */
  lemma {:induction false} SameColumn(e: Expr, i: nat, col1: map<BuffData, Cell>, col2: map<BuffData, Cell>)
    requires Leaves(e) <= col1.Keys && Leaves(e) <= col2.Keys
    requires forall c :: c in Leaves(e) ==> col1[c] == col2[c]
    ensures DefinedAt(e, i, col1) == DefinedAt(e, i, col2)
    ensures DefinedAt(e, i, col1) ==> EvalAt(e, i, col1) == EvalAt(e, i, col2)
  {
    match e
    case Leaf(_) =>
    case Neg(a) => SameColumn(a, i, col1, col2);
    case Bin(_, a, b) => SameColumn(a, i, col1, col2); SameColumn(b, i, col1, col2);
    case Pre(_, _, b) => SameColumn(b, i, col1, col2);
    case Post(_, a, _) => SameColumn(a, i, col1, col2);
  }

  /** The column of `e` at `i` serves each of its operands too. */
  lemma SubColumn(e: Expr, sub: Expr, i: nat)
    requires Leaves(sub) <= Leaves(e)
    ensures Tracks(sub, i, Column(e, i))
  {
  }

  lemma {:induction false} DefinedAtBelowSize(e: Expr, i: nat, col: map<BuffData, Cell>)
    requires Tracks(e, i, col) && Leaves(e) <= col.Keys && DefinedAt(e, i, col)
    ensures i < Size(e)
  {
    match e
    case Leaf(_) =>
    case Neg(a) => DefinedAtBelowSize(a, i, col);
    case Bin(_, a, _) => DefinedAtBelowSize(a, i, col);
    case Pre(_, _, b) => DefinedAtBelowSize(b, i, col);
    case Post(_, a, _) => DefinedAtBelowSize(a, i, col);
  }

  /** An element that can be read lies below the node's size. */
  lemma DefinedBelowSize(e: Expr, i: nat)
    requires Defined(e, i)
    ensures i < Size(e)
  {
    DefinedAtBelowSize(e, i, Column(e, i));
  }

  lemma {:induction false} DefinedAtReadsEveryLeaf(e: Expr, i: nat, col: map<BuffData, Cell>, c: BuffData)
    requires Tracks(e, i, col) && Leaves(e) <= col.Keys && DefinedAt(e, i, col) && c in Leaves(e)
    ensures c.Valid() && i < c.n
  {
    match e
    case Leaf(_) =>
    case Neg(a) => DefinedAtReadsEveryLeaf(a, i, col, c);
    case Bin(_, a, b) =>
      if c in Leaves(a) { DefinedAtReadsEveryLeaf(a, i, col, c); } else { DefinedAtReadsEveryLeaf(b, i, col, c); }
    case Pre(_, _, b) => DefinedAtReadsEveryLeaf(b, i, col, c);
    case Post(_, a, _) => DefinedAtReadsEveryLeaf(a, i, col, c);
  }

  /** Reading element `i` of a node reads element `i` of every storage in it. */
  lemma DefinedReadsEveryLeaf(e: Expr, i: nat, c: BuffData)
    requires Defined(e, i) && c in Leaves(e)
    ensures c.Valid() && i < c.n
  {
    DefinedAtReadsEveryLeaf(e, i, Column(e, i), c);
  }

  /**
    A binary node takes its size from its first operand alone: when the
    second operand is shorter, the node still reports the first operand's
    size, and its element at the second operand's size cannot be read.
   */
  lemma ShortSecondOperand(op: Op, a: Expr, b: Expr)
    requires Size(b) < Size(a)
    ensures Size(Bin(op, a, b)) == Size(a)
    ensures Size(b) < Size(Bin(op, a, b)) && !Defined(Bin(op, a, b), Size(b))
  {
    var e, i := Bin(op, a, b), Size(b);
    if Defined(e, i) {
      SubColumn(e, b, i);
      TracksAgree(b, i, Column(e, i));
      DefinedBelowSize(b, i);
    }
  }

  /** The negation node: `size()` is the operand's, element `i` is `-op1[i]`. */
  lemma NegNode(a: Expr, i: nat)
    ensures Size(Neg(a)) == Size(a)
    ensures Defined(Neg(a), i) <==> Defined(a, i)
    ensures Defined(a, i) ==> Eval(Neg(a), i) == -Eval(a, i)
  {
    SubColumn(Neg(a), a, i);
    TracksAgree(a, i, Column(Neg(a), i));
  }

  /**
    A binary node: `size()` is the first operand's whatever the second's
    is, and element `i` is `op1[i] OP op2[i]`.
   */
  lemma BinNode(op: Op, a: Expr, b: Expr, i: nat)
    ensures Size(Bin(op, a, b)) == Size(a)
    ensures Defined(Bin(op, a, b), i) <==>
      Defined(a, i) && Defined(b, i) && (op == Div ==> Eval(b, i) != 0)
    ensures Defined(Bin(op, a, b), i) ==> Eval(Bin(op, a, b), i) == Apply(op, Eval(a, i), Eval(b, i))
  {
    var e := Bin(op, a, b);
    SubColumn(e, a, i);
    SubColumn(e, b, i);
    TracksAgree(a, i, Column(e, i));
    TracksAgree(b, i, Column(e, i));
  }

  /** A scalar-left node: `size()` is the vector operand's, element `i` is `val1 OP op2[i]`. */
  lemma PreNode(op: Op, k: int, b: Expr, i: nat)
    ensures Size(Pre(op, k, b)) == Size(b)
    ensures Defined(Pre(op, k, b), i) <==> Defined(b, i) && (op == Div ==> Eval(b, i) != 0)
    ensures Defined(Pre(op, k, b), i) ==> Eval(Pre(op, k, b), i) == Apply(op, k, Eval(b, i))
  {
    SubColumn(Pre(op, k, b), b, i);
    TracksAgree(b, i, Column(Pre(op, k, b), i));
  }

  /** A scalar-right node: `size()` is the vector operand's, element `i` is `op1[i] OP val2`. */
  lemma PostNode(op: Op, a: Expr, k: int, i: nat)
    ensures Size(Post(op, a, k)) == Size(a)
    ensures Defined(Post(op, a, k), i) <==> Defined(a, i) && (op == Div ==> k != 0)
    ensures Defined(Post(op, a, k), i) ==> Eval(Post(op, a, k), i) == Apply(op, Eval(a, i), k)
  {
    SubColumn(Post(op, a, k), a, i);
    TracksAgree(a, i, Column(Post(op, a, k), i));
  }

  /** A vector used as an operand: its size and its elements, read in place. */
  lemma LeafNode(c: BuffData, i: nat)
    ensures Size(Leaf(c)) == c.n
    ensures Defined(Leaf(c), i) <==> c.Valid() && i < c.n
    ensures Defined(Leaf(c), i) ==> Eval(Leaf(c), i) == c.buffer[i]
  {
  }

  /** Every element of `e` below its size is nonzero (or cannot be read). */
  ghost predicate NonzeroOn(e: Expr)
    reads Footprint(e)
  {
    forall j :: 0 <= j < Size(e) && Defined(e, j) ==> Eval(e, j) != 0
  }

  /**
    The shape discipline a caller keeps: every storage is valid, the two
    operands of a binary node have equal sizes, and every divisor is nonzero.
   */
  ghost predicate Conformable(e: Expr)
    reads Footprint(e)
  {
    match e
    case Leaf(c) => c.Valid()
    case Neg(a) => Conformable(a)
    case Bin(op, a, b) =>
      Conformable(a) && Conformable(b) && Size(a) == Size(b) && (op == Div ==> NonzeroOn(b))
    case Pre(op, _, b) => Conformable(b) && (op == Div ==> NonzeroOn(b))
    case Post(op, a, k) => Conformable(a) && (op == Div ==> k != 0)
  }

  /** Under the shape discipline, exactly the elements below the size can be read. */
  lemma {:induction false} ConformableDefined(e: Expr, i: nat)
    requires Conformable(e)
    ensures Defined(e, i) <==> i < Size(e)
  {
    match e
    case Leaf(c) => LeafNode(c, i);
    case Neg(a) => ConformableDefined(a, i); NegNode(a, i);
    case Bin(op, a, b) => ConformableDefined(a, i); ConformableDefined(b, i); BinNode(op, a, b, i);
    case Pre(op, k, b) => ConformableDefined(b, i); PreNode(op, k, b, i);
    case Post(op, a, k) => ConformableDefined(a, i); PostNode(op, a, k, i);
  }

  /** Every element below the size can be read. */
  ghost predicate AllDefined(e: Expr)
    reads Footprint(e)
  {
    forall i :: 0 <= i < Size(e) ==> Defined(e, i)
  }

  /** The elements of `e`, as a vector assigned from it would hold them. */
  ghost function Elements(e: Expr): (s: seq<int>)
    reads Footprint(e)
    requires AllDefined(e)
    ensures |s| == Size(e) && forall i :: 0 <= i < Size(e) ==> s[i] == Eval(e, i)
  {
    seq(Size(e), i requires 0 <= i < Size(e) && Defined(e, i) reads Footprint(e) => Eval(e, i))
  }

  /**
    The elements of a binary node over equally long operands are the
    element-wise combination of the operands' elements.
   */
  lemma BinElements(op: Op, a: Expr, b: Expr)
    requires AllDefined(Bin(op, a, b)) && Size(a) == Size(b)
    ensures AllDefined(a) && AllDefined(b) && (op == Div ==> NoZero(Elements(b)))
    ensures Elements(Bin(op, a, b)) == ZipApply(op, Elements(a), Elements(b))
  {
    forall i | 0 <= i < Size(a)
      ensures Defined(a, i) && Defined(b, i) && (op == Div ==> Eval(b, i) != 0)
      ensures Eval(Bin(op, a, b), i) == Apply(op, Eval(a, i), Eval(b, i))
    {
      BinNode(op, a, b, i);
    }
  }

  /** The elements of a negation node are its operand's, negated. */
  lemma NegElements(a: Expr)
    requires AllDefined(Neg(a))
    ensures AllDefined(a) && Elements(Neg(a)) == NegateAll(Elements(a))
  {
    forall i | 0 <= i < Size(a)
      ensures Defined(a, i) && Eval(Neg(a), i) == -Eval(a, i)
    {
      NegNode(a, i);
    }
  }

  /** The elements of a scalar-left product are the operand's, each multiplied by the scalar. */
  lemma ScaledElements(k: int, b: Expr)
    requires AllDefined(Pre(Mul, k, b))
    ensures AllDefined(b) && Elements(Pre(Mul, k, b)) == PreApply(Mul, k, Elements(b))
  {
    forall i | 0 <= i < Size(b)
      ensures Defined(b, i) && Eval(Pre(Mul, k, b), i) == k * Eval(b, i)
    {
      PreNode(Mul, k, b, i);
    }
  }

  /*
    The eager reference semantics: every operator materialises a whole
    temporary vector, computed by its own index loop over the first vector
    operand, as plain `std::vector` arithmetic does.
   */

  datatype Option<T> = None | Some(value: T)

  /** Element-wise negation of a materialised vector. */
  function NegateAll(s: seq<int>): (r: seq<int>)
    ensures |r| == |s| && forall j :: 0 <= j < |s| ==> r[j] == -s[j]
  {
    seq(|s|, j requires 0 <= j < |s| => -s[j])
  }

  /** No element of `t` is zero. */
  predicate NoZero(t: seq<int>)
  {
    forall j :: 0 <= j < |t| ==> t[j] != 0
  }

  /** Element-wise `s[j] op t[j]`. */
  function ZipApply(op: Op, s: seq<int>, t: seq<int>): (r: seq<int>)
    requires |s| == |t| && (op == Div ==> NoZero(t))
    ensures |r| == |s|
  {
    seq(|s|, j requires 0 <= j < |s| => Apply(op, s[j], t[j]))
  }

  /** Element-wise `k op t[j]`. */
  function PreApply(op: Op, k: int, t: seq<int>): (r: seq<int>)
    requires op == Div ==> NoZero(t)
    ensures |r| == |t|
  {
    seq(|t|, j requires 0 <= j < |t| => Apply(op, k, t[j]))
  }

  /** Element-wise `s[j] op k`. */
  function PostApply(op: Op, s: seq<int>, k: int): (r: seq<int>)
    requires op == Div && s != [] ==> k != 0
    ensures |r| == |s|
  {
    seq(|s|, j requires 0 <= j < |s| => Apply(op, s[j], k))
  }

  /**
    Evaluates `e` bottom-up, materialising each node as a temporary;
    `None` when some operand is too short or some divisor is zero.
   */
  function Eager(e: Expr): (r: Option<seq<int>>)
    reads Footprint(e)
    ensures r.Some? ==> |r.value| == Size(e)
  {
    match e
    case Leaf(c) => if c.n <= c.buffer.Length then Some(c.buffer[..c.n]) else None
    case Neg(a) =>
      (match Eager(a)
       case None => None
       case Some(s) => Some(NegateAll(s)))
    case Bin(op, a, b) =>
      (match (Eager(a), Eager(b))
       case (Some(s), Some(t)) =>
         // the loop runs over the first operand and reads the second at the same indices
         if |s| <= |t| && (op == Div ==> NoZero(t[..|s|])) then Some(ZipApply(op, s, t[..|s|])) else None
       case _ => None)
    case Pre(op, k, b) =>
      (match Eager(b)
       case None => None
       case Some(t) => if op == Div ==> NoZero(t) then Some(PreApply(op, k, t)) else None)
    case Post(op, a, k) =>
      (match Eager(a)
       case None => None
       case Some(s) => if op == Div && s != [] && k == 0 then None else Some(PostApply(op, s, k)))
  }

  /**
    Fusion is sound: wherever the eager evaluation succeeds, the fused
    node evaluation reads every element below the size without undefined
    behaviour and yields the same value, without any temporary vector.
   */
  lemma {:induction false} FusedMatchesEager(e: Expr, i: nat)
    requires Eager(e).Some? && i < Size(e)
    ensures Defined(e, i) && Eval(e, i) == Eager(e).value[i]
  {
    match e
    case Leaf(c) => LeafNode(c, i);
    case Neg(a) => FusedMatchesEager(a, i); NegNode(a, i);
    case Bin(op, a, b) =>
      FusedMatchesEager(a, i);
      FusedMatchesEager(b, i);
      assert Eager(b).value[..Size(a)][i] == Eager(b).value[i];
      BinNode(op, a, b, i);
    case Pre(op, k, b) => FusedMatchesEager(b, i); PreNode(op, k, b, i);
    case Post(op, a, k) => FusedMatchesEager(a, i); PostNode(op, a, k, i);
  }
}
