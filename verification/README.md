# expr_vector in Dafny

A model of `expr_vector.h`, a header-only C++ library of expression-template
vectors. An `ExprVector` sits on a `BuffData` storage. That storage either
owns a `std::vector` or borrows a raw buffer, and it keeps a logical length
`n`. The arithmetic operators `+ - * /` (vector with vector, scalar on the
left, scalar on the right) and unary `-` build lazy nodes. A node holds
references to its operands and computes element `i` only when it is asked
for it. Assigning an expression node to a vector runs a single fused index
loop, with no temporaries. Assigning one plain vector to another does not
go through that loop: it is the member-wise copy that C++ generates, after
which both vectors share one storage.

The model has three modules:

- `Storage` (`storage.dfy`): the class `BuffData`, with an `array<int>` for
  the owned vector, a `buffer` reference that all element accesses go
  through, and the length `n`. It covers the constructors, `resize`, and
  element reads and writes.
- `Expressions` (`expressions.dfy`): the node tree `Expr`.
  - Its leaves are references to `BuffData` objects, so an expression reads
    the current heap. A destination that is itself an operand, or that
    borrows the same array as an operand, is modelled. A buffer borrowed at
    an offset inside another one is not (see "## Left out").
  - `Size` is `size()` and `Eval(e, i)` is `operator[](i)`.
  - `Defined(e, i)` says when the model lets element `i` be read: every
    storage is read below its `size()` (which lies inside its buffer), and
    every divisor is nonzero. This excludes every read C++ leaves undefined.
    It also excludes reads at or past `size()` inside a longer borrowed
    buffer, which C++ allows.
  - Element `i` depends only on element `i` of each storage (the "column"
    at `i`). This is what makes the in-place fused assignment correct.
  - `Eager` is the reference semantics that materialises a temporary per
    operator, as the plain `std::vector` operators of the benchmark do.
    `FusedMatchesEager` proves that fusion agrees with it.
- `Vectors` (`vector.dfy`): the class `ExprVector` and `sum()`.
  - It covers `setBuffer`, the constructors, `size()`, `operator[]`, unary
    minus and `data()`.
  - The fused `operator=` (`Assign`, with its loop in `CopyFrom`) resizes an
    empty destination to the expression's size and then reads the
    expression with the destination holding the resized vector. A non-empty
    destination keeps its size and storage.
  - `CopyAssign` is the compiler-generated assignment between two plain
    vectors.
  - `sum()` (`SumOf`, for any vector including one over a node) returns the
    left fold, or `logic_error` on an empty vector.
  - Lemmas relate that fold to the sums of the operands.

Elements are `int`. The C++ `/` on integers truncates toward zero and is
modelled by `CDiv`; Dafny's own `/` is not used on elements.

## Model

| member | source | states |
|---|---|---|
| Storage.BuffData.Empty | expr_vector.h:23 | an empty storage: length 0, with an empty owned vector |
| Storage.BuffData.Sized | expr_vector.h:26 | owned storage of `m` zero elements; `buffer` points at the owned vector |
| Storage.BuffData.Filled | expr_vector.h:27 | owned storage of `m` elements, each equal to the initial value |
| Storage.Resized | expr_vector.h:29 | `std::vector::resize`: the length becomes `m`, the common prefix is kept, new slots are zero |
| Storage.BuffData.Resize | expr_vector.h:29 | after `resize(m)` the length is `m`, `buffer` is the (new) owned vector and holds the old owned vector resized; a borrowed buffer is abandoned |
| Storage.BuffData.At | expr_vector.h:31-34 | element `i` is read through `buffer`, and is element `i` of the contents |
| Storage.BuffData.Put | expr_vector.h:36-39 | a write through `operator[]` changes slot `i` of `buffer` and no other slot |
| Storage.Copied | expr_vector.h:24 | an element-by-element copy of `m` elements holds the first `m` elements of the source |
| Storage.CopyOf | expr_vector.h:24 | the copy loop fills a fresh array with the first `m` elements read through the source's `buffer` |
| Storage.BuffData.CopyAsWritten | expr_vector.h:24 | the copy constructor as written: its length is the stale value of the unset member `n`, not the source's length |
| Storage.StaleCopyLosesElements | expr_vector.h:24 | with a stale length of 0, the copy of a three-element storage differs from that storage |
| Storage.StaleCopyIsEmpty | expr_vector.h:24 | the as-written copy constructor, applied to a three-element storage while its own length holds 0, makes an empty copy |
| Storage.BuffData.Copy | expr_vector.h:24 | the corrected copy constructor: a fresh owned storage with the source's length and exactly its elements |
| Expressions.CDiv | expr_vector.h:158 | integer `/` truncates toward zero: the remainder is smaller than the divisor in magnitude and has the dividend's sign |
| Expressions.LeafNode | expr_vector.h:43-46 | a vector used as an operand has size `n`; element `i` can be read iff `i < n` (within the buffer) and is `buffer[i]` |
| Expressions.NegNode | expr_vector.h:58-66 | the negation node has its operand's size; it is defined exactly where the operand is, and element `i` is `-op1[i]` |
| Expressions.BinNode | expr_vector.h:156-173 | a binary node's size is `op1`'s whatever `op2`'s is; element `i` is `op1[i] OP op2[i]`, and is defined iff both reads are and no divisor is zero |
| Expressions.ShortSecondOperand | expr_vector.h:161-164 | when `op2` is shorter, the node still reports `op1`'s size, but its element at `op2.size()` lies outside what the model lets be read |
| Expressions.PreNode | expr_vector.h:176-202 | the scalar-left node has `op2`'s size and element `i` is `val1 OP op2[i]`, with the scalar stored in the node |
| Expressions.PostNode | expr_vector.h:205-231 | the scalar-right node has `op1`'s size and element `i` is `op1[i] OP val2`; division needs a nonzero scalar |
| Expressions.DefinedBelowSize | expr_vector.h:63-66 | any element that can be read lies below the node's reported size |
| Expressions.DefinedReadsEveryLeaf | expr_vector.h:156-159 | reading element `i` of a node reads element `i` of every storage in it, so each storage is longer than `i` |
| Expressions.ConformableDefined | expr_vector.h:156-164 | when binary operands have equal sizes and divisors are nonzero, exactly the elements below `size()` can be read |
| Expressions.BinElements | expr_vector.h:156-159 | over equally long operands, a binary node's elements are the element-wise combination of the operands' elements |
| Expressions.NegElements | expr_vector.h:58-61 | the elements of a negation node are its operand's elements, negated |
| Expressions.ScaledElements | expr_vector.h:186-189 | the elements of `k * b` are `b`'s elements, each multiplied by `k` |
| Expressions.Eager | expr_vector_benchmark.cpp:10-41 | the temporary-per-operator evaluation yields a vector as long as the expression's size, or fails on a short operand or a zero divisor |
| Expressions.FusedMatchesEager | expr_vector_benchmark.cpp:10-41 | wherever the eager evaluation succeeds, every fused element below the size is defined and equals the eager element |
| Vectors.ExprVector.constructor | expr_vector.h:77 | a default-constructed vector is empty |
| Vectors.ExprVector.Sized | expr_vector.h:82 | `ExprVector(n)` owns `n` zero elements |
| Vectors.ExprVector.Filled | expr_vector.h:85 | `ExprVector(n, v)` owns `n` elements equal to `v` |
| Vectors.ExprVector.FromContainer | expr_vector.h:88 | a vector built from a container owns a copy with the same elements (using the corrected copy constructor) |
| Vectors.ExprVector.SetBuffer | expr_vector.h:78 | `setBuffer(p, n)` makes `p` the storage with length `n`; nothing is allocated and the owned vector is untouched |
| Vectors.ExprVector.Size | expr_vector.h:104-107 | `size()` is the container's length, the size of the vector as an operand |
| Vectors.ExprVector.AsExpr | expr_vector.h:133-141 | `data()` refers to the vector's own container, not a copy |
| Vectors.ExprVector.At | expr_vector.h:110-113 | `v[i]` is element `i` of the vector as an operand |
| Vectors.ExprVector.Put | expr_vector.h:115-118 | `v[i] = x` changes slot `i` of the buffer and no other slot, inside or past the length |
| Vectors.ExprVector.Negate | expr_vector.h:101 | `-v` is a node over the vector's own container, with its size; element `i` is `-v[i]` |
| Vectors.ExprVector.Assign | expr_vector.h:91-99 | assignment from an expression node. An empty destination is resized to `e.size()` and becomes owned; each element is then the value `e` has with the destination holding the resized vector (so `c = a + c` reads zeros from `c`), and the borrowed buffer it had is not written. A non-empty destination keeps its size and storage and needs `e` to be that long; each element is the value `e` had before, even when the destination is an operand of `e`, and buffer slots past the length are untouched |
| Vectors.ExprVector.CopyAssign | expr_vector.h:19-21 | `b = a` between plain vectors copies the owned vector's elements, the `buffer` pointer and the length, so `b` ends up with `a`'s size and storage whatever it had before |
| Vectors.CopyAssignShares | expr_vector.h:19-21 | after `b = a`, a write through `b` is seen through `a` |
| Vectors.ExprVector.CopyFrom | expr_vector.h:96-97 | the loop writes slots in ascending order, each step only slot `i`; every slot below the length gets the pre-loop value of `e[i]`, and slots after it are unchanged |
| Vectors.ExprVector.Sum | expr_vector.h:120-130 | `sum()` throws `logic_error` with the source's message on an empty vector, else returns the left fold of its elements; nothing is modified |
| Vectors.SumOf | expr_vector.h:120-130 | `sum()` of any vector, including a node: `logic_error` when the size is 0, else the left fold from element 0 of its elements |
| Vectors.LeftSumIsTotal | expr_vector_benchmark.cpp:59-65 | the fold started at element 0 equals the plain loop's accumulation from zero |
| Vectors.LeftSumZip | expr_vector.h:126-129 | the sum of an element-wise sum (difference) is the sum (difference) of the sums |
| Vectors.LeftSumNegate | expr_vector.h:126-129 | the sum of a negated vector is the negated sum |
| Vectors.LeftSumScale | expr_vector.h:126-129 | the sum of a vector scaled by `k` is `k` times the sum |
| Vectors.SumOfBin | expr_vector.h:120-130 | `(a + b).sum()` is `a.sum() + b.sum()` (and likewise for `-`) when `a` and `b` are equally long |
| Vectors.SumOfNeg | expr_vector.h:120-130 | `(-a).sum()` is `-(a.sum())` |
| Vectors.SumOfScaled | expr_vector.h:120-130 | `(k * b).sum()` is `k * b.sum()` |

## Left out

- The function nodes `sin`, `cos` and `atan2` (expr_vector.h:293-352, 373-376). They are floating-point calls into `<cmath>`.
- The `double`-scalar nodes `ExprVectPreMultDouble` and `ExprVectPostMultDouble` (expr_vector.h:235-291, 370-371). They are overload selection for non-`double` element types. The post variant declares its operator with the `double` on the left, so it adds no behaviour of its own.
- The `const T*` overload of `setBuffer` (expr_vector.h:79). It is the mutable overload behind a `const_cast`.
- Element type: only `int` is modelled, with unbounded integers. Overflow of a fixed-width `T` and all floating-point rounding are not modelled.
- Undefined behaviour is not modelled as such. Reads outside a buffer and division by zero are excluded by preconditions (`Defined`).
- Vectors.ExprVector.Assign: a read at or past an operand's `size()` is refused even when it lies inside a longer borrowed buffer, where C++ defines it. The same convention makes `Expressions.ShortSecondOperand` speak of what the model lets be read, not of undefined behaviour.
- Vectors.ExprVector.Assign: a destination that borrows an array at an offset into an operand's buffer (`setBuffer(p + k, n)`) cannot be expressed, since an array here stands for a whole buffer. With such overlap the ascending loop gives a running update, not the value the expression had before. The guarantee covers destinations that share slots with an operand index for index.
- Vectors.ExprVector.FromContainer: built on the corrected copy constructor `Storage.BuffData.Copy`. The copy the source runs is the one modelled as `Storage.BuffData.CopyAsWritten`.
- Vectors.ExprVector.CopyAssign: the destination's own vector gets a fresh array. A real `std::vector` assignment may reuse its capacity.
- Node lifetimes: the C++ nodes hold references that can dangle once temporaries die. Expressions here are values and never dangle.
- `Storage.BuffData.Resize` allocates a fresh array. A real `std::vector::resize` may keep its storage when capacity allows, so pointer identity across a resize is not modelled.
- `Storage.BuffData.Empty`: the C++ default constructor leaves `buffer` uninitialised. The model points it at the empty owned vector, which no access can reach while the length is 0.
- The benchmark and demo programs (expr_vector_benchmark.cpp, test_expr_vector.cpp, example_pointxyz.cpp) are not part of this model. Their timing, console output and `rand()` input are I/O. Only the eager vector operators and `sum` of the benchmark serve as reference definitions.
- Slicing, `count`, `zeros`, `linspace`, `arange` and printing do not appear in expr_vector.h and are not part of this model.

## Findings

| source | as written | input that shows it | evidently intended | confidence | as-written member | corrected member |
|---|---|---|---|---|---|---|
| expr_vector.h:24 | the copy constructor resizes its vector by its own member `n`, which has not been assigned yet, and then copies that many elements from `other` | copying a three-element storage when the new object's `n` happens to hold 0 gives an empty copy; a stale value above the source's buffer length reads out of range | resize by `other.size()`, so that the copy has the source's length and elements | high, not executed | Storage.BuffData.CopyAsWritten, Storage.StaleCopyIsEmpty | Storage.BuffData.Copy |
