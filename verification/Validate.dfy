/**
  meta/validate.c: the recursive descriptor check. Descriptors form a graph of
  C pointers that may be cyclic and may hold NULLs, so here a pointer is an
  index into a finite table of raw descriptors.
 */
module Validate {
  import opened Types

  /** A C array given by pointer and count: a NULL pointer may still carry a count. */
  datatype Table<+T> = Null(count: Size) | Items(items: seq<T>)

  datatype RawAttribute = RawAttribute(key: Option<string>, value: Option<string>)

  datatype RawField = RawField(
    name: Option<string>,
    kind: int,
    offset: Size,
    elementSize: Size,
    elementCount: Size,
    charBufferSize: Size,
    nested: Option<nat>,
    attributes: Table<RawAttribute>)

  datatype RawDescriptor = RawDescriptor(name: Option<string>, size: Size, fields: Table<RawField>)

  type Graph = seq<RawDescriptor>

  const CHAR_ARRAY: int := 4
  const STRUCT: int := 5

  function Elements<T>(t: Table<T>): seq<T> {
    if t.Items? then t.items else []
  }

  function Fields(d: RawDescriptor): seq<RawField> {
    Elements(d.fields)
  }

  /** Every non-NULL nested pointer points at a descriptor. */
  ghost predicate Closed(g: Graph) {
    forall id, k :: 0 <= id < |g| && 0 <= k < |Fields(g[id])| && Fields(g[id])[k].nested.Some?
      ==> Fields(g[id])[k].nested.value < |g|
  }

  // ---- What a valid descriptor is ----

  predicate Named(s: Option<string>) {
    s.Some? && s.value != ""
  }

  ghost predicate AttributesOk(t: Table<RawAttribute>) {
    && (t.Null? ==> t.count == 0)
    && (forall i :: 0 <= i < |Elements(t)| ==> Named(Elements(t)[i].key))
    && (forall i, j :: 0 <= i < j < |Elements(t)| ==> Elements(t)[i].key != Elements(t)[j].key)
  }

  function RawExtent(f: RawField): nat {
    if f.kind == CHAR_ARRAY then f.charBufferSize else f.elementCount * f.elementSize
  }

  /** The name, kind, size, extent and nesting rules of a field of a parent of `size` bytes. */
  predicate ShapeOk(g: Graph, size: Size, f: RawField) {
    && Named(f.name) && 0 <= f.kind <= STRUCT && 0 < f.elementSize && 0 < f.elementCount
    && (if f.kind == CHAR_ARRAY then 0 < f.charBufferSize && f.elementCount == 1 else f.charBufferSize == 0)
    && RawExtent(f) <= SIZE_MAX
    && f.offset + RawExtent(f) <= size
    && (f.nested.Some? <==> f.kind == STRUCT)
    && (f.nested.Some? && f.nested.value < |g| ==> f.elementSize == g[f.nested.value].size)
  }

  /** Every rule about a field that does not descend. */
  ghost predicate FieldOk(g: Graph, size: Size, f: RawField) {
    ShapeOk(g, size, f) && AttributesOk(f.attributes)
  }

  predicate HeaderOk(d: RawDescriptor) {
    Named(d.name) && d.size != 0 && (d.fields.Null? ==> d.fields.count == 0)
  }

  ghost predicate NodeOk(g: Graph, id: nat)
    requires id < |g|
  {
    HeaderOk(g[id]) && forall k :: 0 <= k < |Fields(g[id])| ==> FieldOk(g, g[id].size, Fields(g[id])[k])
  }

  /** Descriptor `a` holds a structure field of type `b`. */
  ghost predicate Edge(g: Graph, a: nat, b: nat)
    requires a < |g|
  {
    exists k :: 0 <= k < |Fields(g[a])| && Fields(g[a])[k].kind == STRUCT && Fields(g[a])[k].nested == Some(b)
  }

  /** A chain of by-value containment. */
  ghost predicate Walk(g: Graph, p: seq<nat>) {
    && p != []
    && (forall i :: 0 <= i < |p| ==> p[i] < |g|)
    && (forall i :: 0 <= i < |p| - 1 ==> Edge(g, p[i], p[i + 1]))
  }

  /** No containment chain from `root` repeats a descriptor or meets a bad one. */
  ghost predicate Valid(g: Graph, root: nat) {
    forall p :: Walk(g, p) && p[0] == root ==> Distinct(p) && NodeOk(g, p[|p| - 1])
  }

  // ---- The recursion of the check, with the descriptors in progress ----

  ghost predicate OnStack(g: Graph, stack: seq<nat>) {
    Distinct(stack) && forall i :: 0 <= i < |stack| ==> stack[i] < |g|
  }

  ghost predicate ValidFrom(g: Graph, stack: seq<nat>, id: nat)
    requires Closed(g) && OnStack(g, stack) && id < |g|
    decreases |g| - |stack|, 0
  {
    && NodeOk(g, id)
    && id !in stack
    && (DistinctBound(stack + [id], |g|);
        forall k :: 0 <= k < |Fields(g[id])| ==> FieldValid(g, stack + [id], Fields(g[id])[k]))
  }

  ghost predicate FieldValid(g: Graph, stack: seq<nat>, f: RawField)
    requires Closed(g) && OnStack(g, stack)
    requires f.nested.Some? ==> f.nested.value < |g|
    decreases |g| - |stack|, 1
  {
    f.kind == STRUCT && f.nested.Some? ==> ValidFrom(g, stack, f.nested.value)
  }

  // ---- The recursion agrees with the walks ----

  lemma {:induction false} ValidFromCoversWalks(g: Graph, stack: seq<nat>, id: nat, p: seq<nat>)
    requires Closed(g) && OnStack(g, stack) && id < |g| && ValidFrom(g, stack, id)
    requires Walk(g, p) && p[0] == id
    ensures Distinct(stack + p) && NodeOk(g, p[|p| - 1])
    decreases |p|
  {
    if |p| > 1 {
      assert Edge(g, p[0], p[1]);
      var k :| 0 <= k < |Fields(g[id])| && Fields(g[id])[k].kind == STRUCT && Fields(g[id])[k].nested == Some(p[1]);
      assert FieldValid(g, stack + [id], Fields(g[id])[k]);
      ValidFromCoversWalks(g, stack + [id], p[1], p[1..]);
      assert stack + p == stack + [id] + p[1..];
    }
  }

  lemma WalkPrepend(g: Graph, id: nat, p: seq<nat>)
    requires id < |g| && Walk(g, p) && Edge(g, id, p[0])
    ensures Walk(g, [id] + p)
  {
    var q := [id] + p;
    forall i | 0 <= i < |q| - 1 ensures Edge(g, q[i], q[i + 1]) {
      if i > 0 {
        assert Edge(g, p[i - 1], p[i]);
      }
    }
  }

  ghost predicate WalksOk(g: Graph, stack: seq<nat>, id: nat) {
    forall p :: Walk(g, p) && p[0] == id ==> Distinct(stack + p) && NodeOk(g, p[|p| - 1])
  }

  lemma WalkOkBelow(g: Graph, stack: seq<nat>, id: nat, p: seq<nat>)
    requires id < |g| && WalksOk(g, stack, id) && Walk(g, p) && Edge(g, id, p[0])
    ensures Distinct(stack + [id] + p) && NodeOk(g, p[|p| - 1])
  {
    WalkPrepend(g, id, p);
    var q := [id] + p;
    assert q[0] == id && q[|q| - 1] == p[|p| - 1];
    assert stack + q == stack + [id] + p;
  }

  lemma WalksOkBelow(g: Graph, stack: seq<nat>, id: nat, next: nat)
    requires id < |g| && WalksOk(g, stack, id) && Edge(g, id, next)
    ensures WalksOk(g, stack + [id], next)
  {
    forall p | Walk(g, p) && p[0] == next ensures Distinct(stack + [id] + p) && NodeOk(g, p[|p| - 1]) {
      WalkOkBelow(g, stack, id, p);
    }
  }

  lemma {:induction false} WalksGiveValidFrom(g: Graph, stack: seq<nat>, id: nat)
    requires Closed(g) && OnStack(g, stack) && id < |g|
    requires WalksOk(g, stack, id)
    ensures ValidFrom(g, stack, id)
    decreases |g| - |stack|
  {
    var one := [id];
    assert Walk(g, one);
    assert Distinct(stack + one) && NodeOk(g, id);
    forall i | 0 <= i < |stack| ensures stack[i] != id {
      assert (stack + one)[i] != (stack + one)[|stack|];
    }
    DistinctBound(stack + [id], |g|);
    forall k | 0 <= k < |Fields(g[id])| ensures FieldValid(g, stack + [id], Fields(g[id])[k]) {
      var f := Fields(g[id])[k];
      if f.kind == STRUCT && f.nested.Some? {
        assert Edge(g, id, f.nested.value);
        WalksOkBelow(g, stack, id, f.nested.value);
        WalksGiveValidFrom(g, stack + [id], f.nested.value);
      }
    }
  }

  /** The recursive check decides exactly the walk-based definition of validity. */
  lemma RecursionDecidesValidity(g: Graph, root: nat)
    requires Closed(g) && root < |g|
    ensures ValidFrom(g, [], root) <==> Valid(g, root)
  {
    if ValidFrom(g, [], root) {
      forall p | Walk(g, p) && p[0] == root ensures Distinct(p) && NodeOk(g, p[|p| - 1]) {
        ValidFromCoversWalks(g, [], root, p);
        assert [] + p == p;
      }
    }
    if Valid(g, root) {
      forall p | Walk(g, p) && p[0] == root ensures Distinct([] + p) && NodeOk(g, p[|p| - 1]) {
        assert [] + p == p;
      }
      assert WalksOk(g, [], root);
      WalksGiveValidFrom(g, [], root);
    }
  }

  // ---- Why the stack check is needed ----

  lemma ProductAtLeast(n: nat, s: nat)
    requires 0 < n && 0 < s
    ensures s <= n * s && (n > 1 ==> s < n * s)
  {
    ScaleMonotone(0, n, s);
    if n > 1 {
      ScaleMonotone(1, n, s);
    }
  }

  /** A contained structure is never larger than its container, and only a lone member at offset 0 is as large. */
  lemma ContainedIsSmaller(g: Graph, id: nat, k: nat)
    requires Closed(g) && id < |g| && NodeOk(g, id) && k < |Fields(g[id])| && Fields(g[id])[k].kind == STRUCT
    ensures var f := Fields(g[id])[k];
            var inner := g[f.nested.value].size;
            inner <= g[id].size && (inner == g[id].size ==> f.offset == 0 && f.elementCount == 1)
  {
    var f := Fields(g[id])[k];
    assert FieldOk(g, g[id].size, f);
    ProductAtLeast(f.elementCount, f.elementSize);
  }

  /** Going down a containment chain of well-formed descriptors, sizes never grow. */
  lemma {:induction false} SizesShrink(g: Graph, p: seq<nat>, i: nat, j: nat)
    requires Closed(g) && Walk(g, p) && i <= j < |p|
    requires forall n :: 0 <= n < |p| ==> NodeOk(g, p[n])
    ensures g[p[j]].size <= g[p[i]].size
    decreases j - i
  {
    if i < j {
      assert Edge(g, p[i], p[i + 1]);
      var k :| 0 <= k < |Fields(g[p[i]])| && Fields(g[p[i]])[k].kind == STRUCT
        && Fields(g[p[i]])[k].nested == Some(p[i + 1]);
      ContainedIsSmaller(g, p[i], k);
      SizesShrink(g, p, i + 1, j);
    }
  }

  /**
    A containment cycle that passes every size rule has all its sizes equal, and
    each field along it sits at offset 0 with a single element: no layout rule
    can reject it, only the stack search can.
   */
  lemma CyclesAreDegenerate(g: Graph, p: seq<nat>, i: nat, k: nat)
    requires Closed(g) && Walk(g, p) && |p| > 1 && p[0] == p[|p| - 1]
    requires forall n :: 0 <= n < |p| ==> NodeOk(g, p[n])
    requires i < |p| - 1 && k < |Fields(g[p[i]])|
    requires Fields(g[p[i]])[k].kind == STRUCT && Fields(g[p[i]])[k].nested == Some(p[i + 1])
    ensures g[p[i]].size == g[p[0]].size
    ensures Fields(g[p[i]])[k].offset == 0 && Fields(g[p[i]])[k].elementCount == 1
  {
    SizesShrink(g, p, 0, i);
    SizesShrink(g, p, i + 1, |p| - 1);
    ContainedIsSmaller(g, p[i], k);
  }

  // ---- The check itself ----

  /** The first `n` fields of a descriptor pass, with `stack` in progress. */
  ghost predicate FieldsPass(g: Graph, stack: seq<nat>, id: nat, n: nat)
    requires Closed(g) && OnStack(g, stack) && id < |g| && n <= |Fields(g[id])|
  {
    forall k :: 0 <= k < n ==> FieldOk(g, g[id].size, Fields(g[id])[k]) && FieldValid(g, stack, Fields(g[id])[k])
  }

  lemma FieldsPassDecides(g: Graph, stack: seq<nat>, id: nat)
    requires Closed(g) && OnStack(g, stack) && id < |g| && id !in stack && HeaderOk(g[id])
    ensures OnStack(g, stack + [id])
    ensures ValidFrom(g, stack, id) <==> FieldsPass(g, stack + [id], id, |Fields(g[id])|)
  {
    DistinctBound(stack + [id], |g|);
  }

  /** `sizeof` of a descriptor pointer. */
  const POINTER_BYTES: int := 8

  const MAX_CAPACITY: int := SIZE_MAX / POINTER_BYTES

  /** The capacity requested when the stack of capacity `c` is full, in `size_t` arithmetic. */
  function NextCapacity(c: nat): nat {
    if c == 0 then 8 else c * 2 % (SIZE_MAX + 1)
  }

  lemma NextCapacityDoubles(c: nat)
    requires c <= MAX_CAPACITY
    ensures NextCapacity(c) == if c == 0 then 8 else c * 2
  {
    if c > 0 {
      assert 0 <= c * 2 < SIZE_MAX + 1;
    }
  }

  /** The allocator, or the address space, cannot hold a stack as deep as the graph is large. */
  predicate MemoryShort(g: Graph, available: nat) {
    available < 2 * |g| + 8 || MAX_CAPACITY < 2 * |g| + 8
  }

  method ValidateAttributes(t: Table<RawAttribute>) returns (ret: Status)
    ensures ret == Ok || ret == CorruptDescriptor
    ensures ret == Ok <==> AttributesOk(t)
  {
    if t.Null? {
      return if t.count > 0 then CorruptDescriptor else Ok;
    }
    var a := t.items;
    for i := 0 to |a|
      invariant forall k :: 0 <= k < i ==> Named(a[k].key)
    {
      if !Named(a[i].key) {
        assert !Named(Elements(t)[i].key);
        return CorruptDescriptor;
      }
    }
    for i := 0 to |a|
      invariant forall k, j :: 0 <= k < i && k < j < |a| ==> a[k].key != a[j].key
    {
      for j := i + 1 to |a|
        invariant forall k :: i < k < j ==> a[i].key != a[k].key
      {
        if a[i].key == a[j].key {
          assert Elements(t)[i].key == Elements(t)[j].key;
          return CorruptDescriptor;
        }
      }
    }
    return Ok;
  }

  lemma QuotientGuardsProduct(n: nat, s: nat)
    requires 0 < s
    ensures n > SIZE_MAX / s <==> n * s > SIZE_MAX
  {
    var q := SIZE_MAX / s;
    assert q * s <= SIZE_MAX < q * s + s;
    if n > q {
      ScaleMonotone(q, n, s);
    } else if n < q {
      ScaleMonotone(n, q, s);
    }
  }

  /** The checks on one field before its nested descriptor and attributes are looked at. */
  method ValidateShape(g: Graph, size: Size, f: RawField) returns (ret: Status)
    requires f.nested.Some? ==> f.nested.value < |g|
    ensures ret == Ok || ret == CorruptDescriptor
    ensures ret == Ok <==> ShapeOk(g, size, f)
  {
    if !Named(f.name) || f.kind < 0 || f.kind > STRUCT || f.elementSize == 0 || f.elementCount == 0 {
      return CorruptDescriptor;
    }
    var fieldSize: nat;
    if f.kind == CHAR_ARRAY {
      if f.charBufferSize == 0 || f.elementCount != 1 || f.nested.Some? {
        return CorruptDescriptor;
      }
      fieldSize := f.charBufferSize;
    } else {
      QuotientGuardsProduct(f.elementCount, f.elementSize);
      if f.charBufferSize != 0 || f.elementCount > SIZE_MAX / f.elementSize {
        return CorruptDescriptor;
      }
      fieldSize := f.elementCount * f.elementSize;
    }
    if f.offset > size || fieldSize > size - f.offset {
      return CorruptDescriptor;
    }
    if f.kind == STRUCT {
      if f.nested.None? || f.elementSize != g[f.nested.value].size {
        return CorruptDescriptor;
      }
    } else if f.nested.Some? {
      return CorruptDescriptor;
    }
    return Ok;
  }

  /** The descriptors being validated, innermost last. */
  class ValidationContext {
    var stack: array<nat>
    var depth: nat
    var capacity: nat

    /** The largest stack, in entries, that `realloc` can supply. */
    const available: nat

    ghost predicate Consistent()
      reads this
    {
      depth <= capacity == stack.Length <= MAX_CAPACITY
    }

    ghost function InProgress(): seq<nat>
      requires Consistent()
      reads this, stack
    {
      stack[..depth]
    }

    constructor (available: nat)
      ensures Consistent() && InProgress() == [] && this.available == available && fresh(stack)
    {
      stack, depth, capacity := new nat[0], 0, 0;
      this.available := available;
    }

    /** `push_descriptor`. */
    method Push(id: nat) returns (ret: Status)
      requires Consistent()
      modifies this, stack
      ensures Consistent() && (stack == old(stack) || fresh(stack))
      ensures ret == CorruptDescriptor <==> id in old(InProgress())
      ensures ret == OutOfMemory ==> old(depth) == old(capacity)
                                     && (NextCapacity(old(capacity)) > available
                                         || NextCapacity(old(capacity)) > MAX_CAPACITY)
      ensures ret == Ok || ret == CorruptDescriptor || ret == OutOfMemory
      ensures InProgress() == if ret == Ok then old(InProgress()) + [id] else old(InProgress())
    {
      for i := 0 to depth
        invariant id !in stack[..i]
      {
        if stack[i] == id {
          return CorruptDescriptor;
        }
      }
      if depth == capacity {
        var larger := NextCapacity(capacity);
        NextCapacityDoubles(capacity);
        if larger < capacity || larger > MAX_CAPACITY || larger > available {
          return OutOfMemory;
        }
        var moved := new nat[larger];
        for i := 0 to depth
          modifies moved
          invariant moved[..i] == stack[..i]
        {
          moved[i] := stack[i];
        }
        stack, capacity := moved, larger;
      }
      stack[depth] := id;
      depth := depth + 1;
      return Ok;
    }

    /**
      `validate_descriptor`: on every exit the descriptors in progress are as
      before, and the answer is the one the recursive definition gives.
     */
    method ValidateDescriptor(g: Graph, id: nat) returns (ret: Status)
      requires Closed(g) && id < |g| && Consistent() && OnStack(g, InProgress())
      modifies this, stack
      ensures Consistent() && (stack == old(stack) || fresh(stack))
      ensures InProgress() == old(InProgress())
      ensures ret == Ok ==> ValidFrom(g, InProgress(), id)
      ensures ret == CorruptDescriptor ==> !ValidFrom(g, InProgress(), id)
      ensures ret == Ok || ret == CorruptDescriptor || (ret == OutOfMemory && MemoryShort(g, available))
      decreases |g| - depth, 0
    {
      if !HeaderOk(g[id]) {
        return CorruptDescriptor;
      }
      ghost var before := InProgress();
      ret := Push(id);
      if ret != Ok {
        DistinctBound(before, |g|);
        NextCapacityDoubles(depth);
        return;
      }
      ghost var deeper := InProgress();
      FieldsPassDecides(g, before, id);
      DistinctBound(deeper, |g|);
      ret := ValidateFields(g, id);
      depth := depth - 1;
      assert InProgress() == deeper[..|before|] == before;
    }

    /** The field loop of `validate_descriptor`. */
    method ValidateFields(g: Graph, id: nat) returns (ret: Status)
      requires Closed(g) && id < |g| && Consistent() && OnStack(g, InProgress()) && depth <= |g|
      modifies this, stack
      ensures Consistent() && (stack == old(stack) || fresh(stack))
      ensures InProgress() == old(InProgress())
      ensures ret == Ok ==> FieldsPass(g, InProgress(), id, |Fields(g[id])|)
      ensures ret == CorruptDescriptor ==> !FieldsPass(g, InProgress(), id, |Fields(g[id])|)
      ensures ret == Ok || ret == CorruptDescriptor || (ret == OutOfMemory && MemoryShort(g, available))
      decreases |g| - depth, 1
    {
      ghost var stacked := InProgress();
      var fields := Fields(g[id]);
      ret := Ok;
      var i := 0;
      while i < |fields|
        invariant 0 <= i <= |fields| && ret == Ok
        invariant Consistent() && (stack == old(stack) || fresh(stack)) && InProgress() == stacked
        invariant FieldsPass(g, stacked, id, i)
      {
        var f := fields[i];
        ret := ValidateShape(g, g[id].size, f);
        if ret != Ok {
          break;
        }
        if f.kind == STRUCT {
          ret := ValidateDescriptor(g, f.nested.value);
          if ret != Ok {
            assert ret == CorruptDescriptor ==> !FieldValid(g, stacked, f);
            break;
          }
        }
        ret := ValidateAttributes(f.attributes);
        if ret != Ok {
          break;
        }
        i := i + 1;
      }
    }
  }

  /**
    `struct_meta_descriptor_validate`. A NULL descriptor is refused; otherwise,
    unless memory runs short, the answer is exactly `Valid`. It always terminates.
   */
  method DescriptorValidate(g: Graph, descriptor: Option<nat>, available: nat) returns (ret: Status)
    requires Closed(g) && (descriptor.Some? ==> descriptor.value < |g|)
    ensures descriptor.None? ==> ret == InvalidArgument
    ensures descriptor.Some? && ret == Ok ==> Valid(g, descriptor.value)
    ensures descriptor.Some? && !MemoryShort(g, available) ==>
              ret == if Valid(g, descriptor.value) then Ok else CorruptDescriptor
    ensures descriptor.Some? && ret == CorruptDescriptor ==> !Valid(g, descriptor.value)
    ensures descriptor.Some? ==> ret == Ok || ret == CorruptDescriptor || ret == OutOfMemory
  {
    if descriptor.None? {
      return InvalidArgument;
    }
    var context := new ValidationContext(available);
    ret := context.ValidateDescriptor(g, descriptor.value);
    RecursionDecidesValidity(g, descriptor.value);
  }

  // ---- Reading a validated graph ----

  /** A NULL array does not claim to have elements. */
  predicate NullEmpty<T>(t: Table<T>) {
    t.Null? ==> t.count == 0
  }

  /** Following the pointers from `id` reads exactly the tree `d`. */
  ghost predicate Depicts(g: Graph, id: nat, d: Descriptor)
    decreases d
  {
    && id < |g| && g[id].name == Some(d.name) && g[id].size == d.size
    && NullEmpty(g[id].fields) && |Fields(g[id])| == |d.fields|
    && forall k :: 0 <= k < |d.fields| ==> DepictsField(g, Fields(g[id])[k], d.fields[k])
  }

  ghost predicate DepictsField(g: Graph, r: RawField, f: Field)
    decreases f
  {
    && r.name == Some(f.name) && r.kind == KindCode(f.kind)
    && r.offset == f.offset && r.elementSize == f.elementSize && r.elementCount == f.elementCount
    && r.charBufferSize == f.charBufferSize
    && (if f.kind.StructKind? then r.nested.Some? && Depicts(g, r.nested.value, f.kind.nested) else r.nested.None?)
    && NullEmpty(r.attributes) && |Elements(r.attributes)| == |f.attributes|
    && forall i :: 0 <= i < |f.attributes| ==>
         Elements(r.attributes)[i] == RawAttribute(Some(f.attributes[i].key), f.attributes[i].value)
  }

  function KindCode(k: Kind): int {
    match k
    case IntKind => 0
    case UnsignedKind => 1
    case FloatKind => 2
    case DoubleKind => 3
    case CharArrayKind => CHAR_ARRAY
    case StructKind(_) => STRUCT
  }

  /** The tree a validated descriptor depicts; shared descriptors simply appear twice. */
  function Unfold(g: Graph, stack: seq<nat>, id: nat): (d: Descriptor)
    requires Closed(g) && OnStack(g, stack) && id < |g| && ValidFrom(g, stack, id)
    ensures Depicts(g, id, d) && Layout(d)
    decreases |g| - |stack|, 0
  {
    DistinctBound(stack + [id], |g|);
    var fields := Fields(g[id]);
    Descriptor(g[id].name.value, g[id].size,
               seq(|fields|, k requires 0 <= k < |fields| => UnfoldField(g, stack + [id], g[id].size, fields[k])))
  }

  function UnfoldField(g: Graph, stack: seq<nat>, size: Size, r: RawField): (f: Field)
    requires Closed(g) && OnStack(g, stack) && (r.nested.Some? ==> r.nested.value < |g|)
    requires FieldOk(g, size, r) && FieldValid(g, stack, r)
    ensures DepictsField(g, r, f) && FieldLayout(f, size)
    decreases |g| - |stack|, 1
  {
    var kind :=
      if r.kind == 0 then IntKind
      else if r.kind == 1 then UnsignedKind
      else if r.kind == 2 then FloatKind
      else if r.kind == 3 then DoubleKind
      else if r.kind == CHAR_ARRAY then CharArrayKind
      else StructKind(Unfold(g, stack, r.nested.value));
    var raw := Elements(r.attributes);
    var attributes := seq(|raw|, i requires 0 <= i < |raw| => Attribute(raw[i].key.value, raw[i].value));
    Field(r.name.value, kind, r.offset, r.elementSize, r.elementCount, r.charBufferSize, attributes)
  }

  lemma {:induction false} DepictionUnique(g: Graph, id: nat, d: Descriptor, e: Descriptor)
    requires Depicts(g, id, d) && Depicts(g, id, e)
    ensures d == e
    decreases d
  {
    forall k | 0 <= k < |d.fields| ensures d.fields[k] == e.fields[k] {
      var f, h := d.fields[k], e.fields[k];
      assert DepictsField(g, Fields(g[id])[k], f) && DepictsField(g, Fields(g[id])[k], h);
      if f.kind.StructKind? {
        DepictionUnique(g, Fields(g[id])[k].nested.value, f.kind.nested, h.kind.nested);
      }
      assert f.attributes == h.attributes;
    }
    assert d.fields == e.fields;
  }

  lemma DepictedNodeOk(g: Graph, id: nat, d: Descriptor)
    requires Closed(g) && Depicts(g, id, d) && Layout(d)
    ensures NodeOk(g, id)
  {
    forall k | 0 <= k < |Fields(g[id])| ensures FieldOk(g, g[id].size, Fields(g[id])[k]) {
      var r, f := Fields(g[id])[k], d.fields[k];
      assert DepictsField(g, r, f) && FieldLayout(f, d.size);
      forall i | 0 <= i < |f.attributes| ensures Named(Elements(r.attributes)[i].key) {
        assert f.attributes[i] in f.attributes;
      }
    }
  }

  /** `trees` depicts the descriptors in progress, each strictly containing `d`. */
  ghost predicate Enclosing(g: Graph, stack: seq<nat>, trees: seq<Descriptor>, d: Descriptor) {
    |trees| == |stack| && forall i :: 0 <= i < |stack| ==> Depicts(g, stack[i], trees[i]) && d < trees[i]
  }

  lemma {:induction false} DepictedIsValidFrom(g: Graph, stack: seq<nat>, trees: seq<Descriptor>, id: nat,
                                               d: Descriptor)
    requires Closed(g) && OnStack(g, stack) && Depicts(g, id, d) && Layout(d)
    requires Enclosing(g, stack, trees, d)
    ensures ValidFrom(g, stack, id)
    decreases d
  {
    forall i | 0 <= i < |stack| ensures stack[i] != id {
      if stack[i] == id {
        DepictionUnique(g, id, d, trees[i]);
      }
    }
    DepictedNodeOk(g, id, d);
    DistinctBound(stack + [id], |g|);
    forall k | 0 <= k < |Fields(g[id])| ensures FieldValid(g, stack + [id], Fields(g[id])[k]) {
      var r, f := Fields(g[id])[k], d.fields[k];
      assert DepictsField(g, r, f) && FieldLayout(f, d.size);
      if f.kind.StructKind? {
        assert f.kind.nested < d;
        DepictedIsValidFrom(g, stack + [id], trees + [d], r.nested.value, f.kind.nested);
      }
    }
  }

  /** The tree a valid descriptor depicts. */
  function Tree(g: Graph, root: nat): (d: Descriptor)
    requires Closed(g) && root < |g| && Valid(g, root)
    ensures Depicts(g, root, d) && Layout(d)
  {
    RecursionDecidesValidity(g, root);
    Unfold(g, [], root)
  }

  /** A descriptor graph is valid exactly when it can be read as a finite, well-laid-out tree. */
  lemma ValidIffUnfolds(g: Graph, root: nat)
    requires Closed(g) && root < |g|
    ensures Valid(g, root) <==> exists d :: Depicts(g, root, d) && Layout(d)
  {
    RecursionDecidesValidity(g, root);
    if Valid(g, root) {
      var d := Tree(g, root);
      assert Depicts(g, root, d) && Layout(d);
    }
    if d: Descriptor :| Depicts(g, root, d) && Layout(d) {
      DepictedIsValidFrom(g, [], [], root, d);
      assert ValidFrom(g, [], root);
    }
  }
}
