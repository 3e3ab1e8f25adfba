/**
  What every part of struct-meta shares: C scalar widths, the library's result
  codes, and the tree form of a descriptor that has passed validation.
 */
module Types {

  datatype Option<+T> = None | Some(value: T)

  /** An object byte (`unsigned char`). */
  type Byte = b: int | 0 <= b < 256

  /** The largest `size_t` of a 64-bit target. */
  const SIZE_MAX: int := 0xFFFF_FFFF_FFFF_FFFF

  /** The largest `int`. */
  const INT_MAX: int := 0x7FFF_FFFF

  /** A `size_t`. */
  type Size = n: int | 0 <= n <= SIZE_MAX

  /** The `COM_UTIL_*` result codes the modelled functions return. */
  datatype Status =
    | Ok
    | Skipped
    | Eof
    | Canceled
    | InvalidArgument
    | OutOfRange
    | NotFound
    | OutOfMemory
    | CorruptDescriptor
    | Unsupported
    | BufferTooSmall
    | MissingRequired

  /** The bytes of a NUL-terminated C string, without its terminator. */
  type CText = s: seq<Byte> | 0 !in s witness []

  datatype Attribute = Attribute(key: string, value: Option<string>)

  /** A field kind; a nested descriptor exists exactly for the structure kind. */
  datatype Kind =
    | IntKind
    | UnsignedKind
    | FloatKind
    | DoubleKind
    | CharArrayKind
    | StructKind(nested: Descriptor)

  datatype Field = Field(
    name: string,
    kind: Kind,
    offset: Size,
    elementSize: Size,
    elementCount: Size,
    charBufferSize: Size,
    attributes: seq<Attribute>)

  /** A validated structure descriptor. It is only ever read, so sharing is invisible. */
  datatype Descriptor = Descriptor(name: string, size: Size, fields: seq<Field>)

  /** Bytes one element occupies; a char array is a single element. */
  function ElementLength(f: Field): Size {
    if f.kind.CharArrayKind? then f.charBufferSize else f.elementSize
  }

  /** Bytes the whole field occupies. */
  function Extent(f: Field): nat {
    if f.kind.CharArrayKind? then f.charBufferSize else f.elementCount * f.elementSize
  }

  /** Where element `i` starts, counted from the start of the parent structure. */
  function ElementOffset(f: Field, i: nat): nat {
    f.offset + i * f.elementSize
  }

  ghost predicate DistinctKeys(attributes: seq<Attribute>) {
    forall i, j :: 0 <= i < j < |attributes| ==> attributes[i].key != attributes[j].key
  }

  /** The layout rules of a validated field inside a parent of `size` bytes. */
  ghost predicate FieldLayout(f: Field, size: Size) {
    && f.name != "" && 0 < f.elementSize && 0 < f.elementCount
    && (if f.kind.CharArrayKind? then 0 < f.charBufferSize && f.elementCount == 1 else f.charBufferSize == 0)
    && Extent(f) <= SIZE_MAX
    && f.offset + Extent(f) <= size
    && (f.kind.StructKind? ==> f.elementSize == f.kind.nested.size && Layout(f.kind.nested))
    && (forall a <- f.attributes :: a.key != "")
    && DistinctKeys(f.attributes)
  }

  /** The layout rules of a validated descriptor, all the way down. */
  ghost predicate Layout(d: Descriptor) {
    && d.name != "" && 0 < d.size
    && forall f <- d.fields :: FieldLayout(f, d.size)
  }

  ghost predicate Distinct(s: seq<nat>) {
    forall i, j :: 0 <= i < j < |s| ==> s[i] != s[j]
  }

  /** Pigeonhole: a repetition-free sequence of numbers below `n` has at most `n` entries. */
  lemma {:induction false} DistinctBound(s: seq<nat>, n: nat)
    requires Distinct(s) && forall i :: 0 <= i < |s| ==> s[i] < n
    ensures |s| <= n
  {
    if s != [] {
      assert s[0] < n;
      if n - 1 in s {
        var i :| 0 <= i < |s| && s[i] == n - 1;
        DistinctBound(s[..i] + s[i + 1..], n - 1);
      } else {
        DistinctBound(s, n - 1);
      }
    }
  }

  lemma Distribute(a: nat, b: nat, size: nat)
    ensures (a + b) * size == a * size + b * size
    ensures 0 <= b * size
  {
  }

  lemma ScaleMonotone(i: nat, n: nat, size: nat)
    requires i < n
    ensures i * size + size <= n * size
  {
    Distribute(i, 1, size);
    Distribute(i + 1, n - i - 1, size);
  }

  /** Every element of a well-laid-out field lies inside the parent structure. */
  lemma ElementInside(f: Field, size: Size, i: nat)
    requires FieldLayout(f, size) && i < f.elementCount
    ensures ElementOffset(f, i) + ElementLength(f) <= f.offset + Extent(f) <= size
    ensures f.offset <= ElementOffset(f, i)
  {
    ScaleMonotone(i, f.elementCount, f.elementSize);
  }

  /** Two elements of one field never share a byte. */
  lemma ElementsApart(f: Field, i: nat, j: nat)
    requires !f.kind.CharArrayKind? && i < j
    ensures ElementOffset(f, i) + ElementLength(f) <= ElementOffset(f, j)
  {
    ScaleMonotone(i, j, f.elementSize);
  }

  /** The attribute with a given key (`struct_meta_field_find_attribute`). */
  function FindAttribute(attributes: seq<Attribute>, key: string): Option<Attribute> {
    if attributes == [] then None
    else if attributes[0].key == key then Some(attributes[0])
    else FindAttribute(attributes[1..], key)
  }
}
