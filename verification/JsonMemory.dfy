/**
  json/encode.c and json/decode.c as they run: on an instance that lives at an
  address inside a larger memory, reading or writing it in place.
 */
module JsonMemory {
  import opened Types
  import opened Validate
  import opened Access
  import opened JsonCodec
  import opened JsonRoundTrip

  /** `n` bytes of memory at `at`. */
  ghost function Bytes(mem: array<Byte>, at: nat, n: nat): seq<Byte>
    requires at + n <= mem.Length
    reads mem
  {
    mem[at..at + n]
  }

  // ---- Splices ----

  lemma SliceOfSlice<T>(s: seq<T>, base: nat, n: nat, at: nat, m: nat)
    requires base + n <= |s| && at + m <= n
    ensures s[base..base + n][at..at + m] == s[base + at..base + at + m]
  {
    var a, b := s[base..base + n][at..at + m], s[base + at..base + at + m];
    assert forall i :: 0 <= i < m ==> a[i] == b[i];
  }

  lemma SpliceSelf(s: seq<Byte>, at: nat, n: nat)
    requires at + n <= |s|
    ensures Splice(s, at, s[at..at + n]) == s
  {
  }

  lemma SpliceSplice(s: seq<Byte>, base: nat, b: seq<Byte>, at: nat, e: seq<Byte>)
    requires base + |b| <= |s| && at + |e| <= |b|
    ensures Splice(Splice(s, base, b), base + at, e) == Splice(s, base, Splice(b, at, e))
  {
  }

  /** Writing the same region twice leaves the second contents. */
  lemma SpliceTwice(s: seq<Byte>, base: nat, b: seq<Byte>, c: seq<Byte>)
    requires base + |b| <= |s| && |b| == |c|
    ensures Splice(s, base, b)[base..base + |b|] == b
    ensures Splice(Splice(s, base, b), base, c) == Splice(s, base, c)
  {
  }

  /** The memory an element occupies is that element of the instance. */
  lemma ElementBytes(f: Field, size: Size, s: seq<Byte>, base: nat, i: nat)
    requires base + size <= |s| && Holds(s[base..base + size], f) && i < f.elementCount
    ensures var at := base + ElementOffset(f, i);
            at + ElementLength(f) <= |s| && s[at..at + ElementLength(f)] == Element(f, s[base..base + size], i)
  {
    ElementInside(f, size, i);
    SliceOfSlice(s, base, size, ElementOffset(f, i), ElementLength(f));
  }

  /** Writing an element in memory is writing it in the instance. */
  lemma ElementStored(f: Field, size: Size, s: seq<Byte>, base: nat, i: nat, e: seq<Byte>)
    requires base + size <= |s| && Holds(s[base..base + size], f) && i < f.elementCount && |e| == ElementLength(f)
    ensures ElementOffset(f, i) + |e| <= size
    ensures Splice(s, base + ElementOffset(f, i), e)
            == Splice(s, base, Splice(s[base..base + size], ElementOffset(f, i), e))
  {
    ElementInside(f, size, i);
    SpliceSelf(s, base, size);
    SpliceSplice(s, base, s[base..base + size], ElementOffset(f, i), e);
  }

  // ---- Encoding ----

  /** `cJSON_CreateString`: copy up to the terminator. */
  method ReadCString(mem: array<Byte>, at: nat, ghost n: nat) returns (text: CText)
    requires at + n <= mem.Length && 0 in Bytes(mem, at, n)
    ensures text == CString(Bytes(mem, at, n))
  {
    ghost var buffer := Bytes(mem, at, n);
    ghost var length := StrLen(buffer);
    var i := 0;
    while mem[at + i] != 0
      invariant i <= length < n
      decreases length - i
    {
      assert buffer[i] != 0;
      i := i + 1;
    }
    assert buffer[i] == 0;
    assert mem[at..at + i] == buffer[..i];
    text := mem[at..at + i];
  }

  method ScalarToJson(num: Numerics, f: Field, mem: array<Byte>, at: nat) returns (r: Encoded<Json>)
    requires at + ElementLength(f) <= mem.Length && !f.kind.StructKind?
    requires LeafTerminated(f, Bytes(mem, at, ElementLength(f)))
    ensures r == EncodeScalar(num, f, Bytes(mem, at, ElementLength(f)))
  {
    match f.kind {
      case IntKind =>
        if f.elementSize != 4 { return Failure(Unsupported); }
        return Success(Number(num.ofInt(mem[at..at + 4])));
      case UnsignedKind =>
        if f.elementSize != 4 { return Failure(Unsupported); }
        return Success(Number(num.ofUnsigned(mem[at..at + 4])));
      case FloatKind =>
        if f.elementSize != 4 { return Failure(Unsupported); }
        return Success(Number(num.ofFloat(mem[at..at + 4])));
      case DoubleKind =>
        if f.elementSize != 8 { return Failure(Unsupported); }
        return Success(Number(mem[at..at + 8]));
      case CharArrayKind =>
        var text := ReadCString(mem, at, f.charBufferSize);
        return Success(Text(text));
    }
  }

  method ElementToJson(num: Numerics, f: Field, mem: array<Byte>, at: nat) returns (r: Encoded<Json>)
    requires at + ElementLength(f) <= mem.Length
    requires f.kind.StructKind? ==> IsInstance(Bytes(mem, at, ElementLength(f)), f.kind.nested)
    requires LeafTerminated(f, Bytes(mem, at, ElementLength(f)))
    ensures r == EncodeElement(num, f, Bytes(mem, at, ElementLength(f)))
    decreases f, 0
  {
    if f.kind.StructKind? {
      r := StructToJson(num, f.kind.nested, mem, at);
    } else {
      r := ScalarToJson(num, f, mem, at);
    }
  }

  /** The address of an element, through the accessor. */
  method ElementAddress(f: Field, ghost size: Size, mem: array<Byte>, base: nat, i: Size) returns (at: nat)
    requires base + size <= mem.Length && Holds(Bytes(mem, base, size), f) && i < f.elementCount
    ensures at == base + ElementOffset(f, i) && at + ElementLength(f) <= mem.Length
    ensures Bytes(mem, at, ElementLength(f)) == Element(f, Bytes(mem, base, size), i)
  {
    var ret, element := FieldGetElement(f, size, base, i);
    ElementBytes(f, size, mem[..], base, i);
    assert Bytes(mem, base, size) == mem[..][base..base + size];
    at := element.value;
  }

  method FieldToJson(num: Numerics, f: Field, ghost size: Size, mem: array<Byte>, base: nat) returns (r: Encoded<Json>)
    requires base + size <= mem.Length && Holds(Bytes(mem, base, size), f) && FieldTerminated(f, Bytes(mem, base, size))
    ensures r == EncodeField(num, f, Bytes(mem, base, size))
    decreases f, 1
  {
    ghost var bytes := Bytes(mem, base, size);
    if Single(f) {
      var at := ElementAddress(f, size, mem, base, 0);
      assert LeafTerminated(f, Element(f, bytes, 0));
      r := ElementToJson(num, f, mem, at);
      return;
    }
    var items: seq<Json> := [];
    for i := 0 to f.elementCount
      invariant EncodeElements(num, f, bytes, i) == Success(items)
    {
      var at := ElementAddress(f, size, mem, base, i);
      assert LeafTerminated(f, Element(f, bytes, i));
      var item := ElementToJson(num, f, mem, at);
      if item.Failure? {
        ElementsStopAt(num, f, bytes, i + 1, f.elementCount, item.status);
        return Failure(item.status);
      }
      items := items + [item.value];
    }
    return Success(Array(items));
  }

  /** A failure at one element is the answer for the whole array. */
  lemma {:induction false} ElementsStopAt(num: Numerics, f: Field, bytes: seq<Byte>, i: nat, n: nat, status: Status)
    requires Holds(bytes, f) && i <= n <= f.elementCount && EncodeElements(num, f, bytes, i) == Failure(status)
    ensures EncodeElements(num, f, bytes, n) == Failure(status)
    decreases n
  {
    if i < n {
      ElementsStopAt(num, f, bytes, i, n - 1, status);
    }
  }

  lemma {:induction false} FieldsStopAt(num: Numerics, d: Descriptor, bytes: seq<Byte>, i: nat, n: nat, status: Status)
    requires IsInstance(bytes, d) && i <= n <= |d.fields| && EncodeFields(num, d, bytes, i) == Failure(status)
    ensures EncodeFields(num, d, bytes, n) == Failure(status)
    decreases n
  {
    if i < n {
      FieldsStopAt(num, d, bytes, i, n - 1, status);
    }
  }

  /** `json_key`. */
  method FieldJsonKey(f: Field) returns (key: string)
    ensures key == JsonKey(f)
  {
    var ret, attribute := FieldFindAttribute(f, "json.name");
    if ret == Ok && attribute.value.value.Some? && attribute.value.value.value != "" {
      return attribute.value.value.value;
    }
    return f.name;
  }

  /** `struct_to_json`: reads the instance and appends to the object member by member. */
  method StructToJson(num: Numerics, d: Descriptor, mem: array<Byte>, base: nat) returns (r: Encoded<Json>)
    requires Layout(d) && base + d.size <= mem.Length && Terminated(d, Bytes(mem, base, d.size))
    ensures r == EncodeStruct(num, d, Bytes(mem, base, d.size))
    decreases d
  {
    ghost var bytes := Bytes(mem, base, d.size);
    var members: seq<Member> := [];
    for i := 0 to |d.fields|
      invariant EncodeFields(num, d, bytes, i) == Success(members)
    {
      var f := d.fields[i];
      var ret, attribute := FieldFindAttribute(f, "json.ignore");
      if ret == Ok {
        continue;
      }
      var item := FieldToJson(num, f, d.size, mem, base);
      if item.Failure? {
        FieldsStopAt(num, d, bytes, i + 1, |d.fields|, item.status);
        return Failure(item.status);
      }
      var key := FieldJsonKey(f);
      members := members + [Member(key, item.value)];
    }
    return Success(Object(members));
  }

  // ---- Decoding ----

  /** `memcpy` into the instance. */
  method Store(mem: array<Byte>, at: nat, source: seq<Byte>)
    requires at + |source| <= mem.Length
    modifies mem
    ensures mem[..] == Splice(old(mem[..]), at, source)
  {
    forall i | 0 <= i < |source| {
      mem[at + i] := source[i];
    }
  }

  /** A stored string leaves the rest of its buffer alone. */
  lemma StringStored(s: seq<Byte>, at: nat, n: nat, text: CText)
    requires at + n <= |s| && |text| < n
    ensures Splice(s, at, text + [0]) == Splice(s, at, text + [0] + s[at..at + n][|text| + 1..])
  {
    var rest := s[at..at + n][|text| + 1..];
    assert rest == s[at + |text| + 1..at + n];
    assert s[at + |text| + 1..] == rest + s[at + n..];
  }

  method ScalarFromJson(num: Numerics, f: Field, item: Json, mem: array<Byte>, at: nat) returns (ret: Status)
    requires at + ElementLength(f) <= mem.Length && !f.kind.StructKind?
    modifies mem
    ensures var r := DecodeScalar(num, f, item, old(Bytes(mem, at, ElementLength(f))));
            ret == r.status && mem[..] == Splice(old(mem[..]), at, r.bytes)
  {
    ghost var before := mem[..];
    SpliceSelf(before, at, ElementLength(f));
    match f.kind {
      case IntKind =>
        if f.elementSize != 4 || !item.Number? { return InvalidArgument; }
        Store(mem, at, num.toInt(item.number));
      case UnsignedKind =>
        if f.elementSize != 4 || !item.Number? { return InvalidArgument; }
        if num.negative(item.number) { return InvalidArgument; }
        Store(mem, at, num.toUnsigned(item.number));
      case FloatKind =>
        if f.elementSize != 4 || !item.Number? { return InvalidArgument; }
        Store(mem, at, num.toFloat(item.number));
      case DoubleKind =>
        if f.elementSize != 8 || !item.Number? { return InvalidArgument; }
        Store(mem, at, item.number);
      case CharArrayKind =>
        if !item.Text? { return InvalidArgument; }
        if |item.text| >= f.charBufferSize { return BufferTooSmall; }
        StringStored(before, at, f.charBufferSize, item.text);
        Store(mem, at, item.text + [0]);
    }
    return Ok;
  }

  lemma ElementDecodedInPlace(num: Numerics, f: Field, size: Size, item: Json, before: seq<Byte>, base: nat, i: nat,
                              at: nat)
    requires base + size <= |before| && Holds(before[base..base + size], f) && i < f.elementCount
    requires at == base + ElementOffset(f, i) && at + ElementLength(f) <= |before|
    ensures var bytes := before[base..base + size];
            var r := DecodeElement(num, f, item, Element(f, bytes, i));
            && DecodeElementAt(num, f, item, bytes, i).status == r.status
            && Splice(before, base, DecodeElementAt(num, f, item, bytes, i).bytes) == Splice(before, at, r.bytes)
  {
    var bytes := before[base..base + size];
    ElementStored(f, size, before, base, i, DecodeElement(num, f, item, Element(f, bytes, i)).bytes);
  }

  method ElementFromJson(num: Numerics, f: Field, item: Json, mem: array<Byte>, at: nat) returns (ret: Status)
    requires at + ElementLength(f) <= mem.Length
    requires f.kind.StructKind? ==> IsInstance(Bytes(mem, at, ElementLength(f)), f.kind.nested)
    modifies mem
    ensures var r := DecodeElement(num, f, item, old(Bytes(mem, at, ElementLength(f))));
            ret == r.status && mem[..] == Splice(old(mem[..]), at, r.bytes)
    decreases f, 0
  {
    if f.kind.StructKind? {
      ret := StructFromJson(num, f.kind.nested, item, mem, at);
    } else {
      ret := ScalarFromJson(num, f, item, mem, at);
    }
  }

  /** One element of the structure at `base`, written in place. */
  method ElementFromJsonAt(num: Numerics, f: Field, ghost size: Size, item: Json, mem: array<Byte>, base: nat, i: Size)
      returns (ret: Status)
    requires base + size <= mem.Length && Holds(Bytes(mem, base, size), f) && i < f.elementCount
    modifies mem
    ensures var r := DecodeElementAt(num, f, item, old(Bytes(mem, base, size)), i);
            ret == r.status && mem[..] == Splice(old(mem[..]), base, r.bytes)
    decreases f, 1
  {
    ghost var before, bytes := mem[..], Bytes(mem, base, size);
    var at := ElementAddress(f, size, mem, base, i);
    assert bytes == before[base..base + size];
    ElementDecodedInPlace(num, f, size, item, before, base, i, at);
    assert f.kind.StructKind? ==> IsInstance(Element(f, bytes, i), f.kind.nested);
    ret := ElementFromJson(num, f, item, mem, at);
  }

  method FieldFromJson(num: Numerics, f: Field, ghost size: Size, members: seq<Member>, mem: array<Byte>, base: nat)
      returns (ret: Status)
    requires base + size <= mem.Length && Holds(Bytes(mem, base, size), f)
    modifies mem
    ensures var r := DecodeField(num, f, members, old(Bytes(mem, base, size)));
            ret == r.status && mem[..] == Splice(old(mem[..]), base, r.bytes)
    decreases f, 3
  {
    ghost var before, bytes := mem[..], Bytes(mem, base, size);
    SpliceSelf(before, base, size);
    var attribute, key;
    ret, attribute := FieldFindAttribute(f, "json.ignore");
    if ret == Ok {
      return Ok;
    }
    key := FieldJsonKey(f);
    var found := Lookup(members, key);
    if found.None? {
      ret, attribute := FieldFindAttribute(f, "json.required");
      return if ret == Ok then MissingRequired else Ok;
    }
    var item := found.value;
    if Single(f) {
      ret := ElementFromJsonAt(num, f, size, item, mem, base, 0);
      return;
    }
    if !item.Array? {
      return InvalidArgument;
    }
    if ToInt(|item.items|) < 0 || ToInt(|item.items|) != f.elementCount {
      return InvalidArgument;
    }
    LengthMatchesMeans(item.items, f.elementCount);
    ret := ElementsFromJson(num, f, size, item.items, mem, base);
  }

  /** The element loop of `field_from_json`. */
  method ElementsFromJson(num: Numerics, f: Field, ghost size: Size, items: seq<Json>, mem: array<Byte>, base: nat)
      returns (ret: Status)
    requires base + size <= mem.Length && Holds(Bytes(mem, base, size), f) && f.elementCount <= |items|
    modifies mem
    ensures var r := DecodeElements(num, f, items, old(Bytes(mem, base, size)), f.elementCount);
            ret == r.status && mem[..] == Splice(old(mem[..]), base, r.bytes)
    decreases f, 2
  {
    ghost var before, bytes := mem[..], Bytes(mem, base, size);
    SpliceSelf(before, base, size);
    for i := 0 to f.elementCount
      invariant DecodeElements(num, f, items, bytes, i).status == Ok
      invariant mem[..] == Splice(before, base, DecodeElements(num, f, items, bytes, i).bytes)
    {
      ghost var next := DecodeElements(num, f, items, bytes, i + 1);
      SpliceTwice(before, base, DecodeElements(num, f, items, bytes, i).bytes, next.bytes);
      ret := ElementFromJsonAt(num, f, size, items[i], mem, base, i);
      if ret != Ok {
        DecodedElementsStopAt(num, f, items, bytes, i + 1, f.elementCount);
        return;
      }
    }
    return Ok;
  }

  lemma {:induction false} DecodedElementsStopAt(num: Numerics, f: Field, items: seq<Json>, bytes: seq<Byte>, i: nat,
                                                 n: nat)
    requires Holds(bytes, f) && i <= n <= f.elementCount && n <= |items|
             && DecodeElements(num, f, items, bytes, i).status != Ok
    ensures DecodeElements(num, f, items, bytes, n) == DecodeElements(num, f, items, bytes, i)
    decreases n
  {
    if i < n {
      DecodedElementsStopAt(num, f, items, bytes, i, n - 1);
    }
  }

  lemma {:induction false} DecodedFieldsStopAt(num: Numerics, d: Descriptor, members: seq<Member>, bytes: seq<Byte>,
                                               i: nat, n: nat)
    requires IsInstance(bytes, d) && i <= n <= |d.fields| && DecodeFields(num, d, members, bytes, i).status != Ok
    ensures DecodeFields(num, d, members, bytes, n) == DecodeFields(num, d, members, bytes, i)
    decreases n
  {
    if i < n {
      DecodedFieldsStopAt(num, d, members, bytes, i, n - 1);
    }
  }

  /** `struct_from_json`: writes the instance field by field and stops at the first error. */
  method StructFromJson(num: Numerics, d: Descriptor, json: Json, mem: array<Byte>, base: nat) returns (ret: Status)
    requires Layout(d) && base + d.size <= mem.Length
    modifies mem
    ensures var r := DecodeStruct(num, d, json, old(Bytes(mem, base, d.size)));
            ret == r.status && mem[..] == Splice(old(mem[..]), base, r.bytes)
    decreases d, 1
  {
    if !json.Object? {
      SpliceSelf(mem[..], base, d.size);
      return InvalidArgument;
    }
    ret := FieldsFromJson(num, d, json.members, mem, base);
  }

  lemma OneFieldFurther(num: Numerics, d: Descriptor, members: seq<Member>, bytes: seq<Byte>, i: nat)
    requires IsInstance(bytes, d) && i < |d.fields| && DecodeFields(num, d, members, bytes, i).status == Ok
    ensures DecodeFields(num, d, members, bytes, i + 1)
            == DecodeField(num, d.fields[i], members, DecodeFields(num, d, members, bytes, i).bytes)
  {
  }

  /** The field loop of `struct_from_json`. */
  method FieldsFromJson(num: Numerics, d: Descriptor, members: seq<Member>, mem: array<Byte>, base: nat)
      returns (ret: Status)
    requires Layout(d) && base + d.size <= mem.Length
    modifies mem
    ensures var r := DecodeFields(num, d, members, old(Bytes(mem, base, d.size)), |d.fields|);
            ret == r.status && mem[..] == Splice(old(mem[..]), base, r.bytes)
    decreases d, 0, 1
  {
    ghost var before, bytes := mem[..], Bytes(mem, base, d.size);
    SpliceSelf(before, base, d.size);
    ghost var now := DecodeFields(num, d, members, bytes, 0);
    for i := 0 to |d.fields|
      invariant now == DecodeFields(num, d, members, bytes, i) && now.status == Ok
      invariant mem[..] == Splice(before, base, now.bytes)
    {
      ghost var here := now;
      now := DecodeFields(num, d, members, bytes, i + 1);
      OneFieldFurther(num, d, members, bytes, i);
      ret := NextFieldFromJson(num, d, members, mem, base, i, before, here, now);
      if ret != Ok {
        DecodedFieldsStopAt(num, d, members, bytes, i + 1, |d.fields|);
        return;
      }
    }
    return Ok;
  }

  /** One turn of that loop: memory holds what the fields before made of `before`. */
  method NextFieldFromJson(num: Numerics, d: Descriptor, members: seq<Member>, mem: array<Byte>, base: nat, i: nat,
                           ghost before: seq<Byte>, ghost here: Decoded, ghost next: Decoded) returns (ret: Status)
    requires IsInstance(here.bytes, d) && base + d.size <= mem.Length == |before| && i < |d.fields|
    requires mem[..] == Splice(before, base, here.bytes)
    requires next == DecodeField(num, d.fields[i], members, here.bytes)
    modifies mem
    ensures ret == next.status && mem[..] == Splice(before, base, next.bytes)
    decreases d, 0, 0
  {
    SpliceTwice(before, base, here.bytes, next.bytes);
    assert Bytes(mem, base, d.size) == here.bytes;
    ret := FieldFromJson(num, d.fields[i], d.size, members, mem, base);
  }

  // ---- Public entry points ----

  /** The caller's instance lies inside memory. */
  ghost predicate InstanceFits(g: Graph, descriptor: Option<nat>, mem: array<Byte>, instance: Option<nat>) {
    && Closed(g) && (descriptor.Some? ==> descriptor.value < |g|)
    && (descriptor.Some? && instance.Some? ==> instance.value + g[descriptor.value].size <= mem.Length)
  }

  /** `struct_meta_json_encode`: arguments, then the descriptor, then the instance. */
  method JsonEncode(g: Graph, available: nat, num: Numerics, descriptor: Option<nat>, mem: array<Byte>,
                    instance: Option<nat>)
      returns (r: Encoded<Json>)
    requires InstanceFits(g, descriptor, mem, instance)
    requires descriptor.Some? && instance.Some? && Valid(g, descriptor.value) ==>
               Terminated(Tree(g, descriptor.value), Bytes(mem, instance.value, g[descriptor.value].size))
    ensures descriptor.None? || instance.None? ==> r == Failure(InvalidArgument)
    ensures descriptor.Some? && instance.Some? ==>
              || (r == Failure(OutOfMemory) && MemoryShort(g, available))
              || r == if !Valid(g, descriptor.value) then Failure(CorruptDescriptor)
                      else EncodeStruct(num, Tree(g, descriptor.value),
                                        Bytes(mem, instance.value, g[descriptor.value].size))
  {
    if descriptor.None? || instance.None? {
      return Failure(InvalidArgument);
    }
    var ret := DescriptorValidate(g, descriptor, available);
    if ret != Ok {
      return Failure(ret);
    }
    r := StructToJson(num, Tree(g, descriptor.value), mem, instance.value);
  }

  /** `struct_meta_json_decode`: nothing is written unless the arguments and the descriptor pass. */
  method JsonDecode(g: Graph, available: nat, num: Numerics, descriptor: Option<nat>, json: Option<Json>,
                    mem: array<Byte>, instance: Option<nat>) returns (ret: Status)
    requires InstanceFits(g, descriptor, mem, instance)
    modifies mem
    ensures descriptor.None? || json.None? || instance.None? ==> ret == InvalidArgument && mem[..] == old(mem[..])
    ensures descriptor.Some? && json.Some? && instance.Some? && !Valid(g, descriptor.value) ==>
              && (ret == CorruptDescriptor || (ret == OutOfMemory && MemoryShort(g, available)))
              && mem[..] == old(mem[..])
    ensures descriptor.Some? && json.Some? && instance.Some? && Valid(g, descriptor.value) ==>
              var r := DecodeStruct(num, Tree(g, descriptor.value), json.value,
                                    old(Bytes(mem, instance.value, g[descriptor.value].size)));
              || (ret == OutOfMemory && MemoryShort(g, available) && mem[..] == old(mem[..]))
              || (ret == r.status && mem[..] == Splice(old(mem[..]), instance.value, r.bytes))
  {
    if descriptor.None? || json.None? || instance.None? {
      return InvalidArgument;
    }
    ret := DescriptorValidate(g, descriptor, available);
    if ret != Ok {
      return;
    }
    ret := StructFromJson(num, Tree(g, descriptor.value), json.value, mem, instance.value);
  }
}
