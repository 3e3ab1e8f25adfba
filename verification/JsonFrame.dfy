/** Which bytes of an instance a decode may write, on success and on error alike. */
module JsonFrame {
  import opened Types
  import opened JsonCodec

  /** Byte `o` belongs to a leaf that a member of `json` is decoded into. */
  ghost predicate Touched(d: Descriptor, json: Json, o: int)
    decreases d
  {
    json.Object? && exists k :: 0 <= k < |d.fields| && FieldTouched(d.fields[k], json.members, o)
  }

  ghost predicate FieldTouched(f: Field, members: seq<Member>, o: int)
    decreases f, 2
  {
    && !Ignored(f) && Lookup(members, JsonKey(f)).Some?
    && exists i :: 0 <= i < f.elementCount && ElementTouched(f, Lookup(members, JsonKey(f)).value, i, o)
  }

  /** The element's own item, when the decoder gets as far as looking at it. */
  ghost predicate ElementTouched(f: Field, item: Json, i: nat, o: int)
    decreases f, 1
  {
    var at := o - ElementOffset(f, i);
    if Single(f) then i == 0 && LeafTouched(f, item, at)
    else item.Array? && i < |item.items| && LeafTouched(f, item.items[i], at)
  }

  /** A string is written up to its terminator; any other scalar as a whole. */
  ghost predicate LeafTouched(f: Field, item: Json, o: int)
    decreases f, 0
  {
    match f.kind
    case StructKind(nested) => Touched(nested, item, o)
    case CharArrayKind => item.Text? && 0 <= o <= |item.text| < f.charBufferSize
    case _ => 0 <= o < f.elementSize
  }

  /** Whatever the outcome, a byte that is not touched keeps its value. */
  lemma {:induction false} DecodeFrame(num: Numerics, d: Descriptor, json: Json, bytes: seq<Byte>, o: nat)
    requires IsInstance(bytes, d) && o < |bytes| && !Touched(d, json, o)
    ensures DecodeStruct(num, d, json, bytes).bytes[o] == bytes[o]
    decreases d, 1
  {
    if json.Object? {
      FieldsFrame(num, d, json.members, bytes, |d.fields|, o);
    }
  }

  lemma {:induction false} FieldsFrame(num: Numerics, d: Descriptor, members: seq<Member>, bytes: seq<Byte>, n: nat,
                                       o: nat)
    requires IsInstance(bytes, d) && n <= |d.fields| && o < |bytes|
    requires forall k :: 0 <= k < n ==> !FieldTouched(d.fields[k], members, o)
    ensures DecodeFields(num, d, members, bytes, n).bytes[o] == bytes[o]
    decreases d, 0, n
  {
    if n > 0 {
      FieldsFrame(num, d, members, bytes, n - 1, o);
      FieldFrame(num, d.fields[n - 1], members, DecodeFields(num, d, members, bytes, n - 1).bytes, o);
    }
  }

  lemma {:induction false} FieldFrame(num: Numerics, f: Field, members: seq<Member>, bytes: seq<Byte>, o: nat)
    requires Holds(bytes, f) && o < |bytes| && !FieldTouched(f, members, o)
    ensures DecodeField(num, f, members, bytes).bytes[o] == bytes[o]
    decreases f, 3
  {
    var found := Lookup(members, JsonKey(f));
    if !Ignored(f) && found.Some? {
      if Single(f) {
        assert !ElementTouched(f, found.value, 0, o);
        LeafFrame(num, f, found.value, bytes, 0, o);
      } else if found.value.Array? && LengthMatches(found.value.items, f.elementCount) {
        LengthMatchesMeans(found.value.items, f.elementCount);
        ElementsFrame(num, f, found.value, bytes, f.elementCount, o);
      }
    }
  }

  lemma {:induction false} ElementsFrame(num: Numerics, f: Field, item: Json, bytes: seq<Byte>, n: nat, o: nat)
    requires Holds(bytes, f) && !Single(f) && item.Array? && n <= f.elementCount && n <= |item.items| && o < |bytes|
    requires forall i :: 0 <= i < n ==> !ElementTouched(f, item, i, o)
    ensures DecodeElements(num, f, item.items, bytes, n).bytes[o] == bytes[o]
    decreases f, 2, n
  {
    if n > 0 {
      ElementsFrame(num, f, item, bytes, n - 1, o);
      assert !ElementTouched(f, item, n - 1, o);
      LeafFrame(num, f, item.items[n - 1], DecodeElements(num, f, item.items, bytes, n - 1).bytes, n - 1, o);
    }
  }

  lemma {:induction false} LeafFrame(num: Numerics, f: Field, item: Json, bytes: seq<Byte>, i: nat, o: nat)
    requires Holds(bytes, f) && i < f.elementCount && o < |bytes|
    requires !LeafTouched(f, item, o - ElementOffset(f, i))
    ensures DecodeElementAt(num, f, item, bytes, i).bytes[o] == bytes[o]
    decreases f, 1
  {
    ElementInside(f, |bytes|, i);
    LeafFrameAt(num, f, item, bytes, i, ElementOffset(f, i), o);
  }

  lemma DecodedAt(num: Numerics, f: Field, item: Json, bytes: seq<Byte>, i: nat, start: nat)
    requires Holds(bytes, f) && i < f.elementCount
    requires start == ElementOffset(f, i) && start + ElementLength(f) <= |bytes|
    ensures bytes[start..start + ElementLength(f)] == Element(f, bytes, i)
    ensures DecodeElementAt(num, f, item, bytes, i).bytes
            == Splice(bytes, start, DecodeElement(num, f, item, Element(f, bytes, i)).bytes)
  {
  }

  lemma {:induction false} LeafFrameAt(num: Numerics, f: Field, item: Json, bytes: seq<Byte>, i: nat, start: nat,
                                       o: nat)
    requires Holds(bytes, f) && i < f.elementCount && o < |bytes|
    requires start == ElementOffset(f, i) && start + ElementLength(f) <= |bytes| && !LeafTouched(f, item, o - start)
    ensures DecodeElementAt(num, f, item, bytes, i).bytes[o] == bytes[o]
    decreases f, 1, 0
  {
    DecodedAt(num, f, item, bytes, i, start);
    var e := Element(f, bytes, i);
    if start <= o < start + |e| {
      assert e[o - start] == bytes[o];
      LeafByteFrame(num, f, item, e, o - start);
    }
    SpliceAt(bytes, start, DecodeElement(num, f, item, e).bytes, o);
  }

  lemma SpliceAt(bytes: seq<Byte>, at: nat, e: seq<Byte>, o: nat)
    requires at + |e| <= |bytes| && o < |bytes|
    ensures Splice(bytes, at, e)[o] == if at <= o < at + |e| then e[o - at] else bytes[o]
  {
  }

  lemma {:induction false} LeafByteFrame(num: Numerics, f: Field, item: Json, e: seq<Byte>, o: nat)
    requires |e| == ElementLength(f) && (f.kind.StructKind? ==> IsInstance(e, f.kind.nested))
    requires o < |e| && !LeafTouched(f, item, o)
    ensures DecodeElement(num, f, item, e).bytes[o] == e[o]
    decreases f, 0
  {
    if f.kind.StructKind? {
      DecodeFrame(num, f.kind.nested, item, e, o);
    }
  }

  /** A touched byte lies in the extent of a field that is not ignored and whose key is present. */
  lemma {:induction false} TouchedInsideField(d: Descriptor, json: Json, o: int) returns (k: nat)
    requires Layout(d) && Touched(d, json, o)
    ensures k < |d.fields| && FieldTouched(d.fields[k], json.members, o)
    ensures 0 <= d.fields[k].offset <= o < d.fields[k].offset + Extent(d.fields[k]) <= d.size
    decreases d
  {
    k :| 0 <= k < |d.fields| && FieldTouched(d.fields[k], json.members, o);
    FieldTouchedInside(d.fields[k], d.size, json.members, o);
  }

  /** The element through which a field is touched, and the item it is decoded from. */
  lemma TouchedElement(f: Field, members: seq<Member>, o: int) returns (i: nat, own: Json)
    requires FieldTouched(f, members, o)
    ensures i < f.elementCount && LeafTouched(f, own, o - ElementOffset(f, i))
  {
    var item := Lookup(members, JsonKey(f)).value;
    i :| 0 <= i < f.elementCount && ElementTouched(f, item, i, o);
    own := if Single(f) then item else item.items[i];
  }

  lemma {:induction false} FieldTouchedInside(f: Field, size: Size, members: seq<Member>, o: int)
    requires FieldLayout(f, size) && FieldTouched(f, members, o)
    ensures f.offset <= o < f.offset + Extent(f) <= size
    decreases f, 1
  {
    var i, own := TouchedElement(f, members, o);
    LeafTouchedInside(f, own, o - ElementOffset(f, i));
    ElementInside(f, size, i);
  }

  lemma {:induction false} LeafTouchedInside(f: Field, item: Json, o: int)
    requires f.kind.StructKind? ==> Layout(f.kind.nested) && f.elementSize == f.kind.nested.size
    requires LeafTouched(f, item, o)
    ensures 0 <= o < ElementLength(f)
    decreases f, 0
  {
    if f.kind.StructKind? {
      var k := TouchedInsideField(f.kind.nested, item, o);
    }
  }

  // ---- Ignored fields ----

  /** No field that takes part in JSON shares a byte with another field, at any depth. */
  ghost predicate Apart(d: Descriptor)
    decreases d
  {
    && (forall j, k :: 0 <= j < |d.fields| && 0 <= k < |d.fields| && j != k && !Ignored(d.fields[j]) ==>
          Disjoint(d.fields[j], d.fields[k]))
    && (forall f <- d.fields :: !Ignored(f) && f.kind.StructKind? ==> Apart(f.kind.nested))
  }

  predicate Disjoint(f: Field, h: Field) {
    f.offset + Extent(f) <= h.offset || h.offset + Extent(h) <= f.offset
  }

  /** Byte `o` belongs to an ignored field at some depth. */
  ghost predicate IgnoredByte(d: Descriptor, o: int)
    decreases d
  {
    exists k :: 0 <= k < |d.fields| && FieldIgnoresByte(d.fields[k], o)
  }

  ghost predicate FieldIgnoresByte(f: Field, o: int)
    decreases f
  {
    if Ignored(f) then f.offset <= o < f.offset + Extent(f)
    else f.kind.StructKind? && exists i :: 0 <= i < f.elementCount && ElementIgnoresByte(f, i, o)
  }

  ghost predicate ElementIgnoresByte(f: Field, i: nat, o: int)
    requires f.kind.StructKind?
    decreases f, 0
  {
    0 <= o - ElementOffset(f, i) < f.elementSize && IgnoredByte(f.kind.nested, o - ElementOffset(f, i))
  }

  /** Ignored fields are out of reach of every tree. */
  lemma {:induction false} IgnoredNeverTouched(d: Descriptor, json: Json, o: int)
    requires Layout(d) && Apart(d) && IgnoredByte(d, o)
    ensures !Touched(d, json, o)
    decreases d, 1
  {
    if Touched(d, json, o) {
      var j := TouchedInsideField(d, json, o);
      var k :| 0 <= k < |d.fields| && FieldIgnoresByte(d.fields[k], o);
      IgnoredInside(d.fields[k], d.size, o);
      FieldIgnoredNeverTouched(d.fields[j], d.size, json.members, o);
    }
  }

  lemma {:induction false} FieldIgnoredNeverTouched(f: Field, size: Size, members: seq<Member>, o: int)
    requires FieldLayout(f, size) && FieldIgnoresByte(f, o)
    requires !Ignored(f) && f.kind.StructKind? ==> Apart(f.kind.nested)
    ensures !FieldTouched(f, members, o)
    decreases f, 0
  {
    if FieldTouched(f, members, o) {
      var i, own := TouchedElement(f, members, o);
      var m :| 0 <= m < f.elementCount && ElementIgnoresByte(f, m, o);
      LeafTouchedInside(f, own, o - ElementOffset(f, i));
      SameElement(f, i, m, o);
      IgnoredNeverTouched(f.kind.nested, own, o - ElementOffset(f, i));
    }
  }

  lemma IgnoredInside(f: Field, size: Size, o: int)
    requires FieldLayout(f, size) && FieldIgnoresByte(f, o)
    ensures f.offset <= o < f.offset + Extent(f)
  {
    if !Ignored(f) {
      var i :| 0 <= i < f.elementCount && ElementIgnoresByte(f, i, o);
      ElementInside(f, size, i);
    }
  }

  /** Only one element of an array holds a given byte. */
  lemma SameElement(f: Field, i: nat, m: nat, o: int)
    requires !f.kind.CharArrayKind?
    requires ElementOffset(f, i) <= o < ElementOffset(f, i) + f.elementSize
    requires ElementOffset(f, m) <= o < ElementOffset(f, m) + f.elementSize
    ensures i == m
  {
    if i < m {
      ElementsApart(f, i, m);
    } else if m < i {
      ElementsApart(f, m, i);
    }
  }
}
