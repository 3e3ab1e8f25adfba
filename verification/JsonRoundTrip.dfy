/** What encoding and decoding promise each other. */
module JsonRoundTrip {
  import opened Types
  import opened JsonCodec
  import opened JsonFrame

  // ---- When encoding succeeds ----

  /** Every scalar that takes part in JSON has the element size its kind demands. */
  ghost predicate Sized(d: Descriptor)
    decreases d
  {
    forall f <- d.fields :: !Ignored(f) ==> FieldSized(f)
  }

  ghost predicate FieldSized(f: Field)
    decreases f
  {
    match f.kind
    case IntKind => f.elementSize == 4
    case UnsignedKind => f.elementSize == 4
    case FloatKind => f.elementSize == 4
    case DoubleKind => f.elementSize == 8
    case CharArrayKind => true
    case StructKind(nested) => Sized(nested)
  }

  lemma {:induction false} EncodesIffSized(num: Numerics, d: Descriptor, bytes: seq<Byte>)
    requires IsInstance(bytes, d)
    ensures EncodeStruct(num, d, bytes).Success? <==> Sized(d)
    ensures EncodeStruct(num, d, bytes).Success? ==> EncodeStruct(num, d, bytes).value.Object?
    decreases d, 1
  {
    FieldsEncodeIffSized(num, d, bytes, |d.fields|);
  }

  lemma {:induction false} FieldsEncodeIffSized(num: Numerics, d: Descriptor, bytes: seq<Byte>, n: nat)
    requires IsInstance(bytes, d) && n <= |d.fields|
    ensures EncodeFields(num, d, bytes, n).Success?
            <==> forall k :: 0 <= k < n && !Ignored(d.fields[k]) ==> FieldSized(d.fields[k])
    decreases d, 0, n
  {
    if n > 0 {
      FieldsEncodeIffSized(num, d, bytes, n - 1);
      if !Ignored(d.fields[n - 1]) {
        FieldEncodesIffSized(num, d.fields[n - 1], bytes);
      }
    }
  }

  lemma {:induction false} FieldEncodesIffSized(num: Numerics, f: Field, bytes: seq<Byte>)
    requires Holds(bytes, f)
    ensures EncodeField(num, f, bytes).Success? <==> FieldSized(f)
    decreases f, 2
  {
    if Single(f) {
      ElementEncodesIffSized(num, f, Element(f, bytes, 0));
    } else {
      ElementsEncodeIffSized(num, f, bytes, f.elementCount);
    }
  }

  lemma {:induction false} ElementsEncodeIffSized(num: Numerics, f: Field, bytes: seq<Byte>, n: nat)
    requires Holds(bytes, f) && n <= f.elementCount
    ensures EncodeElements(num, f, bytes, n).Success? <==> n == 0 || FieldSized(f)
    decreases f, 1, n
  {
    if n > 0 {
      ElementsEncodeIffSized(num, f, bytes, n - 1);
      ElementEncodesIffSized(num, f, Element(f, bytes, n - 1));
    }
  }

  lemma {:induction false} ElementEncodesIffSized(num: Numerics, f: Field, e: seq<Byte>)
    requires |e| == ElementLength(f) && (f.kind.StructKind? ==> IsInstance(e, f.kind.nested))
    ensures EncodeElement(num, f, e).Success? <==> FieldSized(f)
    decreases f, 0
  {
    if f.kind.StructKind? {
      EncodesIffSized(num, f.kind.nested, e);
    }
  }

  // ---- What equal trees mean ----

  /** Two instances agree on every leaf that takes part in JSON; strings are compared as C strings. */
  ghost predicate SameLeaves(d: Descriptor, x: seq<Byte>, y: seq<Byte>)
    requires IsInstance(x, d) && IsInstance(y, d)
    decreases d, 1
  {
    forall k :: 0 <= k < |d.fields| && !Ignored(d.fields[k]) ==> FieldSame(d.fields[k], x, y)
  }

  ghost predicate FieldSame(f: Field, x: seq<Byte>, y: seq<Byte>)
    requires Holds(x, f) && Holds(y, f)
    decreases f, 1
  {
    forall i :: 0 <= i < f.elementCount ==> LeafSame(f, Element(f, x, i), Element(f, y, i))
  }

  ghost predicate LeafSame(f: Field, x: seq<Byte>, y: seq<Byte>)
    requires |x| == |y| == ElementLength(f)
             && (f.kind.StructKind? ==> IsInstance(x, f.kind.nested) && IsInstance(y, f.kind.nested))
    decreases f, 0
  {
    match f.kind
    case StructKind(nested) => SameLeaves(nested, x, y)
    case CharArrayKind => CString(x) == CString(y)
    case _ => x == y
  }

  /** Two encodable instances give the same tree exactly when they agree on every leaf. */
  lemma {:induction false} SameTreeIffSameLeaves(num: Numerics, d: Descriptor, x: seq<Byte>, y: seq<Byte>)
    requires num.Exact() && Sized(d) && IsInstance(x, d) && IsInstance(y, d)
    ensures EncodeStruct(num, d, x) == EncodeStruct(num, d, y) <==> SameLeaves(d, x, y)
    decreases d, 1
  {
    SameMembersIffSameFields(num, d, x, y, |d.fields|);
    EncodesIffSized(num, d, x);
    EncodesIffSized(num, d, y);
  }

  lemma {:induction false} SameMembersIffSameFields(num: Numerics, d: Descriptor, x: seq<Byte>, y: seq<Byte>, n: nat)
    requires num.Exact() && Sized(d) && IsInstance(x, d) && IsInstance(y, d) && n <= |d.fields|
    ensures EncodeFields(num, d, x, n) == EncodeFields(num, d, y, n)
            <==> forall k :: 0 <= k < n && !Ignored(d.fields[k]) ==> FieldSame(d.fields[k], x, y)
    decreases d, 0, n
  {
    if n > 0 {
      var f := d.fields[n - 1];
      SameMembersIffSameFields(num, d, x, y, n - 1);
      FieldsEncodeIffSized(num, d, x, n - 1);
      FieldsEncodeIffSized(num, d, y, n - 1);
      if !Ignored(f) {
        FieldEncodesIffSized(num, f, x);
        FieldEncodesIffSized(num, f, y);
        SameItemIffFieldSame(num, f, x, y);
        var a, b := EncodeFields(num, d, x, n - 1).value, EncodeFields(num, d, y, n - 1).value;
        AppendInjective(a, Member(JsonKey(f), EncodeField(num, f, x).value), b,
                        Member(JsonKey(f), EncodeField(num, f, y).value));
      }
    }
  }

  lemma AppendInjective<T>(a: seq<T>, p: T, b: seq<T>, q: T)
    ensures a + [p] == b + [q] <==> a == b && p == q
  {
    if a + [p] == b + [q] {
      assert (a + [p])[..|a|] == a && (b + [q])[..|b|] == b;
      assert (a + [p])[|a|] == p && (b + [q])[|b|] == q;
    }
  }

  lemma {:induction false} SameItemIffFieldSame(num: Numerics, f: Field, x: seq<Byte>, y: seq<Byte>)
    requires num.Exact() && FieldSized(f) && Holds(x, f) && Holds(y, f)
    ensures EncodeField(num, f, x) == EncodeField(num, f, y) <==> FieldSame(f, x, y)
    decreases f, 2
  {
    FieldEncodesIffSized(num, f, x);
    FieldEncodesIffSized(num, f, y);
    if Single(f) {
      SameItemIffLeafSame(num, f, Element(f, x, 0), Element(f, y, 0));
    } else {
      SameItemsIffElementsSame(num, f, x, y, f.elementCount);
    }
  }

  lemma {:induction false} SameItemsIffElementsSame(num: Numerics, f: Field, x: seq<Byte>, y: seq<Byte>, n: nat)
    requires num.Exact() && FieldSized(f) && Holds(x, f) && Holds(y, f) && n <= f.elementCount
    ensures EncodeElements(num, f, x, n) == EncodeElements(num, f, y, n)
            <==> forall i :: 0 <= i < n ==> LeafSame(f, Element(f, x, i), Element(f, y, i))
    decreases f, 1, n
  {
    if n > 0 {
      SameItemsIffElementsSame(num, f, x, y, n - 1);
      ElementsEncodeIffSized(num, f, x, n - 1);
      ElementsEncodeIffSized(num, f, y, n - 1);
      var p, q := Element(f, x, n - 1), Element(f, y, n - 1);
      ElementEncodesIffSized(num, f, p);
      ElementEncodesIffSized(num, f, q);
      SameItemIffLeafSame(num, f, p, q);
      AppendInjective(EncodeElements(num, f, x, n - 1).value, EncodeElement(num, f, p).value,
                      EncodeElements(num, f, y, n - 1).value, EncodeElement(num, f, q).value);
    }
  }

  lemma {:induction false} SameItemIffLeafSame(num: Numerics, f: Field, x: seq<Byte>, y: seq<Byte>)
    requires num.Exact() && FieldSized(f) && |x| == |y| == ElementLength(f)
    requires f.kind.StructKind? ==> IsInstance(x, f.kind.nested) && IsInstance(y, f.kind.nested)
    ensures EncodeElement(num, f, x) == EncodeElement(num, f, y) <==> LeafSame(f, x, y)
    decreases f, 0
  {
    match f.kind
    case StructKind(nested) => SameTreeIffSameLeaves(num, nested, x, y);
    case IntKind => assert num.toInt(num.ofInt(x)) == x && num.toInt(num.ofInt(y)) == y;
    case UnsignedKind => assert num.toUnsigned(num.ofUnsigned(x)) == x && num.toUnsigned(num.ofUnsigned(y)) == y;
    case FloatKind => assert num.toFloat(num.ofFloat(x)) == x && num.toFloat(num.ofFloat(y)) == y;
    case _ =>
  }

  // ---- Decoding an encoded instance ----

  /** Fields that take part in JSON have distinct keys, at every depth. */
  ghost predicate KeysDistinct(d: Descriptor)
    decreases d
  {
    && (forall j, k :: 0 <= j < k < |d.fields| && !Ignored(d.fields[j]) && !Ignored(d.fields[k]) ==>
          JsonKey(d.fields[j]) != JsonKey(d.fields[k]))
    && (forall f <- d.fields :: !Ignored(f) && f.kind.StructKind? ==> KeysDistinct(f.kind.nested))
  }

  /** Array lengths fit the `int` that cJSON reports them in, at every depth. */
  ghost predicate CountsFit(d: Descriptor)
    decreases d
  {
    forall f <- d.fields :: !Ignored(f) ==> FieldCountFits(f)
  }

  ghost predicate FieldCountFits(f: Field)
    decreases f
  {
    (Single(f) || f.elementCount <= INT_MAX) && (f.kind.StructKind? ==> CountsFit(f.kind.nested))
  }

  /** Every char array that takes part in JSON holds a terminated string. */
  ghost predicate Terminated(d: Descriptor, bytes: seq<Byte>)
    requires IsInstance(bytes, d)
    decreases d, 1
  {
    forall k :: 0 <= k < |d.fields| && !Ignored(d.fields[k]) ==> FieldTerminated(d.fields[k], bytes)
  }

  ghost predicate FieldTerminated(f: Field, bytes: seq<Byte>)
    requires Holds(bytes, f)
    decreases f, 1
  {
    forall i :: 0 <= i < f.elementCount ==> LeafTerminated(f, Element(f, bytes, i))
  }

  ghost predicate LeafTerminated(f: Field, e: seq<Byte>)
    requires |e| == ElementLength(f) && (f.kind.StructKind? ==> IsInstance(e, f.kind.nested))
    decreases f, 0
  {
    match f.kind
    case StructKind(nested) => Terminated(nested, e)
    case CharArrayKind => 0 in e
    case _ => true
  }

  lemma {:induction false} LookupAppend(members: seq<Member>, m: Member, key: string)
    ensures Lookup(members + [m], key)
            == if Lookup(members, key).Some? then Lookup(members, key) else if m.key == key then Some(m.value) else None
  {
    if members != [] {
      assert (members + [m])[1..] == members[1..] + [m];
      LookupAppend(members[1..], m, key);
    }
  }

  /** Each encoded field is found under its key; no other key is found. */
  lemma {:induction false} LookupEncoded(num: Numerics, d: Descriptor, x: seq<Byte>, n: nat, key: string)
    requires IsInstance(x, d) && n <= |d.fields| && EncodeFields(num, d, x, n).Success?
    requires KeysDistinct(d)
    ensures forall k :: 0 <= k < n && !Ignored(d.fields[k]) && JsonKey(d.fields[k]) == key ==>
              && EncodeField(num, d.fields[k], x).Success?
              && Lookup(EncodeFields(num, d, x, n).value, key) == Some(EncodeField(num, d.fields[k], x).value)
    ensures (forall k :: 0 <= k < n && !Ignored(d.fields[k]) ==> JsonKey(d.fields[k]) != key) ==>
              Lookup(EncodeFields(num, d, x, n).value, key) == None
    decreases n
  {
    if n > 0 {
      LookupEncoded(num, d, x, n - 1, key);
      var f := d.fields[n - 1];
      if !Ignored(f) {
        LookupAppend(EncodeFields(num, d, x, n - 1).value, Member(JsonKey(f), EncodeField(num, f, x).value), key);
      }
    }
  }

  // An encoded tree conforms exactly when the counts fit.

  lemma {:induction false} EncodedConforms(num: Numerics, d: Descriptor, x: seq<Byte>)
    requires num.Exact() && IsInstance(x, d) && Sized(d) && KeysDistinct(d) && Terminated(d, x)
    ensures EncodeStruct(num, d, x).Success? && (Conforms(num, d, EncodeStruct(num, d, x).value) <==> CountsFit(d))
    decreases d, 1
  {
    EncodesIffSized(num, d, x);
    var members := EncodeFields(num, d, x, |d.fields|).value;
    forall k | 0 <= k < |d.fields| && !Ignored(d.fields[k])
      ensures FieldConforms(num, d.fields[k], members) <==> FieldCountFits(d.fields[k])
    {
      var f := d.fields[k];
      LookupEncoded(num, d, x, |d.fields|, JsonKey(f));
      EncodedFieldConforms(num, f, x, members);
    }
  }

  lemma {:induction false} EncodedFieldConforms(num: Numerics, f: Field, x: seq<Byte>, members: seq<Member>)
    requires num.Exact() && Holds(x, f) && !Ignored(f) && FieldSized(f) && FieldTerminated(f, x)
    requires f.kind.StructKind? ==> KeysDistinct(f.kind.nested)
    requires EncodeField(num, f, x).Success? && Lookup(members, JsonKey(f)) == Some(EncodeField(num, f, x).value)
    ensures FieldConforms(num, f, members) <==> FieldCountFits(f)
    decreases f, 1
  {
    EncodedLeafConforms(num, f, Element(f, x, 0));
    if !Single(f) {
      var items := EncodeElements(num, f, x, f.elementCount).value;
      LengthMatchesMeans(items, f.elementCount);
      forall i | 0 <= i < f.elementCount
        ensures ElementConforms(num, f, items[i]) <==> (f.kind.StructKind? ==> CountsFit(f.kind.nested))
      {
        EncodedItem(num, f, x, f.elementCount, i);
        EncodedLeafConforms(num, f, Element(f, x, i));
      }
      if FieldConforms(num, f, members) {
        assert ElementConforms(num, f, items[0]);
      }
    }
  }

  /** Item `i` of an encoded array is the encoding of element `i`. */
  lemma {:induction false} EncodedItem(num: Numerics, f: Field, x: seq<Byte>, n: nat, i: nat)
    requires Holds(x, f) && i < n <= f.elementCount && EncodeElements(num, f, x, n).Success?
    ensures EncodeElement(num, f, Element(f, x, i)) == Success(EncodeElements(num, f, x, n).value[i])
    decreases n
  {
    if i < n - 1 {
      EncodedItem(num, f, x, n - 1, i);
    }
  }

  lemma {:induction false} EncodedLeafConforms(num: Numerics, f: Field, e: seq<Byte>)
    requires num.Exact() && FieldSized(f) && |e| == ElementLength(f)
    requires f.kind.StructKind? ==> IsInstance(e, f.kind.nested) && KeysDistinct(f.kind.nested)
    requires LeafTerminated(f, e)
    ensures EncodeElement(num, f, e).Success?
    ensures ElementConforms(num, f, EncodeElement(num, f, e).value)
            <==> (f.kind.StructKind? ==> CountsFit(f.kind.nested))
    decreases f, 0
  {
    ElementEncodesIffSized(num, f, e);
    if f.kind.StructKind? {
      EncodedConforms(num, f.kind.nested, e);
    } else if f.kind.UnsignedKind? {
      assert !num.negative(num.ofUnsigned(e));
    }
  }

  // A successful decode of an encoded tree reproduces it.

  /** Encoding a field looks at nothing outside the field. */
  lemma {:induction false} EncodeFieldLocal(num: Numerics, f: Field, x: seq<Byte>, y: seq<Byte>)
    requires Holds(x, f) && Holds(y, f) && |x| == |y|
    requires forall o :: f.offset <= o < f.offset + Extent(f) ==> x[o] == y[o]
    ensures EncodeField(num, f, x) == EncodeField(num, f, y)
  {
    forall i | 0 <= i < f.elementCount ensures Element(f, x, i) == Element(f, y, i) {
      ElementInside(f, |x|, i);
    }
    if !Single(f) {
      EncodeElementsLocal(num, f, x, y, f.elementCount);
    }
  }

  lemma {:induction false} EncodeElementsLocal(num: Numerics, f: Field, x: seq<Byte>, y: seq<Byte>, n: nat)
    requires Holds(x, f) && Holds(y, f) && n <= f.elementCount
    requires forall i :: 0 <= i < n ==> Element(f, x, i) == Element(f, y, i)
    ensures EncodeElements(num, f, x, n) == EncodeElements(num, f, y, n)
    decreases n
  {
    if n > 0 {
      EncodeElementsLocal(num, f, x, y, n - 1);
    }
  }

  /** Decoding a field writes nothing outside the field. */
  lemma DecodeFieldLocal(num: Numerics, f: Field, members: seq<Member>, y: seq<Byte>, o: nat)
    requires Holds(y, f) && o < |y| && !(f.offset <= o < f.offset + Extent(f))
    ensures DecodeField(num, f, members, y).bytes[o] == y[o]
  {
    if FieldTouched(f, members, o) {
      FieldTouchedInside(f, |y|, members, o);
    }
    FieldFrame(num, f, members, y, o);
  }

  lemma {:induction false} ReencodesSame(num: Numerics, d: Descriptor, x: seq<Byte>, y: seq<Byte>)
    requires num.Exact() && IsInstance(x, d) && IsInstance(y, d) && KeysDistinct(d) && Apart(d)
    requires EncodeStruct(num, d, x).Success?
    requires DecodeStruct(num, d, EncodeStruct(num, d, x).value, y).status == Ok
    ensures EncodeStruct(num, d, DecodeStruct(num, d, EncodeStruct(num, d, x).value, y).bytes)
            == EncodeStruct(num, d, x)
    decreases d, 1
  {
    var members := EncodeFields(num, d, x, |d.fields|).value;
    FieldsReencode(num, d, x, y, members, |d.fields|);
    EncodeFieldsPointwise(num, d, x, DecodeFields(num, d, members, y, |d.fields|).bytes, |d.fields|);
  }

  lemma {:induction false} EncodeFieldsPointwise(num: Numerics, d: Descriptor, x: seq<Byte>, y: seq<Byte>, n: nat)
    requires IsInstance(x, d) && IsInstance(y, d) && n <= |d.fields|
    requires forall k :: 0 <= k < n && !Ignored(d.fields[k]) ==>
               EncodeField(num, d.fields[k], x) == EncodeField(num, d.fields[k], y)
    ensures EncodeFields(num, d, x, n) == EncodeFields(num, d, y, n)
    decreases n
  {
    if n > 0 {
      EncodeFieldsPointwise(num, d, x, y, n - 1);
    }
  }

  /** Decoding one field leaves the encoding of every field apart from it as it was. */
  lemma OtherFieldKept(num: Numerics, f: Field, h: Field, members: seq<Member>, y: seq<Byte>)
    requires Holds(y, f) && Holds(y, h) && Disjoint(h, f)
    ensures EncodeField(num, h, DecodeField(num, f, members, y).bytes) == EncodeField(num, h, y)
  {
    var after := DecodeField(num, f, members, y).bytes;
    forall o | h.offset <= o < h.offset + Extent(h) ensures after[o] == y[o] {
      DecodeFieldLocal(num, f, members, y, o);
    }
    EncodeFieldLocal(num, h, after, y);
  }

  lemma {:induction false} FieldsReencode(num: Numerics, d: Descriptor, x: seq<Byte>, y: seq<Byte>,
                                          members: seq<Member>, n: nat)
    requires num.Exact() && IsInstance(x, d) && IsInstance(y, d) && KeysDistinct(d) && Apart(d) && n <= |d.fields|
    requires EncodeFields(num, d, x, |d.fields|) == Success(members)
    requires DecodeFields(num, d, members, y, n).status == Ok
    ensures forall k :: 0 <= k < n && !Ignored(d.fields[k]) ==>
              EncodeField(num, d.fields[k], DecodeFields(num, d, members, y, n).bytes)
                == EncodeField(num, d.fields[k], x)
    decreases d, 0, n
  {
    if n > 0 {
      var f, before := d.fields[n - 1], DecodeFields(num, d, members, y, n - 1).bytes;
      FieldsReencode(num, d, x, y, members, n - 1);
      if !Ignored(f) {
        LookupEncoded(num, d, x, |d.fields|, JsonKey(f));
        FieldReencodes(num, f, x, before, members);
        forall k | 0 <= k < n - 1 && !Ignored(d.fields[k])
          ensures EncodeField(num, d.fields[k], DecodeField(num, f, members, before).bytes)
                  == EncodeField(num, d.fields[k], x)
        {
          OtherFieldKept(num, f, d.fields[k], members, before);
        }
      }
    }
  }

  lemma {:induction false} FieldReencodes(num: Numerics, f: Field, x: seq<Byte>, y: seq<Byte>, members: seq<Member>)
    requires num.Exact() && Holds(x, f) && Holds(y, f) && !Ignored(f) && |x| == |y|
    requires f.kind.StructKind? ==> KeysDistinct(f.kind.nested) && Apart(f.kind.nested)
    requires EncodeField(num, f, x).Success? && Lookup(members, JsonKey(f)) == Some(EncodeField(num, f, x).value)
    requires DecodeField(num, f, members, y).status == Ok
    ensures EncodeField(num, f, DecodeField(num, f, members, y).bytes) == EncodeField(num, f, x)
    decreases f, 3
  {
    if Single(f) {
      LeafReencodes(num, f, Element(f, x, 0), y, 0);
    } else {
      var items := EncodeElements(num, f, x, f.elementCount).value;
      var after := DecodeElements(num, f, items, y, f.elementCount).bytes;
      LengthMatchesMeans(items, f.elementCount);
      assert DecodeField(num, f, members, y).bytes == after;
      ElementsReencode(num, f, x, y, items, f.elementCount);
      assert items[..f.elementCount] == items;
      ItemsDetermineEncoding(num, f, after, f.elementCount, items);
    }
  }

  lemma {:induction false} ItemsDetermineEncoding(num: Numerics, f: Field, y: seq<Byte>, n: nat, items: seq<Json>)
    requires Holds(y, f) && n <= f.elementCount && n <= |items|
    requires forall i :: 0 <= i < n ==> EncodeElement(num, f, Element(f, y, i)) == Success(items[i])
    ensures EncodeElements(num, f, y, n) == Success(items[..n])
    decreases n
  {
    if n > 0 {
      ItemsDetermineEncoding(num, f, y, n - 1, items);
      assert items[..n] == items[..n - 1] + [items[n - 1]];
    }
  }

  /** Decoding one element leaves the bytes of an earlier one as they were. */
  lemma EarlierElementKept(num: Numerics, f: Field, item: Json, y: seq<Byte>, i: nat, n: nat)
    requires Holds(y, f) && !f.kind.CharArrayKind? && i < n < f.elementCount
    ensures Element(f, DecodeElementAt(num, f, item, y, n).bytes, i) == Element(f, y, i)
  {
    ElementsApart(f, i, n);
    ElementInside(f, |y|, n);
  }

  lemma {:induction false} ElementsReencode(num: Numerics, f: Field, x: seq<Byte>, y: seq<Byte>, items: seq<Json>,
                                            n: nat)
    requires num.Exact() && Holds(x, f) && Holds(y, f) && !Single(f) && |x| == |y| && n <= f.elementCount
    requires f.kind.StructKind? ==> KeysDistinct(f.kind.nested) && Apart(f.kind.nested)
    requires EncodeElements(num, f, x, f.elementCount) == Success(items)
    requires DecodeElements(num, f, items, y, n).status == Ok
    ensures forall i :: 0 <= i < n ==>
              EncodeElement(num, f, Element(f, DecodeElements(num, f, items, y, n).bytes, i)) == Success(items[i])
    decreases f, 2, n
  {
    if n > 0 {
      var before := DecodeElements(num, f, items, y, n - 1).bytes;
      var after := DecodeElements(num, f, items, y, n).bytes;
      ElementsReencode(num, f, x, y, items, n - 1);
      EncodedItem(num, f, x, f.elementCount, n - 1);
      LeafReencodes(num, f, Element(f, x, n - 1), before, n - 1);
      assert after == DecodeElementAt(num, f, items[n - 1], before, n - 1).bytes;
      forall i | 0 <= i < n - 1 ensures Element(f, after, i) == Element(f, before, i) {
        EarlierElementKept(num, f, items[n - 1], before, i, n - 1);
      }
    }
  }

  /** Decoding the item of one element in place makes that element encode to the same item. */
  lemma {:induction false} LeafReencodes(num: Numerics, f: Field, e: seq<Byte>, y: seq<Byte>, i: nat)
    requires num.Exact() && Holds(y, f) && i < f.elementCount && |e| == ElementLength(f)
    requires f.kind.StructKind? ==> IsInstance(e, f.kind.nested) && KeysDistinct(f.kind.nested) && Apart(f.kind.nested)
    requires EncodeElement(num, f, e).Success?
    requires DecodeElementAt(num, f, EncodeElement(num, f, e).value, y, i).status == Ok
    ensures EncodeElement(num, f, Element(f, DecodeElementAt(num, f, EncodeElement(num, f, e).value, y, i).bytes, i))
            == EncodeElement(num, f, e)
    decreases f, 1
  {
    ElementInside(f, |y|, i);
    var item, before := EncodeElement(num, f, e).value, Element(f, y, i);
    var after := DecodeElement(num, f, item, before).bytes;
    assert Element(f, DecodeElementAt(num, f, item, y, i).bytes, i) == after;
    match f.kind
    case StructKind(nested) => ReencodesSame(num, nested, e, before);
    case IntKind => assert num.toInt(num.ofInt(e)) == e;
    case UnsignedKind => assert num.toUnsigned(num.ofUnsigned(e)) == e;
    case FloatKind => assert num.toFloat(num.ofFloat(e)) == e;
    case DoubleKind =>
    case CharArrayKind => CStringWritten(item.text, before[|item.text| + 1..]);
  }

  lemma {:induction false} CStringWritten(text: CText, rest: seq<Byte>)
    ensures CString(text + [0] + rest) == text
  {
    StrLenWritten(text, rest);
  }

  lemma {:induction false} StrLenWritten(text: CText, rest: seq<Byte>)
    ensures StrLen(text + [0] + rest) == |text|
  {
    if text != [] {
      assert (text + [0] + rest)[1..] == text[1..] + [0] + rest;
      StrLenWritten(text[1..], rest);
    }
  }

  // ---- The round trip ----

  /**
    Decoding the encoding of `x` into any instance `y` succeeds exactly when every
    array length fits an `int`. Then `y` agrees with `x` on every leaf, encodes to the
    same tree, and keeps every byte of its ignored fields and of its padding and string tails.
   */
  lemma RoundTrip(num: Numerics, d: Descriptor, x: seq<Byte>, y: seq<Byte>)
    requires num.Exact() && IsInstance(x, d) && IsInstance(y, d)
    requires Sized(d) && KeysDistinct(d) && Apart(d) && Terminated(d, x)
    ensures EncodeStruct(num, d, x).Success?
    ensures var tree := EncodeStruct(num, d, x).value;
            var after := DecodeStruct(num, d, tree, y);
            && (after.status == Ok <==> CountsFit(d))
            && (after.status == Ok ==>
                SameLeaves(d, x, after.bytes) && EncodeStruct(num, d, after.bytes) == Success(tree))
            && (forall o :: 0 <= o < |y| && (IgnoredByte(d, o) || !Touched(d, tree, o)) ==> after.bytes[o] == y[o])
  {
    EncodedConforms(num, d, x);
    var tree := EncodeStruct(num, d, x).value;
    var after := DecodeStruct(num, d, tree, y);
    DecodesIffConforms(num, d, tree, y);
    if after.status == Ok {
      ReencodesSame(num, d, x, y);
      SameTreeIffSameLeaves(num, d, x, after.bytes);
    }
    forall o | 0 <= o < |y| && (IgnoredByte(d, o) || !Touched(d, tree, o)) ensures after.bytes[o] == y[o] {
      if IgnoredByte(d, o) {
        IgnoredNeverTouched(d, tree, o);
      }
      DecodeFrame(num, d, tree, y, o);
    }
  }

  /** One `int` array with one element more than an `int` can count. */
  function LongArray(): Descriptor {
    Descriptor("log", 0x2_0000_0000, [Field("entries", IntKind, 0, 4, 0x8000_0000, 0, [])])
  }

  /** It encodes, but no instance of it can be loaded again. */
  lemma LongArrayNotLoadable(num: Numerics, x: seq<Byte>, y: seq<Byte>)
    requires num.Exact() && |x| == |y| == LongArray().size
    ensures IsInstance(x, LongArray()) && EncodeStruct(num, LongArray(), x).Success?
    ensures DecodeStruct(num, LongArray(), EncodeStruct(num, LongArray(), x).value, y).status != Ok
  {
    var d := LongArray();
    var f := d.fields[0];
    assert FieldLayout(f, d.size) && f in d.fields && !FieldCountFits(f) && FieldSized(f);
    EncodedConforms(num, d, x);
    DecodesIffConforms(num, d, EncodeStruct(num, d, x).value, y);
  }
}
