/** What an instance holds after a tree has been decoded into it, said without running the decoder. */
module JsonContent {
  import opened Types
  import opened JsonCodec
  import opened JsonFrame
  import opened JsonRoundTrip

  /** Every leaf of the instance that `json` has an item for holds that item's value. */
  ghost predicate Carries(num: Numerics, d: Descriptor, json: Json, bytes: seq<Byte>)
    requires IsInstance(bytes, d)
    decreases d, 1
  {
    json.Object? && forall k :: 0 <= k < |d.fields| ==> FieldCarries(num, d.fields[k], json.members, bytes)
  }

  ghost predicate FieldCarries(num: Numerics, f: Field, members: seq<Member>, bytes: seq<Byte>)
    requires Holds(bytes, f)
    decreases f, 1
  {
    Ignored(f) ||
    match Lookup(members, JsonKey(f))
    case None => true
    case Some(item) =>
      if Single(f) then LeafCarries(num, f, item, Element(f, bytes, 0))
      else
        && item.Array? && f.elementCount <= |item.items|
        && forall i :: 0 <= i < f.elementCount ==> LeafCarries(num, f, item.items[i], Element(f, bytes, i))
  }

  ghost predicate LeafCarries(num: Numerics, f: Field, item: Json, e: seq<Byte>)
    requires |e| == ElementLength(f) && (f.kind.StructKind? ==> IsInstance(e, f.kind.nested))
    decreases f, 0
  {
    match f.kind
    case IntKind => item.Number? && e == num.toInt(item.number)
    case UnsignedKind => item.Number? && !num.negative(item.number) && e == num.toUnsigned(item.number)
    case FloatKind => item.Number? && e == num.toFloat(item.number)
    case DoubleKind => item.Number? && e == item.number
    case CharArrayKind => item.Text? && item.text + [0] <= e
    case StructKind(nested) => Carries(num, nested, item, e)
  }

  // ---- A successful decode carries the tree ----

  /** What a field carries depends on the field's own bytes only. */
  lemma CarriesLocal(num: Numerics, f: Field, members: seq<Member>, x: seq<Byte>, y: seq<Byte>)
    requires Holds(x, f) && Holds(y, f) && |x| == |y| && FieldCarries(num, f, members, x)
    requires forall o :: f.offset <= o < f.offset + Extent(f) ==> x[o] == y[o]
    ensures FieldCarries(num, f, members, y)
  {
    forall i | 0 <= i < f.elementCount ensures Element(f, x, i) == Element(f, y, i) {
      ElementInside(f, |x|, i);
    }
  }

  lemma {:induction false} DecodeCarries(num: Numerics, d: Descriptor, json: Json, y: seq<Byte>)
    requires IsInstance(y, d) && Apart(d) && DecodeStruct(num, d, json, y).status == Ok
    ensures Carries(num, d, json, DecodeStruct(num, d, json, y).bytes)
    decreases d, 1
  {
    FieldsCarry(num, d, json.members, y, |d.fields|);
  }

  lemma {:induction false} FieldsCarry(num: Numerics, d: Descriptor, members: seq<Member>, y: seq<Byte>, n: nat)
    requires IsInstance(y, d) && Apart(d) && n <= |d.fields| && DecodeFields(num, d, members, y, n).status == Ok
    ensures forall k :: 0 <= k < n ==>
              FieldCarries(num, d.fields[k], members, DecodeFields(num, d, members, y, n).bytes)
    decreases d, 0, n
  {
    if n > 0 {
      FieldsCarry(num, d, members, y, n - 1);
      var f, before := d.fields[n - 1], DecodeFields(num, d, members, y, n - 1).bytes;
      FieldCarried(num, f, members, before);
      var after := DecodeField(num, f, members, before).bytes;
      forall k | 0 <= k < n - 1 ensures FieldCarries(num, d.fields[k], members, after) {
        if !Ignored(d.fields[k]) {
          OtherFieldCarries(num, f, d.fields[k], members, before);
        }
      }
    }
  }

  lemma OtherFieldCarries(num: Numerics, f: Field, h: Field, members: seq<Member>, y: seq<Byte>)
    requires Holds(y, f) && Holds(y, h) && Disjoint(h, f) && FieldCarries(num, h, members, y)
    ensures FieldCarries(num, h, members, DecodeField(num, f, members, y).bytes)
  {
    var after := DecodeField(num, f, members, y).bytes;
    forall o | h.offset <= o < h.offset + Extent(h) ensures y[o] == after[o] {
      DecodeFieldLocal(num, f, members, y, o);
    }
    CarriesLocal(num, h, members, y, after);
  }

  lemma {:induction false} FieldCarried(num: Numerics, f: Field, members: seq<Member>, y: seq<Byte>)
    requires Holds(y, f) && (!Ignored(f) && f.kind.StructKind? ==> Apart(f.kind.nested))
    requires DecodeField(num, f, members, y).status == Ok
    ensures FieldCarries(num, f, members, DecodeField(num, f, members, y).bytes)
    decreases f, 3
  {
    var found := Lookup(members, JsonKey(f));
    if !Ignored(f) && found.Some? {
      if Single(f) {
        LeafCarried(num, f, found.value, y, 0);
      } else {
        LengthMatchesMeans(found.value.items, f.elementCount);
        ElementsCarry(num, f, found.value.items, y, f.elementCount);
      }
    }
  }

  lemma {:induction false} ElementsCarry(num: Numerics, f: Field, items: seq<Json>, y: seq<Byte>, n: nat)
    requires Holds(y, f) && !Single(f) && n <= f.elementCount && n <= |items|
    requires f.kind.StructKind? ==> Apart(f.kind.nested)
    requires DecodeElements(num, f, items, y, n).status == Ok
    ensures forall i :: 0 <= i < n ==>
              LeafCarries(num, f, items[i], Element(f, DecodeElements(num, f, items, y, n).bytes, i))
    decreases f, 2, n
  {
    if n > 0 {
      var before := DecodeElements(num, f, items, y, n - 1).bytes;
      var after := DecodeElements(num, f, items, y, n).bytes;
      ElementsCarry(num, f, items, y, n - 1);
      LeafCarried(num, f, items[n - 1], before, n - 1);
      assert after == DecodeElementAt(num, f, items[n - 1], before, n - 1).bytes;
      forall i | 0 <= i < n - 1 ensures Element(f, after, i) == Element(f, before, i) {
        EarlierElementKept(num, f, items[n - 1], before, i, n - 1);
      }
    }
  }

  lemma {:induction false} LeafCarried(num: Numerics, f: Field, item: Json, y: seq<Byte>, i: nat)
    requires Holds(y, f) && i < f.elementCount && (f.kind.StructKind? ==> Apart(f.kind.nested))
    requires DecodeElementAt(num, f, item, y, i).status == Ok
    ensures LeafCarries(num, f, item, Element(f, DecodeElementAt(num, f, item, y, i).bytes, i))
    decreases f, 1
  {
    ElementInside(f, |y|, i);
    var e := Element(f, y, i);
    assert Element(f, DecodeElementAt(num, f, item, y, i).bytes, i) == DecodeElement(num, f, item, e).bytes;
    if f.kind.StructKind? {
      DecodeCarries(num, f.kind.nested, item, e);
    }
  }

  // ---- Nothing else does ----

  /** Two instances that carry the same tree agree on every byte the tree reaches. */
  lemma {:induction false} TouchedDetermined(num: Numerics, d: Descriptor, json: Json, x: seq<Byte>, y: seq<Byte>,
                                             o: nat)
    requires IsInstance(x, d) && IsInstance(y, d) && Carries(num, d, json, x) && Carries(num, d, json, y)
    requires o < d.size && Touched(d, json, o)
    ensures x[o] == y[o]
    decreases d
  {
    var k := TouchedInsideField(d, json, o);
    var f := d.fields[k];
    var i, own := CarriedElement(num, f, json.members, x, y, o);
    ElementInside(f, d.size, i);
    var at := o - ElementOffset(f, i);
    LeafTouchedInside(f, own, at);
    var p, q := Element(f, x, i), Element(f, y, i);
    assert x[o] == p[at] && y[o] == q[at];
    match f.kind
    case StructKind(nested) => TouchedDetermined(num, nested, own, p, q, at);
    case CharArrayKind =>
      assert p[at] == (own.text + [0])[at] && q[at] == (own.text + [0])[at];
    case _ =>
  }

  /** The element through which byte `o` is reached, and the item both instances carry there. */
  lemma CarriedElement(num: Numerics, f: Field, members: seq<Member>, x: seq<Byte>, y: seq<Byte>, o: nat)
      returns (i: nat, own: Json)
    requires Holds(x, f) && Holds(y, f) && FieldTouched(f, members, o)
    requires FieldCarries(num, f, members, x) && FieldCarries(num, f, members, y)
    ensures i < f.elementCount && LeafTouched(f, own, o - ElementOffset(f, i))
    ensures LeafCarries(num, f, own, Element(f, x, i)) && LeafCarries(num, f, own, Element(f, y, i))
  {
    var item := Lookup(members, JsonKey(f)).value;
    i :| 0 <= i < f.elementCount && ElementTouched(f, item, i, o);
    own := if Single(f) then item else item.items[i];
  }

  /**
    The result of a successful decode is the one instance that carries the tree and
    keeps every byte the tree does not reach.
   */
  lemma DecodeIsTheCarrier(num: Numerics, d: Descriptor, json: Json, y: seq<Byte>, z: seq<Byte>)
    requires IsInstance(y, d) && IsInstance(z, d) && Apart(d) && Conforms(num, d, json)
    ensures DecodeStruct(num, d, json, y).bytes == z
            <==> Carries(num, d, json, z) && forall o :: 0 <= o < d.size && !Touched(d, json, o) ==> z[o] == y[o]
  {
    var after := DecodeStruct(num, d, json, y);
    DecodesIffConforms(num, d, json, y);
    DecodeCarries(num, d, json, y);
    forall o | 0 <= o < d.size && !Touched(d, json, o) ensures after.bytes[o] == y[o] {
      DecodeFrame(num, d, json, y, o);
    }
    if Carries(num, d, json, z) && forall o :: 0 <= o < d.size && !Touched(d, json, o) ==> z[o] == y[o] {
      forall o | 0 <= o < d.size ensures after.bytes[o] == z[o] {
        if Touched(d, json, o) {
          TouchedDetermined(num, d, json, after.bytes, z, o);
        }
      }
    }
  }

  // ---- An instance carries its own encoding ----

  lemma {:induction false} EncodedCarried(num: Numerics, d: Descriptor, x: seq<Byte>)
    requires num.Exact() && IsInstance(x, d) && Sized(d) && KeysDistinct(d) && Terminated(d, x)
    ensures EncodeStruct(num, d, x).Success? && Carries(num, d, EncodeStruct(num, d, x).value, x)
    decreases d, 1
  {
    EncodesIffSized(num, d, x);
    var members := EncodeFields(num, d, x, |d.fields|).value;
    forall k | 0 <= k < |d.fields| ensures FieldCarries(num, d.fields[k], members, x) {
      if !Ignored(d.fields[k]) {
        LookupEncoded(num, d, x, |d.fields|, JsonKey(d.fields[k]));
        EncodedFieldCarried(num, d.fields[k], x, members);
      }
    }
  }

  lemma {:induction false} EncodedFieldCarried(num: Numerics, f: Field, x: seq<Byte>, members: seq<Member>)
    requires num.Exact() && Holds(x, f) && FieldSized(f) && FieldTerminated(f, x)
    requires f.kind.StructKind? ==> KeysDistinct(f.kind.nested)
    requires EncodeField(num, f, x).Success? && Lookup(members, JsonKey(f)) == Some(EncodeField(num, f, x).value)
    ensures FieldCarries(num, f, members, x)
    decreases f, 1
  {
    if Single(f) {
      EncodedLeafCarried(num, f, Element(f, x, 0));
    } else {
      var items := EncodeElements(num, f, x, f.elementCount).value;
      forall i | 0 <= i < f.elementCount ensures LeafCarries(num, f, items[i], Element(f, x, i)) {
        EncodedItem(num, f, x, f.elementCount, i);
        EncodedLeafCarried(num, f, Element(f, x, i));
      }
    }
  }

  lemma {:induction false} EncodedLeafCarried(num: Numerics, f: Field, e: seq<Byte>)
    requires num.Exact() && FieldSized(f) && |e| == ElementLength(f)
    requires f.kind.StructKind? ==> IsInstance(e, f.kind.nested) && KeysDistinct(f.kind.nested)
    requires LeafTerminated(f, e)
    ensures EncodeElement(num, f, e).Success? && LeafCarries(num, f, EncodeElement(num, f, e).value, e)
    decreases f, 0
  {
    ElementEncodesIffSized(num, f, e);
    match f.kind
    case StructKind(nested) => EncodedCarried(num, nested, e);
    case IntKind => assert num.toInt(num.ofInt(e)) == e;
    case UnsignedKind => assert num.toUnsigned(num.ofUnsigned(e)) == e && !num.negative(num.ofUnsigned(e));
    case FloatKind => assert num.toFloat(num.ofFloat(e)) == e;
    case DoubleKind =>
    case CharArrayKind => assert e[..StrLen(e) + 1] == CString(e) + [0];
  }

  /** Saving an instance and loading it back into itself changes not a single byte. */
  lemma OwnEncodingIsNeutral(num: Numerics, d: Descriptor, x: seq<Byte>)
    requires num.Exact() && IsInstance(x, d)
    requires Sized(d) && KeysDistinct(d) && Apart(d) && Terminated(d, x) && CountsFit(d)
    ensures EncodeStruct(num, d, x).Success?
    ensures DecodeStruct(num, d, EncodeStruct(num, d, x).value, x) == Decoded(Ok, x)
  {
    EncodedConforms(num, d, x);
    EncodedCarried(num, d, x);
    var tree := EncodeStruct(num, d, x).value;
    DecodesIffConforms(num, d, tree, x);
    DecodeIsTheCarrier(num, d, tree, x, x);
  }
}
