/** The shape of the JSON the codec writes and reads, field by field, and the codes it answers. */
module JsonShape {
  import opened Types
  import opened JsonCodec

  // ---- What is written ----

  /** A char array, or a field of one element, is written as the value itself. */
  lemma OneValueWritten(num: Numerics, f: Field, x: seq<Byte>)
    requires Holds(x, f) && (f.kind.CharArrayKind? || f.elementCount == 1)
    ensures EncodeField(num, f, x) == EncodeElement(num, f, Element(f, x, 0))
  {
  }

  /** Any other field is written as an array with one item for each element, in order. */
  lemma ArrayWritten(num: Numerics, f: Field, x: seq<Byte>)
    requires Holds(x, f) && !f.kind.CharArrayKind? && f.elementCount > 1
    ensures match EncodeField(num, f, x)
            case Failure(_) => exists i :: 0 <= i < f.elementCount && EncodeElement(num, f, Element(f, x, i)).Failure?
            case Success(item) =>
              && item.Array? && |item.items| == f.elementCount
              && forall i :: 0 <= i < f.elementCount ==>
                  EncodeElement(num, f, Element(f, x, i)) == Success(item.items[i])
  {
    ItemsWritten(num, f, x, f.elementCount);
  }

  lemma {:induction false} ItemsWritten(num: Numerics, f: Field, x: seq<Byte>, n: nat)
    requires Holds(x, f) && n <= f.elementCount
    ensures match EncodeElements(num, f, x, n)
            case Failure(_) => exists i :: 0 <= i < n && EncodeElement(num, f, Element(f, x, i)).Failure?
            case Success(items) =>
              forall i :: 0 <= i < n ==> EncodeElement(num, f, Element(f, x, i)) == Success(items[i])
    decreases n
  {
    if n > 0 {
      ItemsWritten(num, f, x, n - 1);
    }
  }

  /** The fields before the `n`-th that take part in JSON, by position. */
  function Active(d: Descriptor, n: nat): (r: seq<nat>)
    requires n <= |d.fields|
    ensures forall m :: 0 <= m < |r| ==> r[m] < n && !Ignored(d.fields[r[m]])
    ensures forall k :: 0 <= k < n && !Ignored(d.fields[k]) ==> k in r
    ensures forall m, p :: 0 <= m < p < |r| ==> r[m] < r[p]
  {
    if n == 0 then []
    else if Ignored(d.fields[n - 1]) then Active(d, n - 1)
    else Active(d, n - 1) + [n - 1]
  }

  /** An object has one member for each field that takes part, in declaration order, and no other. */
  lemma {:induction false} MembersWritten(num: Numerics, d: Descriptor, x: seq<Byte>, n: nat)
    requires IsInstance(x, d) && n <= |d.fields| && EncodeFields(num, d, x, n).Success?
    ensures var members, active := EncodeFields(num, d, x, n).value, Active(d, n);
            && |members| == |active|
            && forall m :: 0 <= m < |active| ==>
                 && members[m].key == JsonKey(d.fields[active[m]])
                 && EncodeField(num, d.fields[active[m]], x) == Success(members[m].value)
    decreases n
  {
    if n > 0 {
      MembersWritten(num, d, x, n - 1);
    }
  }

  /** Encoding fails with one code only. */
  lemma {:induction false} EncodeFailsAsUnsupported(num: Numerics, d: Descriptor, x: seq<Byte>, n: nat)
    requires IsInstance(x, d) && n <= |d.fields|
    ensures EncodeFields(num, d, x, n).Failure? ==> EncodeFields(num, d, x, n).status == Unsupported
    decreases d, 0, n
  {
    if n > 0 {
      EncodeFailsAsUnsupported(num, d, x, n - 1);
      var f := d.fields[n - 1];
      if f.elementCount == 1 || f.kind.CharArrayKind? {
        ElementFailsAsUnsupported(num, f, Element(f, x, 0));
      } else {
        ElementsFailAsUnsupported(num, f, x, f.elementCount);
      }
    }
  }

  lemma {:induction false} ElementsFailAsUnsupported(num: Numerics, f: Field, x: seq<Byte>, n: nat)
    requires Holds(x, f) && n <= f.elementCount
    ensures EncodeElements(num, f, x, n).Failure? ==> EncodeElements(num, f, x, n).status == Unsupported
    decreases f, 1, n
  {
    if n > 0 {
      ElementsFailAsUnsupported(num, f, x, n - 1);
      ElementFailsAsUnsupported(num, f, Element(f, x, n - 1));
    }
  }

  lemma {:induction false} ElementFailsAsUnsupported(num: Numerics, f: Field, e: seq<Byte>)
    requires |e| == ElementLength(f) && (f.kind.StructKind? ==> IsInstance(e, f.kind.nested))
    ensures EncodeElement(num, f, e).Failure? ==> EncodeElement(num, f, e).status == Unsupported
    decreases f, 0
  {
    if f.kind.StructKind? {
      EncodeFailsAsUnsupported(num, f.kind.nested, e, |f.kind.nested.fields|);
    }
  }

  // ---- What is read ----

  /** A char array, or a field of one element, is read from the value itself. */
  lemma OneValueRead(num: Numerics, f: Field, members: seq<Member>, y: seq<Byte>, item: Json)
    requires Holds(y, f) && !Ignored(f) && Lookup(members, JsonKey(f)) == Some(item)
    requires f.kind.CharArrayKind? || f.elementCount == 1
    ensures DecodeField(num, f, members, y) == DecodeElementAt(num, f, item, y, 0)
    ensures DecodeField(num, f, members, y).status == Ok <==> ElementConforms(num, f, item)
  {
    ElementDecodesIffConforms(num, f, item, Element(f, y, 0));
  }

  /**
    Any other field is read from an array of exactly as many items, all of which conform;
    an array longer than an `int` can count is counted modulo 2^32.
   */
  lemma ArrayRead(num: Numerics, f: Field, members: seq<Member>, y: seq<Byte>, item: Json)
    requires Holds(y, f) && !Ignored(f) && Lookup(members, JsonKey(f)) == Some(item)
    requires !f.kind.CharArrayKind? && f.elementCount > 1
    ensures DecodeField(num, f, members, y).status == Ok <==>
              && item.Array? && f.elementCount <= INT_MAX && |item.items| % 0x1_0000_0000 == f.elementCount
              && forall i :: 0 <= i < f.elementCount && i < |item.items| ==> ElementConforms(num, f, item.items[i])
    ensures item.Array? && |item.items| <= INT_MAX ==>
              (DecodeField(num, f, members, y).status == Ok <==>
                 |item.items| == f.elementCount && forall i <- item.items :: ElementConforms(num, f, i))
    ensures !item.Array? || (|item.items| <= INT_MAX && |item.items| != f.elementCount) ==>
              DecodeField(num, f, members, y) == Decoded(InvalidArgument, y)
  {
    FieldDecodesIffConforms(num, f, members, y);
    if item.Array? {
      LengthMatchesMeans(item.items, f.elementCount);
    }
  }

  /** An array of three integers. */
  function Triple(): Field {
    Field("v", IntKind, 0, 4, 3, 0, [])
  }

  /** Four items are refused, and so are two; the instance keeps its bytes. */
  lemma OtherLengthsRefused(num: Numerics, n: Double, y: seq<Byte>)
    requires |y| == 12
    ensures Holds(y, Triple())
    ensures DecodeField(num, Triple(), [Member("v", Array([Number(n), Number(n), Number(n), Number(n)]))], y)
            == Decoded(InvalidArgument, y)
    ensures DecodeField(num, Triple(), [Member("v", Array([Number(n), Number(n)]))], y) == Decoded(InvalidArgument, y)
    ensures DecodeField(num, Triple(), [Member("v", Array([Number(n), Number(n), Number(n)]))], y).status == Ok
  {
    var one := Number(n);
    ArrayRead(num, Triple(), [Member("v", Array([one, one, one, one]))], y, Array([one, one, one, one]));
    ArrayRead(num, Triple(), [Member("v", Array([one, one]))], y, Array([one, one]));
    ArrayRead(num, Triple(), [Member("v", Array([one, one, one]))], y, Array([one, one, one]));
  }

  // ---- Which key ----

  ghost predicate HasAttribute(f: Field, key: string) {
    exists a :: a in f.attributes && a.key == key
  }

  lemma {:induction false} FoundIffPresent(attributes: seq<Attribute>, key: string)
    ensures FindAttribute(attributes, key).Some? <==> exists a :: a in attributes && a.key == key
    ensures FindAttribute(attributes, key).Some? ==>
              FindAttribute(attributes, key).value in attributes && FindAttribute(attributes, key).value.key == key
  {
    if attributes != [] {
      FoundIffPresent(attributes[1..], key);
    }
  }

  /** Which attributes make a field ignored, required or renamed. */
  lemma AttributesDecide(f: Field)
    requires DistinctKeys(f.attributes)
    ensures Ignored(f) <==> HasAttribute(f, "json.ignore")
    ensures Required(f) <==> HasAttribute(f, "json.required")
    ensures forall v: string :: v != "" && Attribute("json.name", Some(v)) in f.attributes ==> JsonKey(f) == v
    ensures (forall v: string :: v != "" ==> Attribute("json.name", Some(v)) !in f.attributes) ==> JsonKey(f) == f.name
  {
    FoundIffPresent(f.attributes, "json.ignore");
    FoundIffPresent(f.attributes, "json.required");
    FoundIffPresent(f.attributes, "json.name");
    var found := FindAttribute(f.attributes, "json.name");
    if found.Some? {
      var i :| 0 <= i < |f.attributes| && f.attributes[i] == found.value;
      forall v: string | Attribute("json.name", Some(v)) in f.attributes
        ensures found.value == Attribute("json.name", Some(v)) {
        var j :| 0 <= j < |f.attributes| && f.attributes[j] == Attribute("json.name", Some(v));
        assert i == j;
      }
      assert found.value == Attribute("json.name", found.value.value);
    }
  }

  // ---- Which code ----

  /** An ignored field reads nothing; an absent one is an error exactly if it is required. */
  lemma AbsentField(num: Numerics, f: Field, members: seq<Member>, y: seq<Byte>)
    requires Holds(y, f) && (Ignored(f) || forall m <- members :: m.key != JsonKey(f))
    ensures DecodeField(num, f, members, y) == Decoded(if !Ignored(f) && Required(f) then MissingRequired else Ok, y)
  {
    LookupIsFirst(members, JsonKey(f));
  }

  /** A text that does not fit has a code of its own; every other unsuitable scalar has the same one. */
  lemma ScalarCode(num: Numerics, f: Field, item: Json, e: seq<Byte>)
    requires |e| == ElementLength(f) && !f.kind.StructKind? && !ElementConforms(num, f, item)
    ensures DecodeElement(num, f, item, e)
            == Decoded(if f.kind.CharArrayKind? && item.Text? then BufferTooSmall else InvalidArgument, e)
  {
  }

  /** Anything but an object is refused. */
  lemma NotAnObject(num: Numerics, d: Descriptor, json: Json, y: seq<Byte>)
    requires IsInstance(y, d) && !json.Object?
    ensures DecodeStruct(num, d, json, y) == Decoded(InvalidArgument, y)
  {
  }

  /** The code of a failed decode is that of the first field that fails, and nothing after it is read. */
  lemma {:induction false} FirstFault(num: Numerics, d: Descriptor, members: seq<Member>, y: seq<Byte>, n: nat)
      returns (k: nat)
    requires IsInstance(y, d) && n <= |d.fields| && DecodeFields(num, d, members, y, n).status != Ok
    ensures k < n && DecodeFields(num, d, members, y, k).status == Ok
    ensures DecodeFields(num, d, members, y, n)
            == DecodeField(num, d.fields[k], members, DecodeFields(num, d, members, y, k).bytes)
    decreases n
  {
    if DecodeFields(num, d, members, y, n - 1).status == Ok {
      k := n - 1;
    } else {
      k := FirstFault(num, d, members, y, n - 1);
    }
  }
}
