/**
  json/encode.c and json/decode.c, as functions on the bytes of one instance.
  The imperative forms that work in memory are in JsonMemory.dfy; what the two
  directions promise each other is in JsonRoundTrip.dfy.
 */
module JsonCodec {
  import opened Types

  /** The object representation of an `int`, `unsigned int` or `float`. */
  type Word = s: seq<Byte> | |s| == 4 witness [0, 0, 0, 0]

  /** The object representation of a `double`, which is also what a JSON number holds. */
  type Double = s: seq<Byte> | |s| == 8 witness [0, 0, 0, 0, 0, 0, 0, 0]

  /** The target's conversions between `double` and the narrower scalars. */
  datatype Numerics = Numerics(
    ofInt: Word -> Double,
    toInt: Double -> Word,
    ofUnsigned: Word -> Double,
    toUnsigned: Double -> Word,
    ofFloat: Word -> Double,
    toFloat: Double -> Word,
    negative: Double -> bool)
  {
    /** Widening to `double` loses nothing, and an `unsigned int` never widens to a negative. */
    ghost predicate Exact() {
      && (forall w :: toInt(ofInt(w)) == w)
      && (forall w :: toUnsigned(ofUnsigned(w)) == w && !negative(ofUnsigned(w)))
      && (forall w :: toFloat(ofFloat(w)) == w)
    }
  }

  /** A cJSON tree. */
  datatype Json =
    | Null
    | Bool(b: bool)
    | Number(number: Double)
    | Text(text: CText)
    | Array(items: seq<Json>)
    | Object(members: seq<Member>)

  datatype Member = Member(key: string, value: Json)

  datatype Encoded<+T> = Success(value: T) | Failure(status: Status)

  /** A decoder's answer, with the instance bytes as it leaves them. */
  datatype Decoded = Decoded(status: Status, bytes: seq<Byte>)

  // ---- Instance bytes ----

  /** `strlen`, stopping at the end of the buffer. */
  function StrLen(b: seq<Byte>): (n: nat)
    ensures n <= |b| && (forall i :: 0 <= i < n ==> b[i] != 0) && (n < |b| ==> b[n] == 0)
  {
    if b == [] || b[0] == 0 then 0 else 1 + StrLen(b[1..])
  }

  function CString(b: seq<Byte>): CText {
    b[..StrLen(b)]
  }

  /** `bytes` is an instance of a structure that holds `f`. */
  ghost predicate Holds(bytes: seq<Byte>, f: Field) {
    |bytes| <= SIZE_MAX && FieldLayout(f, |bytes|)
  }

  /** `bytes` is an instance of `d`. */
  ghost predicate IsInstance(bytes: seq<Byte>, d: Descriptor) {
    Layout(d) && |bytes| == d.size
  }

  /** The bytes of element `i`. */
  function Element(f: Field, bytes: seq<Byte>, i: nat): (e: seq<Byte>)
    requires Holds(bytes, f) && i < f.elementCount
    ensures |e| == ElementLength(f)
  {
    ElementInside(f, |bytes|, i);
    bytes[ElementOffset(f, i)..ElementOffset(f, i) + ElementLength(f)]
  }

  /** `bytes` with `e` written at `at`. */
  function Splice(bytes: seq<Byte>, at: nat, e: seq<Byte>): (r: seq<Byte>)
    requires at + |e| <= |bytes|
    ensures |r| == |bytes|
  {
    bytes[..at] + e + bytes[at + |e|..]
  }

  // ---- Fields and keys ----

  /** Written to JSON as one value, not as an array. */
  predicate Single(f: Field) {
    f.kind.CharArrayKind? || f.elementCount <= 1
  }

  predicate Ignored(f: Field) {
    FindAttribute(f.attributes, "json.ignore").Some?
  }

  predicate Required(f: Field) {
    FindAttribute(f.attributes, "json.required").Some?
  }

  /** `json_key`. */
  function JsonKey(f: Field): string {
    match FindAttribute(f.attributes, "json.name")
    case Some(a) => if a.value.Some? && a.value.value != "" then a.value.value else f.name
    case None => f.name
  }

  /** `cJSON_GetObjectItemCaseSensitive`: the first member with this key. */
  function Lookup(members: seq<Member>, key: string): (r: Option<Json>)
    ensures r.Some? ==> exists i :: 0 <= i < |members| && members[i].key == key && members[i].value == r.value
  {
    if members == [] then None
    else if members[0].key == key then Some(members[0].value)
    else Lookup(members[1..], key)
  }

  predicate IsFirst(members: seq<Member>, key: string, i: nat)
    requires i < |members|
  {
    members[i].key == key && forall j :: 0 <= j < i ==> members[j].key != key
  }

  /** The item found is the first with the key, and none is found only when no member has it. */
  lemma {:induction false} LookupIsFirst(members: seq<Member>, key: string)
    ensures Lookup(members, key).None? <==> forall i :: 0 <= i < |members| ==> members[i].key != key
    ensures forall i :: 0 <= i < |members| && IsFirst(members, key, i) ==>
              Lookup(members, key) == Some(members[i].value)
  {
    if members != [] {
      var rest := members[1..];
      LookupIsFirst(rest, key);
      assert forall i :: 0 < i < |members| ==> rest[i - 1] == members[i];
      forall i | 0 <= i < |members| && IsFirst(members, key, i)
        ensures Lookup(members, key) == Some(members[i].value)
      {
        if i > 0 {
          assert forall j :: 0 <= j < i - 1 ==> rest[j].key == members[j + 1].key;
          assert members[0].key != key && IsFirst(rest, key, i - 1);
        }
      }
    }
  }

  /** The conversion of a list length to `int` in `cJSON_GetArraySize`. */
  function ToInt(n: nat): int {
    (n + 0x8000_0000) % 0x1_0000_0000 - 0x8000_0000
  }

  /** The array-length test of the decoder passes. */
  predicate LengthMatches(items: seq<Json>, count: Size) {
    ToInt(|items|) >= 0 && ToInt(|items|) == count
  }

  /** The test is exact on lists an `int` can count; a longer list is counted modulo 2^32. */
  lemma LengthMatchesMeans(items: seq<Json>, count: Size)
    ensures LengthMatches(items, count) <==> count <= INT_MAX && |items| % 0x1_0000_0000 == count
    ensures |items| <= INT_MAX ==> (LengthMatches(items, count) <==> |items| == count)
    ensures LengthMatches(items, count) ==> count <= |items|
    ensures |items| == count ==> (LengthMatches(items, count) <==> count <= INT_MAX)
  {
    var wrapped := |items| % 0x1_0000_0000;
    assert (|items| + 0x8000_0000) % 0x1_0000_0000 == (wrapped + 0x8000_0000) % 0x1_0000_0000;
  }

  // ---- Encoding ----

  function EncodeScalar(num: Numerics, f: Field, e: seq<Byte>): Encoded<Json>
    requires |e| == ElementLength(f)
  {
    match f.kind
    case IntKind => if f.elementSize != 4 then Failure(Unsupported) else Success(Number(num.ofInt(e)))
    case UnsignedKind => if f.elementSize != 4 then Failure(Unsupported) else Success(Number(num.ofUnsigned(e)))
    case FloatKind => if f.elementSize != 4 then Failure(Unsupported) else Success(Number(num.ofFloat(e)))
    case DoubleKind => if f.elementSize != 8 then Failure(Unsupported) else Success(Number(e))
    case CharArrayKind => Success(Text(CString(e)))
    case StructKind(_) => Failure(InvalidArgument)
  }

  function EncodeElement(num: Numerics, f: Field, e: seq<Byte>): Encoded<Json>
    requires |e| == ElementLength(f) && (f.kind.StructKind? ==> IsInstance(e, f.kind.nested))
    decreases f, 0
  {
    if f.kind.StructKind? then EncodeStruct(num, f.kind.nested, e) else EncodeScalar(num, f, e)
  }

  /** The first `n` elements, in order, or the first failure. */
  function EncodeElements(num: Numerics, f: Field, bytes: seq<Byte>, n: nat): (r: Encoded<seq<Json>>)
    requires Holds(bytes, f) && n <= f.elementCount
    ensures r.Success? ==> |r.value| == n
    decreases f, 1, n
  {
    if n == 0 then Success([])
    else
      match EncodeElements(num, f, bytes, n - 1)
      case Failure(status) => Failure(status)
      case Success(items) =>
        match EncodeElement(num, f, Element(f, bytes, n - 1))
        case Failure(status) => Failure(status)
        case Success(item) => Success(items + [item])
  }

  function EncodeField(num: Numerics, f: Field, bytes: seq<Byte>): Encoded<Json>
    requires Holds(bytes, f)
    decreases f, 2
  {
    if Single(f) then EncodeElement(num, f, Element(f, bytes, 0))
    else
      match EncodeElements(num, f, bytes, f.elementCount)
      case Failure(status) => Failure(status)
      case Success(items) => Success(Array(items))
  }

  /** The members of the first `n` fields, ignored ones left out, or the first failure. */
  function EncodeFields(num: Numerics, d: Descriptor, bytes: seq<Byte>, n: nat): Encoded<seq<Member>>
    requires IsInstance(bytes, d) && n <= |d.fields|
    decreases d, 0, n
  {
    if n == 0 then Success([])
    else
      match EncodeFields(num, d, bytes, n - 1)
      case Failure(status) => Failure(status)
      case Success(members) =>
        var f := d.fields[n - 1];
        if Ignored(f) then Success(members)
        else
          match EncodeField(num, f, bytes)
          case Failure(status) => Failure(status)
          case Success(item) => Success(members + [Member(JsonKey(f), item)])
  }

  function EncodeStruct(num: Numerics, d: Descriptor, bytes: seq<Byte>): Encoded<Json>
    requires IsInstance(bytes, d)
    decreases d, 1
  {
    match EncodeFields(num, d, bytes, |d.fields|)
    case Failure(status) => Failure(status)
    case Success(members) => Success(Object(members))
  }

  // ---- Decoding ----

  function DecodeScalar(num: Numerics, f: Field, item: Json, e: seq<Byte>): (r: Decoded)
    requires |e| == ElementLength(f)
    ensures |r.bytes| == |e|
  {
    match f.kind
    case IntKind =>
      if f.elementSize != 4 || !item.Number? then Decoded(InvalidArgument, e) else Decoded(Ok, num.toInt(item.number))
    case UnsignedKind =>
      if f.elementSize != 4 || !item.Number? || num.negative(item.number) then Decoded(InvalidArgument, e)
      else Decoded(Ok, num.toUnsigned(item.number))
    case FloatKind =>
      if f.elementSize != 4 || !item.Number? then Decoded(InvalidArgument, e) else Decoded(Ok, num.toFloat(item.number))
    case DoubleKind =>
      if f.elementSize != 8 || !item.Number? then Decoded(InvalidArgument, e) else Decoded(Ok, item.number)
    case CharArrayKind =>
      if !item.Text? then Decoded(InvalidArgument, e)
      else if |item.text| >= f.charBufferSize then Decoded(BufferTooSmall, e)
      else Decoded(Ok, item.text + [0] + e[|item.text| + 1..])
    case StructKind(_) => Decoded(InvalidArgument, e)
  }

  function DecodeElement(num: Numerics, f: Field, item: Json, e: seq<Byte>): (r: Decoded)
    requires |e| == ElementLength(f) && (f.kind.StructKind? ==> IsInstance(e, f.kind.nested))
    ensures |r.bytes| == |e|
    decreases f, 0
  {
    if f.kind.StructKind? then DecodeStruct(num, f.kind.nested, item, e) else DecodeScalar(num, f, item, e)
  }

  /** One element decoded in place inside its parent. */
  function DecodeElementAt(num: Numerics, f: Field, item: Json, bytes: seq<Byte>, i: nat): (r: Decoded)
    requires Holds(bytes, f) && i < f.elementCount
    ensures |r.bytes| == |bytes|
    decreases f, 1
  {
    ElementInside(f, |bytes|, i);
    var r := DecodeElement(num, f, item, Element(f, bytes, i));
    Decoded(r.status, Splice(bytes, ElementOffset(f, i), r.bytes))
  }

  /** Elements 0 to `n` in order, stopping at the first failure. */
  function DecodeElements(num: Numerics, f: Field, items: seq<Json>, bytes: seq<Byte>, n: nat): (r: Decoded)
    requires Holds(bytes, f) && n <= f.elementCount && n <= |items|
    ensures |r.bytes| == |bytes|
    decreases f, 2, n
  {
    if n == 0 then Decoded(Ok, bytes)
    else
      var before := DecodeElements(num, f, items, bytes, n - 1);
      if before.status != Ok then before else DecodeElementAt(num, f, items[n - 1], before.bytes, n - 1)
  }

  function DecodeField(num: Numerics, f: Field, members: seq<Member>, bytes: seq<Byte>): (r: Decoded)
    requires Holds(bytes, f)
    ensures |r.bytes| == |bytes|
    decreases f, 3
  {
    if Ignored(f) then Decoded(Ok, bytes)
    else
      match Lookup(members, JsonKey(f))
      case None => Decoded(if Required(f) then MissingRequired else Ok, bytes)
      case Some(item) =>
        if Single(f) then DecodeElementAt(num, f, item, bytes, 0)
        else if !item.Array? || !LengthMatches(item.items, f.elementCount) then Decoded(InvalidArgument, bytes)
        else
          LengthMatchesMeans(item.items, f.elementCount);
          DecodeElements(num, f, item.items, bytes, f.elementCount)
  }

  /** Fields 0 to `n` in order, stopping at the first failure. */
  function DecodeFields(num: Numerics, d: Descriptor, members: seq<Member>, bytes: seq<Byte>, n: nat): (r: Decoded)
    requires IsInstance(bytes, d) && n <= |d.fields|
    ensures |r.bytes| == |bytes|
    decreases d, 0, n
  {
    if n == 0 then Decoded(Ok, bytes)
    else
      var before := DecodeFields(num, d, members, bytes, n - 1);
      if before.status != Ok then before else DecodeField(num, d.fields[n - 1], members, before.bytes)
  }

  function DecodeStruct(num: Numerics, d: Descriptor, json: Json, bytes: seq<Byte>): (r: Decoded)
    requires IsInstance(bytes, d)
    ensures |r.bytes| == |bytes|
    decreases d, 1
  {
    if !json.Object? then Decoded(InvalidArgument, bytes) else DecodeFields(num, d, json.members, bytes, |d.fields|)
  }

  // ---- When decoding succeeds ----

  /** The tree has the shape the descriptor asks for. No instance is involved. */
  ghost predicate Conforms(num: Numerics, d: Descriptor, json: Json)
    decreases d
  {
    json.Object? && forall f <- d.fields :: FieldConforms(num, f, json.members)
  }

  ghost predicate FieldConforms(num: Numerics, f: Field, members: seq<Member>)
    decreases f, 1
  {
    Ignored(f) ||
    match Lookup(members, JsonKey(f))
    case None => !Required(f)
    case Some(item) =>
      if Single(f) then ElementConforms(num, f, item)
      else
        && item.Array? && LengthMatches(item.items, f.elementCount)
        && forall i :: 0 <= i < f.elementCount && i < |item.items| ==> ElementConforms(num, f, item.items[i])
  }

  ghost predicate ElementConforms(num: Numerics, f: Field, item: Json)
    decreases f, 0
  {
    match f.kind
    case IntKind => f.elementSize == 4 && item.Number?
    case UnsignedKind => f.elementSize == 4 && item.Number? && !num.negative(item.number)
    case FloatKind => f.elementSize == 4 && item.Number?
    case DoubleKind => f.elementSize == 8 && item.Number?
    case CharArrayKind => item.Text? && |item.text| < f.charBufferSize
    case StructKind(nested) => Conforms(num, nested, item)
  }

  /** Decoding succeeds exactly on conforming trees, whatever the instance held. */
  lemma {:induction false} DecodesIffConforms(num: Numerics, d: Descriptor, json: Json, bytes: seq<Byte>)
    requires IsInstance(bytes, d)
    ensures DecodeStruct(num, d, json, bytes).status == Ok <==> Conforms(num, d, json)
    decreases d, 1
  {
    if json.Object? {
      FieldsDecodeIffConform(num, d, json.members, bytes, |d.fields|);
    }
  }

  lemma {:induction false} FieldsDecodeIffConform(num: Numerics, d: Descriptor, members: seq<Member>, bytes: seq<Byte>,
                                                  n: nat)
    requires IsInstance(bytes, d) && n <= |d.fields|
    ensures DecodeFields(num, d, members, bytes, n).status == Ok
            <==> forall k :: 0 <= k < n ==> FieldConforms(num, d.fields[k], members)
    decreases d, 0, n
  {
    if n > 0 {
      FieldsDecodeIffConform(num, d, members, bytes, n - 1);
      FieldDecodesIffConforms(num, d.fields[n - 1], members, DecodeFields(num, d, members, bytes, n - 1).bytes);
    }
  }

  lemma {:induction false} FieldDecodesIffConforms(num: Numerics, f: Field, members: seq<Member>, bytes: seq<Byte>)
    requires Holds(bytes, f)
    ensures DecodeField(num, f, members, bytes).status == Ok <==> FieldConforms(num, f, members)
    decreases f, 3
  {
    var found := Lookup(members, JsonKey(f));
    if found.Some? {
      if Single(f) {
        ElementDecodesIffConforms(num, f, found.value, Element(f, bytes, 0));
      } else if found.value.Array? && LengthMatches(found.value.items, f.elementCount) {
        LengthMatchesMeans(found.value.items, f.elementCount);
        ElementsDecodeIffConform(num, f, found.value.items, bytes, f.elementCount);
      }
    }
  }

  lemma {:induction false} ElementsDecodeIffConform(num: Numerics, f: Field, items: seq<Json>, bytes: seq<Byte>, n: nat)
    requires Holds(bytes, f) && n <= f.elementCount && n <= |items|
    ensures DecodeElements(num, f, items, bytes, n).status == Ok
            <==> forall i :: 0 <= i < n ==> ElementConforms(num, f, items[i])
    decreases f, 2, n
  {
    if n > 0 {
      ElementsDecodeIffConform(num, f, items, bytes, n - 1);
      ElementDecodesIffConforms(num, f, items[n - 1],
                                Element(f, DecodeElements(num, f, items, bytes, n - 1).bytes, n - 1));
    }
  }

  lemma {:induction false} ElementDecodesIffConforms(num: Numerics, f: Field, item: Json, e: seq<Byte>)
    requires |e| == ElementLength(f) && (f.kind.StructKind? ==> IsInstance(e, f.kind.nested))
    ensures DecodeElement(num, f, item, e).status == Ok <==> ElementConforms(num, f, item)
    decreases f, 0
  {
    if f.kind.StructKind? {
      DecodesIffConforms(num, f.kind.nested, item, e);
    }
  }
}
