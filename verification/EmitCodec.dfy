/** The generated descriptors and the JSON codec: which generated types can be saved and loaded. */
module EmitCodec {
  import opened Types
  import opened Validate
  import opened Emit
  import opened EmitOrder
  import opened EmitRuntime
  import opened JsonCodec
  import opened JsonFrame
  import opened JsonRoundTrip

  /** A `char` member that is not an array; it is given the `double` kind. */
  predicate BareChar(f: AstField) {
    !f.isStruct && f.typeName == "char" && f.arrayCount <= 0
  }

  /** The element size is the one the JSON codec demands of the kind. */
  predicate RawSized(r: RawField) {
    (0 <= r.kind <= 2 ==> r.elementSize == 4) && (r.kind == 3 ==> r.elementSize == 8)
  }

  /** A generated field has the element size its kind demands exactly when it is not a bare `char`. */
  lemma GeneratedFieldSized(layout: CLayout, gen: seq<GenDescriptor>, owner: string, f: AstField)
    requires GrammaticalField(f)
    ensures RawSized(CompileField(layout, gen, owner, DescribeField(f))) <==> !BareChar(f)
  {
  }

  // ---- Headers whose types can be saved and loaded ----

  function MemberKey(f: AstField): string {
    if f.jsonName.Some? && f.jsonName.value != "" then f.jsonName.value else f.name
  }

  /** Every member that takes part in JSON has a kind of its own size. */
  predicate NoBareChars(list: Ast) {
    forall i, k :: 0 <= i < |list| && 0 <= k < |list[i].fields| && BareChar(list[i].fields[k]) ==>
        list[i].fields[k].jsonIgnore
  }

  /** The members of one struct that take part in JSON have different keys. */
  predicate KeysDiffer(list: Ast) {
    forall i, j, k :: 0 <= i < |list| && 0 <= j < k < |list[i].fields|
                      && !list[i].fields[j].jsonIgnore && !list[i].fields[k].jsonIgnore ==>
      MemberKey(list[i].fields[j]) != MemberKey(list[i].fields[k])
  }

  predicate CountsBelowIntMax(list: Ast) {
    forall i, k :: 0 <= i < |list| && 0 <= k < |list[i].fields| ==> list[i].fields[k].arrayCount <= INT_MAX
  }

  /** In C the members of a struct have storage of their own. */
  ghost predicate MembersApart(list: Ast, layout: CLayout)
    requires Grammatical(list)
  {
    forall i, j, k :: 0 <= i < |list| && 0 <= j < |list[i].fields| && 0 <= k < |list[i].fields| && j != k ==>
      StoredApart(layout, list[i].name, list[i].fields[j], list[i].fields[k])
  }

  predicate StoredApart(layout: CLayout, owner: string, f: AstField, h: AstField)
    requires 0 <= f.arrayCount && 0 <= h.arrayCount
  {
    || layout.offsetOf(owner, f.name) + MemberBytes(layout, f) <= layout.offsetOf(owner, h.name)
    || layout.offsetOf(owner, h.name) + MemberBytes(layout, h) <= layout.offsetOf(owner, f.name)
  }

  // ---- What the codec sees of a generated member ----

  lemma {:induction false} FindAppend(first: seq<Attribute>, rest: seq<Attribute>, key: string)
    ensures FindAttribute(first + rest, key)
            == if FindAttribute(first, key).Some? then FindAttribute(first, key) else FindAttribute(rest, key)
  {
    if first == [] {
      assert first + rest == rest;
    } else {
      assert (first + rest)[1..] == first[1..] + rest;
      FindAppend(first[1..], rest, key);
    }
  }

  lemma AttributesRead(f: AstField)
    ensures FindAttribute(AttributesOf(f), "json.ignore").Some? <==> f.jsonIgnore
    ensures FindAttribute(AttributesOf(f), "json.required").Some? <==> f.jsonRequired
    ensures FindAttribute(AttributesOf(f), "json.name")
            == if f.jsonName.Some? then Some(Attribute("json.name", f.jsonName)) else None
  {
    var name, ignore, required := "json.name", "json.ignore", "json.required";
    assert name[5] != ignore[5] && name[5] != required[5] && ignore[5] != required[5];
    var first := match f.jsonName case Some(n) => [Attribute(name, Some(n))] case None => [];
    var second := if f.jsonIgnore then [Attribute(ignore, None)] else [];
    var third := if f.jsonRequired then [Attribute(required, None)] else [];
    assert AttributesOf(f) == first + second + third;
    FindAppend(first + second, third, ignore);
    FindAppend(first, second, ignore);
    FindAppend(first + second, third, required);
    FindAppend(first, second, required);
    FindAppend(first + second, third, name);
    FindAppend(first, second, name);
  }

  /** The kind and the sizes a member's declaration stands for; a struct's descriptor is said in TypeReadsHeader. */
  predicate KindRead(layout: CLayout, a: AstField, f: Field) {
    if a.isStruct then f.kind.StructKind? && f.elementSize == layout.sizeOf(a.typeName)
    else if a.typeName == "char" then
      if a.arrayCount > 0 then f.kind == CharArrayKind && f.elementSize == 1 && f.charBufferSize == a.arrayCount
      else f.kind == DoubleKind && f.elementSize == 1
    else if a.typeName == "int" then f.kind == IntKind && f.elementSize == 4
    else if a.typeName == "unsigned" then f.kind == UnsignedKind && f.elementSize == 4
    else if a.typeName == "float" then f.kind == FloatKind && f.elementSize == 4
    else f.kind == DoubleKind && f.elementSize == 8
  }

  /** The tree field read from a generated member. */
  ghost predicate ReadFrom(layout: CLayout, owner: string, a: AstField, f: Field)
    requires 0 <= a.arrayCount
  {
    && f.name == a.name && f.attributes == AttributesOf(a) && f.kind.StructKind? == a.isStruct
    && f.offset == layout.offsetOf(owner, a.name) && Extent(f) == MemberBytes(layout, a)
    && f.elementCount == (if a.arrayCount > 0 && (a.isStruct || a.typeName != "char") then a.arrayCount else 1)
    && KindRead(layout, a, f)
    && (!a.isStruct ==> (FieldSized(f) <==> !BareChar(a)))
  }

  lemma MemberRead(layout: CLayout, gen: seq<GenDescriptor>, owner: string, a: AstField, g: Graph, f: Field)
    requires GrammaticalField(a) && LegalMember(layout, owner, a)
    requires DepictsField(g, CompileField(layout, gen, owner, DescribeField(a)), f)
    ensures ReadFrom(layout, owner, a, f)
  {
    var raw := CompileField(layout, gen, owner, DescribeField(a));
    assert Extent(f) == RawExtent(raw) == MemberBytes(layout, a);
    assert f.attributes == AttributesOf(a);
    GeneratedFieldSized(layout, gen, owner, a);
  }

  lemma KeyRead(layout: CLayout, owner: string, a: AstField, f: Field)
    requires 0 <= a.arrayCount && ReadFrom(layout, owner, a, f)
    ensures Ignored(f) == a.jsonIgnore && Required(f) == a.jsonRequired && JsonKey(f) == MemberKey(a)
  {
    AttributesRead(a);
  }

  /** Descriptor `p` of the generated source describes this struct of the header. */
  function StructAt(list: Ast, layout: CLayout, p: nat): AstStruct
    requires Accepted(list, layout) && p < |GeneratedGraph(list, layout)|
  {
    list[EmissionOrder(list)[p]]
  }

  /** A generated type, as the runtime reads it. */
  function TypeAt(list: Ast, layout: CLayout, p: nat): (d: Descriptor)
    requires Accepted(list, layout) && p < |GeneratedGraph(list, layout)|
    ensures Depicts(GeneratedGraph(list, layout), p, d) && Layout(d)
    ensures Closed(GeneratedGraph(list, layout)) && Valid(GeneratedGraph(list, layout), p)
    ensures d == Tree(GeneratedGraph(list, layout), p)
  {
    GeneratedIsValid(list, layout, p);
    Tree(GeneratedGraph(list, layout), p)
  }

  lemma FieldCount(list: Ast, layout: CLayout, p: nat, d: Descriptor)
    requires Accepted(list, layout) && Depicts(GeneratedGraph(list, layout), p, d)
    ensures |StructAt(list, layout, p).fields| == |d.fields|
  {
    WrittenCountable(list, EmissionOrder(list));
  }

  lemma FieldRead(list: Ast, layout: CLayout, p: nat, d: Descriptor, k: nat)
    requires Accepted(list, layout) && Depicts(GeneratedGraph(list, layout), p, d) && k < |d.fields|
    ensures var s := StructAt(list, layout, p);
            && s in list && |s.fields| == |d.fields| && 0 <= s.fields[k].arrayCount
            && ReadFrom(layout, s.name, s.fields[k], d.fields[k])
  {
    var order := EmissionOrder(list);
    var gen := Written(list, order);
    WrittenCountable(list, order);
    var s := list[order[p]];
    assert GrammaticalField(s.fields[k]) && LegalMember(layout, s.name, s.fields[k]);
    MemberRead(layout, gen, s.name, s.fields[k], GeneratedGraph(list, layout), d.fields[k]);
  }

  /** The struct member of a generated type leads to the generated type of that struct, written earlier. */
  lemma NestedRead(list: Ast, layout: CLayout, p: nat, k: nat) returns (q: nat)
    requires Accepted(list, layout) && p < |GeneratedGraph(list, layout)|
    requires k < |StructAt(list, layout, p).fields| && StructAt(list, layout, p).fields[k].isStruct
    ensures q < p && StructAt(list, layout, q).name == StructAt(list, layout, p).fields[k].typeName
    ensures k < |TypeAt(list, layout, p).fields| && TypeAt(list, layout, p).fields[k].kind.StructKind?
    ensures TypeAt(list, layout, p).fields[k].kind.nested == TypeAt(list, layout, q)
  {
    var g, d := GeneratedGraph(list, layout), TypeAt(list, layout, p);
    var order := EmissionOrder(list);
    EmissionIsTopological(list);
    FieldCount(list, layout, p, d);
    FieldRead(list, layout, p, d, k);
    NestedIsEarlier(list, order, p, k);
    q := PositionOf(Written(list, order), StructAt(list, layout, p).fields[k].typeName).value;
    WrittenCountable(list, order);
    assert DepictsField(g, Fields(g[p])[k], d.fields[k]);
    DepictionUnique(g, q, d.fields[k].kind.nested, TypeAt(list, layout, q));
  }

  /** A generated type is its struct in the header: its name, its size and every member in order. */
  lemma TypeReadsHeader(list: Ast, layout: CLayout, p: nat)
    requires Accepted(list, layout) && p < |GeneratedGraph(list, layout)|
    ensures var s, d := StructAt(list, layout, p), TypeAt(list, layout, p);
            && d.name == s.name && d.size == layout.sizeOf(s.name) && |d.fields| == |s.fields|
            && forall k :: 0 <= k < |s.fields| ==>
                 0 <= s.fields[k].arrayCount && ReadFrom(layout, s.name, s.fields[k], d.fields[k])
  {
    var d := TypeAt(list, layout, p);
    WrittenCountable(list, EmissionOrder(list));
    FieldCount(list, layout, p, d);
    forall k | 0 <= k < |d.fields|
      ensures 0 <= StructAt(list, layout, p).fields[k].arrayCount
              && ReadFrom(layout, StructAt(list, layout, p).name, StructAt(list, layout, p).fields[k], d.fields[k])
    {
      FieldRead(list, layout, p, d, k);
    }
  }

  // ---- What holds of the tree ----

  /** Everything the round trip asks of a descriptor, its array lengths only if they are small. */
  ghost predicate Loadable(d: Descriptor, small: bool) {
    Sized(d) && KeysDistinct(d) && Apart(d) && (small ==> CountsFit(d))
  }

  /** Without bare `char` members, the sizes are those the codec demands, whatever the keys are. */
  lemma {:induction false} SizedTree(list: Ast, layout: CLayout, p: nat, d: Descriptor)
    requires Accepted(list, layout) && Depicts(GeneratedGraph(list, layout), p, d) && NoBareChars(list)
    ensures Sized(d)
    decreases d
  {
    var g := GeneratedGraph(list, layout);
    forall k | 0 <= k < |d.fields| && !Ignored(d.fields[k]) ensures FieldSized(d.fields[k]) {
      FieldRead(list, layout, p, d, k);
      KeyRead(layout, StructAt(list, layout, p).name, StructAt(list, layout, p).fields[k], d.fields[k]);
      if d.fields[k].kind.StructKind? {
        assert DepictsField(g, Fields(g[p])[k], d.fields[k]);
        SizedTree(list, layout, Fields(g[p])[k].nested.value, d.fields[k].kind.nested);
      }
    }
  }

  lemma LoadableFrom(d: Descriptor, small: bool)
    requires forall f <- d.fields :: f.kind.StructKind? ==> Loadable(f.kind.nested, small)
    requires forall f <- d.fields :: !Ignored(f) ==> FieldSized(f)
    requires forall f <- d.fields :: small ==> f.elementCount <= INT_MAX
    requires forall j, k :: 0 <= j < k < |d.fields| && !Ignored(d.fields[j]) && !Ignored(d.fields[k]) ==>
                              JsonKey(d.fields[j]) != JsonKey(d.fields[k])
    requires forall j, k :: 0 <= j < |d.fields| && 0 <= k < |d.fields| && j != k ==> Disjoint(d.fields[j], d.fields[k])
    ensures Loadable(d, small)
  {
  }

  lemma FieldsKeyed(list: Ast, layout: CLayout, p: nat, d: Descriptor)
    requires Accepted(list, layout) && Depicts(GeneratedGraph(list, layout), p, d) && KeysDiffer(list)
    ensures forall j, k :: 0 <= j < k < |d.fields| && !Ignored(d.fields[j]) && !Ignored(d.fields[k]) ==>
                             JsonKey(d.fields[j]) != JsonKey(d.fields[k])
    ensures forall f <- d.fields :: CountsBelowIntMax(list) ==> f.elementCount <= INT_MAX
  {
    var s := StructAt(list, layout, p);
    forall k | 0 <= k < |d.fields|
      ensures |s.fields| == |d.fields| && Ignored(d.fields[k]) == s.fields[k].jsonIgnore
      ensures JsonKey(d.fields[k]) == MemberKey(s.fields[k])
      ensures CountsBelowIntMax(list) ==> d.fields[k].elementCount <= INT_MAX
    {
      FieldRead(list, layout, p, d, k);
      KeyRead(layout, s.name, s.fields[k], d.fields[k]);
    }
  }

  lemma FieldsApart(list: Ast, layout: CLayout, p: nat, d: Descriptor)
    requires Accepted(list, layout) && Depicts(GeneratedGraph(list, layout), p, d) && MembersApart(list, layout)
    ensures forall j, k :: 0 <= j < |d.fields| && 0 <= k < |d.fields| && j != k ==> Disjoint(d.fields[j], d.fields[k])
  {
    var s := StructAt(list, layout, p);
    forall j, k | 0 <= j < |d.fields| && 0 <= k < |d.fields| && j != k ensures Disjoint(d.fields[j], d.fields[k]) {
      FieldRead(list, layout, p, d, j);
      FieldRead(list, layout, p, d, k);
      assert StoredApart(layout, s.name, s.fields[j], s.fields[k]);
    }
  }

  /** Of every generated type of a header without bare `char` members, with keys that differ. */
  lemma {:induction false} GeneratedTree(list: Ast, layout: CLayout, p: nat, d: Descriptor)
    requires Accepted(list, layout) && Depicts(GeneratedGraph(list, layout), p, d)
    requires NoBareChars(list) && KeysDiffer(list) && MembersApart(list, layout)
    ensures Loadable(d, CountsBelowIntMax(list))
    decreases d
  {
    forall f | f in d.fields && f.kind.StructKind? ensures Loadable(f.kind.nested, CountsBelowIntMax(list)) {
      var k :| 0 <= k < |d.fields| && d.fields[k] == f;
      var g := GeneratedGraph(list, layout);
      assert DepictsField(g, Fields(g[p])[k], f);
      GeneratedTree(list, layout, Fields(g[p])[k].nested.value, f.kind.nested);
    }
    SizedTree(list, layout, p, d);
    FieldsKeyed(list, layout, p, d);
    FieldsApart(list, layout, p, d);
    LoadableFrom(d, CountsBelowIntMax(list));
  }

  /** The encoder accepts every instance of every generated type. */
  ghost predicate AllEncodable(num: Numerics, list: Ast, layout: CLayout)
    requires Accepted(list, layout)
  {
    forall p, x :: 0 <= p < |GeneratedGraph(list, layout)| && IsInstance(x, TypeAt(list, layout, p)) ==>
      EncodeStruct(num, TypeAt(list, layout, p), x).Success?
  }

  /** It does so if and only if no bare `char` member takes part in JSON. */
  lemma GeneratedIsEncodable(num: Numerics, list: Ast, layout: CLayout)
    requires Accepted(list, layout)
    ensures AllEncodable(num, list, layout) <==> NoBareChars(list)
  {
    if NoBareChars(list) {
      forall p, x | 0 <= p < |GeneratedGraph(list, layout)| && IsInstance(x, TypeAt(list, layout, p))
        ensures EncodeStruct(num, TypeAt(list, layout, p), x).Success?
      {
        SizedTree(list, layout, p, TypeAt(list, layout, p));
        EncodesIffSized(num, TypeAt(list, layout, p), x);
      }
    } else {
      var i, k :| 0 <= i < |list| && 0 <= k < |list[i].fields| && BareChar(list[i].fields[k])
        && !list[i].fields[k].jsonIgnore;
      BareCharRefused(num, list, layout, i, k);
    }
  }

  /** The type that holds the bare `char` has no instance the encoder accepts. */
  lemma BareCharRefused(num: Numerics, list: Ast, layout: CLayout, i: nat, k: nat)
    requires Accepted(list, layout) && i < |list| && k < |list[i].fields|
    requires BareChar(list[i].fields[k]) && !list[i].fields[k].jsonIgnore
    ensures !AllEncodable(num, list, layout)
  {
    var p := PlaceOf(list, layout, i);
    var d := TypeAt(list, layout, p);
    BareCharUnsized(list, layout, p, d, k);
    RefusedInstance(num, list, layout, p, seq(d.size, _ => 0));
  }

  lemma RefusedInstance(num: Numerics, list: Ast, layout: CLayout, p: nat, x: seq<Byte>)
    requires Accepted(list, layout) && p < |GeneratedGraph(list, layout)|
    requires |x| == TypeAt(list, layout, p).size && !Sized(TypeAt(list, layout, p))
    ensures !AllEncodable(num, list, layout)
  {
    EncodesIffSized(num, TypeAt(list, layout, p), x);
  }

  /** Where a struct of the header is in the generated source. */
  lemma PlaceOf(list: Ast, layout: CLayout, i: nat) returns (p: nat)
    requires Accepted(list, layout) && i < |list|
    ensures p < |GeneratedGraph(list, layout)| && StructAt(list, layout, p) == list[i]
  {
    EmissionIsTopological(list);
    p := FirstPlace(EmissionOrder(list), i);
  }

  lemma BareCharUnsized(list: Ast, layout: CLayout, p: nat, d: Descriptor, k: nat)
    requires Accepted(list, layout) && Depicts(GeneratedGraph(list, layout), p, d)
    requires k < |StructAt(list, layout, p).fields|
    requires BareChar(StructAt(list, layout, p).fields[k]) && !StructAt(list, layout, p).fields[k].jsonIgnore
    ensures !Sized(d)
  {
    FieldCount(list, layout, p, d);
    FieldRead(list, layout, p, d, k);
    KeyRead(layout, StructAt(list, layout, p).name, StructAt(list, layout, p).fields[k], d.fields[k]);
    assert d.fields[k] in d.fields && !FieldSized(d.fields[k]);
  }

  /**
    From header to JSON and back: if no bare `char` takes part, keys differ and arrays are
    no longer than an `int` can count, every instance of every generated type can be saved
    and loaded into any other instance, which then agrees on every leaf.
   */
  lemma GeneratedRoundTrips(num: Numerics, list: Ast, layout: CLayout, p: nat, x: seq<Byte>, y: seq<Byte>)
    requires Accepted(list, layout) && p < |GeneratedGraph(list, layout)| && num.Exact()
    requires NoBareChars(list) && KeysDiffer(list) && CountsBelowIntMax(list) && MembersApart(list, layout)
    ensures var d := TypeAt(list, layout, p);
            |x| == |y| == d.size && Terminated(d, x) ==>
              && EncodeStruct(num, d, x).Success?
              && var after := DecodeStruct(num, d, EncodeStruct(num, d, x).value, y);
                 after.status == Ok && SameLeaves(d, x, after.bytes)
                   && EncodeStruct(num, d, after.bytes) == EncodeStruct(num, d, x)
  {
    var d := TypeAt(list, layout, p);
    GeneratedTree(list, layout, p, d);
    if |x| == |y| == d.size && Terminated(d, x) {
      RoundTrip(num, d, x, y);
    }
  }

  /** A header that meets all of these conditions. */
  function Counter(): Ast {
    [AstStruct("counter", [AstField("n", "int", false, 0, None, false, false)])]
  }

  lemma CounterQualifies(layout: CLayout)
    requires layout.sizeOf("counter") == 4 && layout.offsetOf("counter", "n") == 0
             && layout.memberSize("counter", "n") == 4
    ensures Accepted(Counter(), layout) && |GeneratedGraph(Counter(), layout)| == 1
    ensures NoBareChars(Counter()) && KeysDiffer(Counter()) && CountsBelowIntMax(Counter())
            && MembersApart(Counter(), layout)
  {
    DeclaredBeforeUseHasNoCycle(Counter());
    assert GrammaticalField(Counter()[0].fields[0]);
    EmissionIsTopological(Counter());
    CounterMembers(layout);
  }

  lemma CounterMembers(layout: CLayout)
    ensures Grammatical(Counter())
    ensures NoBareChars(Counter()) && KeysDiffer(Counter()) && CountsBelowIntMax(Counter())
    ensures MembersApart(Counter(), layout)
  {
  }

  // ---- A bare char ----

  /** A struct whose only member is a bare `char`. */
  function Flag(): Ast {
    [AstStruct("flag", [AstField("on", "char", false, 0, None, false, false)])]
  }

  ghost predicate FlagLayout(layout: CLayout) {
    layout.sizeOf("flag") == 1 && layout.offsetOf("flag", "on") == 0 && layout.memberSize("flag", "on") == 1
  }

  lemma FlagAccepted(layout: CLayout)
    requires FlagLayout(layout)
    ensures Accepted(Flag(), layout) && |GeneratedGraph(Flag(), layout)| == 1
            && StructAt(Flag(), layout, 0) == Flag()[0]
  {
    DeclaredBeforeUseHasNoCycle(Flag());
    assert GrammaticalField(Flag()[0].fields[0]);
    EmissionIsTopological(Flag());
  }

  lemma FlagField(layout: CLayout, d: Descriptor)
    requires FlagLayout(layout) && Accepted(Flag(), layout) && |GeneratedGraph(Flag(), layout)| == 1
    requires StructAt(Flag(), layout, 0) == Flag()[0] && Depicts(GeneratedGraph(Flag(), layout), 0, d)
    ensures d.size == 1 && |d.fields| == 1 && !Ignored(d.fields[0]) && !FieldSized(d.fields[0])
  {
    var g := GeneratedGraph(Flag(), layout);
    FieldRead(Flag(), layout, 0, d, 0);
    KeyRead(layout, "flag", Flag()[0].fields[0], d.fields[0]);
    assert DepictsField(g, Fields(g[0])[0], d.fields[0]);
  }

  /** The validator accepts it, and the encoder refuses every instance of it. */
  lemma BareCharNotEncodable(num: Numerics, layout: CLayout, x: seq<Byte>)
    requires FlagLayout(layout)
    ensures Accepted(Flag(), layout) && |GeneratedGraph(Flag(), layout)| == 1
    ensures TypeAt(Flag(), layout, 0).size == 1
    ensures |x| == 1 ==> EncodeStruct(num, TypeAt(Flag(), layout, 0), x).Failure?
  {
    FlagAccepted(layout);
    var d := TypeAt(Flag(), layout, 0);
    FlagField(layout, d);
    assert d.fields[0] in d.fields;
    if |x| == 1 {
      EncodesIffSized(num, d, x);
    }
  }
}
