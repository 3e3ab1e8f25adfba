/**
  The generated descriptors as the compiled program holds them, and why the runtime
  accepts them.
 */
module EmitRuntime {
  import opened Types
  import opened Validate
  import opened Emit
  import opened EmitOrder

  /** What the C compiler answers for the expressions in the generated source. */
  datatype CLayout = CLayout(
    sizeOf: string -> Size,
    offsetOf: (string, string) -> Size,
    memberSize: (string, string) -> Size)

  const LONG_MAX: int := 0x7FFF_FFFF_FFFF_FFFF

  const PRIMITIVES: set<string> := {"int", "unsigned", "char", "float", "double"}

  /** What the generator's grammar can produce. */
  predicate Grammatical(list: Ast) {
    forall i :: 0 <= i < |list| ==>
      list[i].name != "" && forall k :: 0 <= k < |list[i].fields| ==> GrammaticalField(list[i].fields[k])
  }

  predicate GrammaticalField(f: AstField) {
    f.name != "" && 0 <= f.arrayCount <= LONG_MAX && (f.isStruct || f.typeName in PRIMITIVES)
  }

  function SizeValue(layout: CLayout, e: SizeExpr): Size {
    match e
    case SizeofInt => 4
    case SizeofUnsigned => 4
    case SizeofFloat => 4
    case SizeofDouble => 8
    case SizeofChar => 1
    case SizeofStruct(name) => layout.sizeOf(name)
  }

  /** Bytes of a declared member. */
  function MemberBytes(layout: CLayout, f: AstField): nat
    requires 0 <= f.arrayCount
  {
    (if f.arrayCount > 0 then f.arrayCount else 1) * SizeValue(layout, DescribeField(f).elementSize)
  }

  /** The layout rules of C: structs are not empty and members lie inside their struct. */
  ghost predicate LegalLayout(list: Ast, layout: CLayout)
    requires Grammatical(list)
  {
    forall i :: 0 <= i < |list| ==>
      && 0 < layout.sizeOf(list[i].name)
      && forall k :: 0 <= k < |list[i].fields| ==> LegalMember(layout, list[i].name, list[i].fields[k])
  }

  ghost predicate LegalMember(layout: CLayout, owner: string, f: AstField)
    requires GrammaticalField(f)
  {
    && layout.memberSize(owner, f.name) == MemberBytes(layout, f)
    && layout.offsetOf(owner, f.name) + MemberBytes(layout, f) <= layout.sizeOf(owner)
  }

  // ---- The compiled tables ----

  /** The definition a name refers to. */
  function PositionOf(gen: seq<GenDescriptor>, name: string): (r: Option<nat>)
    ensures r.Some? ==> r.value < |gen| && gen[r.value].name == name
    ensures r.None? ==> forall p :: 0 <= p < |gen| ==> gen[p].name != name
  {
    if gen == [] then None
    else if gen[0].name == name then Some(0)
    else
      match PositionOf(gen[1..], name)
      case None => None
      case Some(p) => assert gen[1..][p] == gen[p + 1]; Some(p + 1)
  }

  function KindNumber(k: KindName): int {
    match k
    case IntName => 0
    case UnsignedName => 1
    case FloatName => 2
    case DoubleName => 3
    case CharArrayName => CHAR_ARRAY
    case StructName => STRUCT
  }

  function CompileField(layout: CLayout, gen: seq<GenDescriptor>, owner: string, f: GenField): RawField
    requires 0 <= f.elementCount <= LONG_MAX
  {
    RawField(
      Some(f.name), KindNumber(f.kind), layout.offsetOf(owner, f.name),
      SizeValue(layout, f.elementSize), f.elementCount,
      if f.wholeMember then layout.memberSize(owner, f.name) else 0,
      match f.nested case None => None case Some(n) => PositionOf(gen, n),
      if f.attributes == [] then Null(0)
      else Items(seq(|f.attributes|, i requires 0 <= i < |f.attributes| =>
                     RawAttribute(Some(f.attributes[i].key), f.attributes[i].value))))
  }

  ghost predicate Countable(gen: seq<GenDescriptor>) {
    forall p, k :: 0 <= p < |gen| && 0 <= k < |gen[p].fields| ==> 0 <= gen[p].fields[k].elementCount <= LONG_MAX
  }

  function CompileDescriptor(layout: CLayout, gen: seq<GenDescriptor>, d: GenDescriptor): RawDescriptor
    requires forall k :: 0 <= k < |d.fields| ==> 0 <= d.fields[k].elementCount <= LONG_MAX
  {
    RawDescriptor(Some(d.name), layout.sizeOf(d.name),
                  Items(seq(|d.fields|, k requires 0 <= k < |d.fields| =>
                            CompileField(layout, gen, d.name, d.fields[k]))))
  }

  function Compile(layout: CLayout, gen: seq<GenDescriptor>): Graph
    requires Countable(gen)
  {
    seq(|gen|, p requires 0 <= p < |gen| => CompileDescriptor(layout, gen, gen[p]))
  }

  lemma WrittenCountable(list: Ast, order: Order)
    requires Grammatical(list) && InList(list, order)
    ensures Countable(Written(list, order))
  {
    forall p, k | 0 <= p < |order| && 0 <= k < |Written(list, order)[p].fields|
      ensures 0 <= Written(list, order)[p].fields[k].elementCount <= LONG_MAX
    {
      assert GrammaticalField(list[order[p]].fields[k]);
    }
  }

  // ---- The runtime accepts them ----

  /** Everything a header must satisfy for the generator and the compiler to accept it. */
  ghost predicate Accepted(list: Ast, layout: CLayout) {
    NoCycle(list) && DistinctNames(list) && Resolvable(list) && Grammatical(list) && LegalLayout(list, layout)
  }

  /** The descriptor graph of a generated source. */
  function GeneratedGraph(list: Ast, layout: CLayout): Graph
    requires Accepted(list, layout)
  {
    EmissionIsTopological(list);
    var order := EmissionOrder(list);
    WrittenCountable(list, order);
    Compile(layout, Written(list, order))
  }

  /** A member's descriptor was written before the struct that holds it. */
  lemma NestedIsEarlier(list: Ast, order: Order, p: nat, k: nat)
    requires InList(list, order) && Topological(list, order) && DistinctNames(list) && Resolvable(list) && p < |order|
    requires k < |list[order[p]].fields| && list[order[p]].fields[k].isStruct
    ensures var q := PositionOf(Written(list, order), list[order[p]].fields[k].typeName);
            q.Some? && q.value < p
  {
    var name := list[order[p]].fields[k].typeName;
    var j := Find(list, name).value;
    assert ContainsAt(list, order[p], k, j) && Contains(list, order[p], j);
    var m :| 0 <= m < p && order[..p][m] == j;
    var gen := Written(list, order);
    assert gen[m].name == name;
    var q := PositionOf(gen, name).value;
    assert list[order[q]].name == name;
    assert order[q] == j == order[m];
  }

  /** Every generated field obeys the validator's rules. */
  lemma GeneratedFieldOk(list: Ast, layout: CLayout, gen: seq<GenDescriptor>, i: nat, k: nat, g: Graph)
    requires Grammatical(list) && LegalLayout(list, layout) && i < |list| && k < |list[i].fields|
    requires list[i].fields[k].isStruct ==>
               var q := PositionOf(gen, list[i].fields[k].typeName);
               q.Some? && (q.value < |g| ==> g[q.value].size == layout.sizeOf(list[i].fields[k].typeName))
    requires list[i].fields[k].isStruct ==> 0 < layout.sizeOf(list[i].fields[k].typeName)
    ensures FieldOk(g, layout.sizeOf(list[i].name),
                    CompileField(layout, gen, list[i].name, DescribeField(list[i].fields[k])))
  {
    var f := list[i].fields[k];
    assert GrammaticalField(f) && LegalMember(layout, list[i].name, f);
    var raw := CompileField(layout, gen, list[i].name, DescribeField(f));
    assert RawExtent(raw) == MemberBytes(layout, f);
    assert ShapeOk(g, layout.sizeOf(list[i].name), raw);
    AttributesAccepted(f, raw);
  }

  lemma AttributesAccepted(f: AstField, raw: RawField)
    requires raw.attributes == (var a := AttributesOf(f);
                                if a == [] then Null(0)
                                else Items(seq(|a|, i requires 0 <= i < |a| =>
                                               RawAttribute(Some(a[i].key), a[i].value))))
    ensures AttributesOk(raw.attributes)
  {
    var name, ignore, required := "json.name", "json.ignore", "json.required";
    assert name[5] != ignore[5] && name[5] != required[5] && ignore[5] != required[5];
  }

  /** Generated descriptors only point to earlier ones, and each obeys the rules. */
  lemma GeneratedNodes(list: Ast, layout: CLayout, p: nat)
    requires Accepted(list, layout) && p < |GeneratedGraph(list, layout)|
    ensures NodeOk(GeneratedGraph(list, layout), p)
    ensures forall k :: 0 <= k < |Fields(GeneratedGraph(list, layout)[p])| ==>
              var n := Fields(GeneratedGraph(list, layout)[p])[k].nested; n.Some? ==> n.value < p
  {
    EmissionIsTopological(list);
    var order := EmissionOrder(list);
    var gen := Written(list, order);
    WrittenCountable(list, order);
    var g := Compile(layout, gen);
    assert list[order[p]].name != "" && 0 < layout.sizeOf(list[order[p]].name);
    forall k | 0 <= k < |Fields(g[p])|
      ensures FieldOk(g, g[p].size, Fields(g[p])[k])
              && (Fields(g[p])[k].nested.Some? ==> Fields(g[p])[k].nested.value < p)
    {
      var f := list[order[p]].fields[k];
      if f.isStruct {
        NestedIsEarlier(list, order, p, k);
        var q := PositionOf(gen, f.typeName).value;
        assert g[q].size == layout.sizeOf(gen[q].name);
        assert 0 < layout.sizeOf(list[order[q]].name);
      }
      GeneratedFieldOk(list, layout, gen, order[p], k, g);
    }
  }

  lemma GeneratedClosed(list: Ast, layout: CLayout)
    requires Accepted(list, layout)
    ensures Closed(GeneratedGraph(list, layout))
  {
    var g := GeneratedGraph(list, layout);
    forall id, k | 0 <= id < |g| && 0 <= k < |Fields(g[id])| && Fields(g[id])[k].nested.Some?
      ensures Fields(g[id])[k].nested.value < |g|
    {
      GeneratedNodes(list, layout, id);
    }
  }

  /** Containment goes down in the table. */
  lemma {:induction false} WalkGoesDown(list: Ast, layout: CLayout, w: seq<nat>, i: nat, j: nat)
    requires Accepted(list, layout) && Walk(GeneratedGraph(list, layout), w) && i < j < |w|
    ensures w[j] < w[i]
    decreases j - i
  {
    var g := GeneratedGraph(list, layout);
    GeneratedNodes(list, layout, w[i]);
    assert Edge(g, w[i], w[i + 1]);
    if i + 1 < j {
      WalkGoesDown(list, layout, w, i + 1, j);
    }
  }

  /** The runtime's validator accepts every generated descriptor. */
  lemma GeneratedIsValid(list: Ast, layout: CLayout, p: nat)
    requires Accepted(list, layout) && p < |GeneratedGraph(list, layout)|
    ensures Closed(GeneratedGraph(list, layout)) && Valid(GeneratedGraph(list, layout), p)
  {
    var g := GeneratedGraph(list, layout);
    GeneratedClosed(list, layout);
    forall w | Walk(g, w) && w[0] == p ensures Distinct(w) && NodeOk(g, w[|w| - 1]) {
      forall i, j | 0 <= i < j < |w| ensures w[i] != w[j] {
        WalkGoesDown(list, layout, w, i, j);
      }
      GeneratedNodes(list, layout, w[|w| - 1]);
    }
  }
}
