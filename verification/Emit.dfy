/**
  struct_meta_gen_emit.c: the order in which the generator writes struct descriptors, and
  what it writes for each. Emitted C text is kept as the expressions it spells. Nothing in
  the code stops a header whose structs contain each other, so the recursion here runs
  under a limit on its depth, as it does on a C stack; EmitOrder.dfy says when it ends.
 */
module Emit {
  import opened Types

  /** A parsed member; `arrayCount` is 0 when the declaration has no brackets. */
  datatype AstField = AstField(
    name: string,
    typeName: string,
    isStruct: bool,
    arrayCount: int,
    jsonName: Option<string>,
    jsonIgnore: bool,
    jsonRequired: bool)

  datatype AstStruct = AstStruct(name: string, fields: seq<AstField>)

  /** The structs of a header, in declaration order. */
  type Ast = seq<AstStruct>

  /** A `sizeof` expression in the generated source. */
  datatype SizeExpr = SizeofInt | SizeofUnsigned | SizeofFloat | SizeofDouble | SizeofChar | SizeofStruct(name: string)

  datatype KindName = IntName | UnsignedName | FloatName | DoubleName | CharArrayName | StructName

  /** One initializer of a field table. */
  datatype GenField = GenField(
    name: string,
    kind: KindName,
    elementSize: SizeExpr,
    elementCount: int,
    wholeMember: bool,
    nested: Option<string>,
    attributes: seq<Attribute>)

  /** The definitions written for one struct. */
  datatype GenDescriptor = GenDescriptor(name: string, fields: seq<GenField>)

  // ---- What is written for one struct ----

  predicate IsCharArray(f: AstField) {
    !f.isStruct && f.typeName == "char" && f.arrayCount > 0
  }

  /** `field_kind_name`. */
  function FieldKindName(typeName: string, isCharArray: bool): KindName {
    if isCharArray then CharArrayName
    else if typeName == "int" then IntName
    else if typeName == "unsigned" then UnsignedName
    else if typeName == "float" then FloatName
    else DoubleName
  }

  /** `elem_sizeof_expr`. */
  function ElementSizeExpr(typeName: string): SizeExpr {
    if typeName == "int" then SizeofInt
    else if typeName == "unsigned" then SizeofUnsigned
    else if typeName == "float" then SizeofFloat
    else if typeName == "double" then SizeofDouble
    else SizeofChar
  }

  /** `emit_attributes`. */
  function AttributesOf(f: AstField): seq<Attribute> {
    (match f.jsonName case Some(n) => [Attribute("json.name", Some(n))] case None => [])
    + (if f.jsonIgnore then [Attribute("json.ignore", None)] else [])
    + (if f.jsonRequired then [Attribute("json.required", None)] else [])
  }

  function DescribeField(f: AstField): GenField {
    GenField(
      f.name,
      if f.isStruct then StructName else FieldKindName(f.typeName, IsCharArray(f)),
      if f.isStruct then SizeofStruct(f.typeName) else ElementSizeExpr(f.typeName),
      if !IsCharArray(f) && f.arrayCount > 0 then f.arrayCount else 1,
      IsCharArray(f),
      if f.isStruct then Some(f.typeName) else None,
      AttributesOf(f))
  }

  function Describe(s: AstStruct): GenDescriptor {
    GenDescriptor(s.name, seq(|s.fields|, k requires 0 <= k < |s.fields| => DescribeField(s.fields[k])))
  }

  // ---- The order of emission ----

  /** `struct_meta_gen_struct_list_find`: the first struct with this name. */
  function Find(list: Ast, name: string): (r: Option<nat>)
    ensures r.Some? ==> r.value < |list| && list[r.value].name == name
    ensures r.Some? ==> forall i :: 0 <= i < r.value ==> list[i].name != name
    ensures r.None? ==> forall i :: 0 <= i < |list| ==> list[i].name != name
  {
    if list == [] then None
    else if list[0].name == name then Some(0)
    else
      match Find(list[1..], name)
      case None => None
      case Some(i) =>
        assert forall j :: 0 < j < |list| ==> list[1..][j - 1] == list[j];
        Some(i + 1)
  }

  /** The structs written so far, by position in the list. */
  type Order = seq<nat>

  predicate InList(list: Ast, out: Order) {
    forall p :: 0 <= p < |out| ==> out[p] < |list|
  }

  predicate IsEmitted(list: Ast, out: Order, name: string)
    requires InList(list, out)
  {
    exists p :: 0 <= p < |out| && list[out[p]].name == name
  }

  /** How an emission ends: with this order, at an unknown type, or not within the given depth. */
  datatype Progress = Finished(out: Order) | UnknownType | StillRunning

  /** `emit_struct`, at most `depth` calls deep: everything struct `i` contains, then `i`. */
  function EmitStruct(list: Ast, depth: nat, i: nat, out: Order): (r: Progress)
    requires i < |list| && InList(list, out)
    ensures r.Finished? ==> InList(list, r.out)
    decreases depth, 1
  {
    if IsEmitted(list, out, list[i].name) then Finished(out)
    else if depth == 0 then StillRunning
    else
      match EmitMembers(list, depth - 1, i, out, |list[i].fields|)
      case Finished(before) => Finished(before + [i])
      case other => other
  }

  /** The structs of the first `n` members. */
  function EmitMembers(list: Ast, depth: nat, i: nat, out: Order, n: nat): (r: Progress)
    requires i < |list| && n <= |list[i].fields| && InList(list, out)
    ensures r.Finished? ==> InList(list, r.out)
    decreases depth, 3, n
  {
    if n == 0 then Finished(out)
    else
      match EmitMembers(list, depth, i, out, n - 1)
      case Finished(before) => EmitMember(list, depth, list[i].fields[n - 1], before)
      case other => other
  }

  function EmitMember(list: Ast, depth: nat, f: AstField, out: Order): (r: Progress)
    requires InList(list, out)
    ensures r.Finished? ==> InList(list, r.out)
    decreases depth, 2
  {
    if !f.isStruct then Finished(out)
    else
      match Find(list, f.typeName)
      case None => UnknownType
      case Some(j) => EmitStruct(list, depth, j, out)
  }

  /** The first `n` structs of the header. */
  function EmitAll(list: Ast, depth: nat, n: nat): (r: Progress)
    requires n <= |list|
    ensures r.Finished? ==> InList(list, r.out)
  {
    if n == 0 then Finished([])
    else
      match EmitAll(list, depth, n - 1)
      case Finished(out) => EmitStruct(list, depth, n - 1, out)
      case other => other
  }

  // ---- The emitter ----

  function Written(list: Ast, out: Order): seq<GenDescriptor>
    requires InList(list, out)
  {
    seq(|out|, p requires 0 <= p < |out| => Describe(list[out[p]]))
  }

  /** How a call to the emitter ends. */
  datatype Ending = Done | Unknown | TooDeep

  function Outcome(ending: Ending, out: Order): Progress {
    match ending
    case Done => Finished(out)
    case Unknown => UnknownType
    case TooDeep => StillRunning
  }

  /** The initializer written for one member, with its attribute table. */
  method FieldEntry(f: AstField) returns (r: GenField)
    ensures r == DescribeField(f)
  {
    var isCharArray := !f.isStruct && f.typeName == "char" && f.arrayCount > 0;
    var count := 1;
    if !isCharArray && f.arrayCount > 0 {
      count := f.arrayCount;
    }
    var attributes: seq<Attribute> := [];
    if f.jsonName.Some? {
      attributes := attributes + [Attribute("json.name", f.jsonName)];
    }
    if f.jsonIgnore {
      attributes := attributes + [Attribute("json.ignore", None)];
    }
    if f.jsonRequired {
      attributes := attributes + [Attribute("json.required", None)];
    }
    if f.isStruct {
      r := GenField(f.name, StructName, SizeofStruct(f.typeName), count, isCharArray, Some(f.typeName), attributes);
    } else {
      var kind := FieldKindName(f.typeName, isCharArray);
      r := GenField(f.name, kind, ElementSizeExpr(f.typeName), count, isCharArray, None, attributes);
    }
  }

  /** The output stream and the list of names already written. */
  class Emitter {
    var out: seq<GenDescriptor>
    var emitted: seq<string>
    ghost var order: Order

    ghost predicate Consistent(list: Ast)
      reads this
    {
      && InList(list, order) && out == Written(list, order)
      && |emitted| == |order| && forall p :: 0 <= p < |order| ==> emitted[|order| - 1 - p] == list[order[p]].name
    }

    constructor ()
      ensures forall list :: Consistent(list)
      ensures order == [] && out == []
    {
      out, emitted, order := [], [], [];
    }

    /** `is_emitted`. */
    method HasEmitted(list: Ast, name: string) returns (r: bool)
      requires Consistent(list)
      ensures r == IsEmitted(list, order, name)
    {
      for n := 0 to |emitted|
        invariant forall m :: 0 <= m < n ==> emitted[m] != name
      {
        if emitted[n] == name {
          assert list[order[|order| - 1 - n]].name == name;
          return true;
        }
      }
      forall p | 0 <= p < |order| ensures list[order[p]].name != name {
        assert emitted[|order| - 1 - p] != name;
      }
      return false;
    }

    /** The member loop that writes the field table. */
    method WriteStruct(list: Ast, i: nat)
      requires Consistent(list) && i < |list|
      modifies this
      ensures Consistent(list) && order == old(order) + [i]
    {
      var fields: seq<GenField> := [];
      var s := list[i];
      for k := 0 to |s.fields|
        invariant |fields| == k && forall m :: 0 <= m < k ==> fields[m] == DescribeField(s.fields[m])
        invariant out == old(out) && emitted == old(emitted) && order == old(order)
      {
        var f := s.fields[k];
        var field := FieldEntry(f);
        fields := fields + [field];
      }
      assert GenDescriptor(s.name, fields) == Describe(s);
      out := out + [GenDescriptor(s.name, fields)];
      emitted := [s.name] + emitted;
      order := order + [i];
    }

    /** `emit_struct`, with room for `depth` nested calls. */
    method Emit(list: Ast, depth: nat, i: nat) returns (ending: Ending)
      requires i < |list| && Consistent(list)
      modifies this
      ensures ending.Done? ==> Consistent(list)
      ensures EmitStruct(list, depth, i, old(order)) == Outcome(ending, order)
      decreases depth, 1
    {
      var done := HasEmitted(list, list[i].name);
      if done {
        return Done;
      }
      if depth == 0 {
        return TooDeep;
      }
      ending := EmitMemberStructs(list, depth - 1, i);
      if ending.Done? {
        WriteStruct(list, i);
      }
    }

    /** The member loop that writes the contained structs first. */
    method EmitMemberStructs(list: Ast, depth: nat, i: nat) returns (ending: Ending)
      requires i < |list| && Consistent(list)
      modifies this
      ensures ending.Done? ==> Consistent(list)
      ensures EmitMembers(list, depth, i, old(order), |list[i].fields|) == Outcome(ending, order)
      decreases depth, 2
    {
      for k := 0 to |list[i].fields|
        invariant Consistent(list) && EmitMembers(list, depth, i, old(order), k) == Finished(order)
      {
        var f := list[i].fields[k];
        if f.isStruct {
          var nested := Find(list, f.typeName);
          if nested.None? {
            MembersStopAt(list, depth, i, old(order), k + 1, |list[i].fields|);
            return Unknown;
          }
          ending := Emit(list, depth, nested.value);
          if !ending.Done? {
            MembersStopAt(list, depth, i, old(order), k + 1, |list[i].fields|);
            return;
          }
        }
      }
      return Done;
    }
  }

  lemma {:induction false} MembersStopAt(list: Ast, depth: nat, i: nat, out: Order, m: nat, n: nat)
    requires i < |list| && m <= n <= |list[i].fields| && InList(list, out)
             && !EmitMembers(list, depth, i, out, m).Finished?
    ensures EmitMembers(list, depth, i, out, n) == EmitMembers(list, depth, i, out, m)
    decreases n
  {
    if m < n {
      MembersStopAt(list, depth, i, out, m, n - 1);
    }
  }

  lemma {:induction false} HeaderStopsAt(list: Ast, depth: nat, m: nat, n: nat)
    requires m <= n <= |list| && !EmitAll(list, depth, m).Finished?
    ensures EmitAll(list, depth, n) == EmitAll(list, depth, m)
    decreases n
  {
    if m < n {
      HeaderStopsAt(list, depth, m, n - 1);
    }
  }

  /** The descriptor loop of `struct_meta_gen_emit`. */
  method EmitHeader(list: Ast, depth: nat) returns (ending: Ending, out: seq<GenDescriptor>)
    ensures match EmitAll(list, depth, |list|)
            case Finished(order) => ending == Done && out == Written(list, order)
            case UnknownType => ending == Unknown
            case StillRunning => ending == TooDeep
  {
    var emitter := new Emitter();
    for i := 0 to |list|
      invariant emitter.Consistent(list) && EmitAll(list, depth, i) == Finished(emitter.order)
      invariant fresh(emitter)
    {
      ending := emitter.Emit(list, depth, i);
      if !ending.Done? {
        HeaderStopsAt(list, depth, i + 1, |list|);
        return ending, emitter.out;
      }
    }
    return Done, emitter.out;
  }
}
