/**
  patch/patch.c: the interactive editor. What a session does depends only on the
  replies read from the prompt, so the session functions below answer which edits
  are made; the methods in PatchMemory.dfy make them in place.
 */
module Patch {
  import opened Types
  import opened Path
  import opened JsonCodec

  /** One answer of the prompt; after the last one every read reports end of input. */
  datatype Reply = Line(text: CText) | EndOfInput | Cancel

  /** How the target reads numbers from a line and stores them. */
  datatype Parsers = Parsers(
    parseInt: CText -> Option<int>,
    storeInt: int -> Word,
    parseUnsigned: CText -> Option<Word>,
    parseDouble: CText -> Option<Double>,
    narrow: Double -> Word)

  /** An accepted value: the path shown for it, where it is written, and what. */
  datatype Edit = Edit(path: string, address: nat, bytes: seq<Byte>)

  /** How a menu or a value prompt ends: its result, the replies left, and the edits made. */
  datatype Session = Session(status: Status, rest: seq<Reply>, edits: seq<Edit>)

  /** One read of the prompt. */
  function Read(input: seq<Reply>): (r: (Status, CText, seq<Reply>))
    ensures |r.2| <= |input| && (r.0 == Ok ==> |r.2| < |input|)
    ensures r.0 == Ok || r.0 == Eof || r.0 == Canceled
  {
    if input == [] then (Eof, [], [])
    else
      match input[0]
      case Line(text) => (Ok, text, input[1..])
      case EndOfInput => (Eof, [], input[1..])
      case Cancel => (Canceled, [], input[1..])
  }

  // ---- Displayed paths ----

  /** `append_path`: refused only when the length does not fit a `size_t`. */
  function AppendPath(path: string, separator: string, suffix: string): Option<string> {
    if |path| + |separator| + |suffix| >= SIZE_MAX then None else Some(path + separator + suffix)
  }

  function FieldPath(path: string, name: string): Option<string> {
    AppendPath(path, if path == "" then "" else ".", name)
  }

  function ElementPath(path: string, i: nat): Option<string> {
    AppendPath(path, "", IndexText(i))
  }

  predicate FieldsFit(d: Descriptor, path: string) {
    forall k :: 0 <= k < |d.fields| ==> FieldPath(path, d.fields[k].name).Some?
  }

  predicate ElementsFit(f: Field, path: string) {
    forall i :: 0 <= i < f.elementCount ==> ElementPath(path, i).Some?
  }

  /** Edited through an element menu. */
  predicate IsArray(f: Field) {
    !f.kind.CharArrayKind? && f.elementCount > 1
  }

  // ---- Sessions ----

  /** The bytes a non-empty line stores in a scalar field, if the field accepts it. */
  function Accept(p: Parsers, f: Field, line: CText): Option<seq<Byte>> {
    match f.kind
    case IntKind => (match p.parseInt(line) case None => None case Some(v) => Some(p.storeInt(v)))
    case UnsignedKind => (match p.parseUnsigned(line) case None => None case Some(w) => Some(w))
    case FloatKind => (match p.parseDouble(line) case None => None case Some(v) => Some(p.narrow(v)))
    case DoubleKind => (match p.parseDouble(line) case None => None case Some(v) => Some(v))
    case CharArrayKind => if |line| >= f.charBufferSize then None else Some(line + [0])
    case StructKind(_) => None
  }

  /** What an accepted line leaves in memory, kind by kind: the number's representation, or the text with its NUL. */
  predicate Stores(p: Parsers, f: Field, line: CText, bytes: seq<Byte>) {
    || (f.kind.IntKind? && p.parseInt(line).Some? && bytes == p.storeInt(p.parseInt(line).value))
    || (f.kind.UnsignedKind? && p.parseUnsigned(line).Some? && bytes == p.parseUnsigned(line).value)
    || (f.kind.FloatKind? && p.parseDouble(line).Some? && bytes == p.narrow(p.parseDouble(line).value))
    || (f.kind.DoubleKind? && p.parseDouble(line).Some? && bytes == p.parseDouble(line).value)
    || (f.kind.CharArrayKind? && |line| < f.charBufferSize && bytes == line + [0])
  }

  lemma AcceptStores(p: Parsers, f: Field, line: CText, bytes: seq<Byte>)
    ensures Accept(p, f, line) == Some(bytes) <==> Stores(p, f, line, bytes)
  {
  }

  /** `patch_scalar`: asks until a line is blank or accepted. */
  function RunScalar(p: Parsers, f: Field, at: nat, path: string, input: seq<Reply>): (s: Session)
    ensures |s.rest| <= |input|
    decreases |input|
  {
    var (status, line, rest) := Read(input);
    if status != Ok then Session(status, rest, [])
    else if line == [] then Session(Eof, rest, [])
    else
      match Accept(p, f, line)
      case Some(bytes) => Session(Ok, rest, [Edit(path, at, bytes)])
      case None => RunScalar(p, f, at, path, rest)
  }

  /** `patch_element`: for a scalar, no change is not an error, and neither is the end of input. */
  function RunElement(p: Parsers, f: Field, at: nat, path: string, input: seq<Reply>): (s: Session)
    ensures |s.rest| <= |input|
    decreases |input|, f, 1
  {
    if f.kind.StructKind? then RunStruct(p, f.kind.nested, at, path, input)
    else
      var s := RunScalar(p, f, at, path, input);
      if s.status == Eof then s.(status := Ok) else s
  }

  /** The session that makes `edits` first and then goes on as `s`. */
  function After(edits: seq<Edit>, s: Session): Session {
    s.(edits := edits + s.edits)
  }

  /** `patch_array_field`: the element menu of the array at `at`. */
  function RunArray(p: Parsers, f: Field, at: nat, path: string, input: seq<Reply>): (s: Session)
    ensures |s.rest| <= |input|
    decreases |input|, f, 2
  {
    if !ElementsFit(f, path) then Session(OutOfRange, input, [])
    else
      var (status, line, rest) := Read(input);
      if status != Ok then Session(status, rest, [])
      else if line == [] then Session(Ok, rest, [])
      else
        match p.parseInt(line)
        case Some(i) =>
          if 0 <= i < f.elementCount then
            var s := RunElement(p, f, at + i * f.elementSize, ElementPath(path, i).value, rest);
            if s.status != Ok then s else After(s.edits, RunArray(p, f, at, path, s.rest))
          else RunArray(p, f, at, path, rest)
        case None => RunArray(p, f, at, path, rest)
  }

  /** What choosing a field of the structure at `base` opens. */
  function RunField(p: Parsers, f: Field, base: nat, path: string, input: seq<Reply>): (s: Session)
    ensures |s.rest| <= |input|
    decreases |input|, f, 3
  {
    if IsArray(f) then RunArray(p, f, base + f.offset, path, input)
    else RunElement(p, f, base + f.offset, path, input)
  }

  /** `patch_struct`: the field menu of the structure at `base`. */
  function RunStruct(p: Parsers, d: Descriptor, base: nat, path: string, input: seq<Reply>): (s: Session)
    ensures |s.rest| <= |input|
    decreases |input|, d
  {
    if !FieldsFit(d, path) then Session(OutOfRange, input, [])
    else
      var (status, line, rest) := Read(input);
      if status != Ok then Session(status, rest, [])
      else if line == [] then Session(Ok, rest, [])
      else
        match p.parseInt(line)
        case Some(i) =>
          if 1 <= i <= |d.fields| then
            var f := d.fields[i - 1];
            var s := RunField(p, f, base, FieldPath(path, f.name).value, rest);
            if s.status != Ok then s else After(s.edits, RunStruct(p, d, base, path, s.rest))
          else RunStruct(p, d, base, path, rest)
        case None => RunStruct(p, d, base, path, rest)
  }

  // ---- What the session assumes of a descriptor ----

  /** Field names are distinct identifiers and scalars have the size their kind is stored with, at every depth. */
  ghost predicate Editable(d: Descriptor)
    decreases d
  {
    && (forall j, k :: 0 <= j < k < |d.fields| ==> d.fields[j].name != d.fields[k].name)
    && (forall f <- d.fields :: FieldEditable(f))
  }

  ghost predicate FieldEditable(f: Field)
    decreases f
  {
    && IsIdentifier(f.name)
    && match f.kind
       case StructKind(nested) => Editable(nested)
       case CharArrayKind => true
       case DoubleKind => f.elementSize == 8
       case _ => f.elementSize == 4
  }

  lemma {:induction false} FoundByName(fields: seq<Field>, k: nat)
    requires k < |fields| && forall i, j :: 0 <= i < j < |fields| ==> fields[i].name != fields[j].name
    ensures FindField(fields, fields[k].name) == Some(fields[k])
  {
    if k > 0 {
      FoundByName(fields[1..], k - 1);
    }
  }

  lemma EditableFieldFound(d: Descriptor, k: nat)
    requires Editable(d) && k < |d.fields|
    ensures FindField(d.fields, d.fields[k].name) == Some(d.fields[k]) && IsIdentifier(d.fields[k].name)
  {
    FoundByName(d.fields, k);
    assert FieldEditable(d.fields[k]);
  }

  // ---- Every edit is a path-addressed edit ----

  /**
    The edit's own path resolves to one scalar element at the edit's address, and the bytes are a
    value that field accepts.
   */
  ghost predicate Addressed(p: Parsers, root: Descriptor, base: nat, e: Edit) {
    match Resolve(root, base, e.path, 0)
    case Failed(_) => false
    case Resolved(t) =>
      && t.address == e.address && !t.field.kind.StructKind?
      && (IsArray(t.field) ==> HasTerminalIndex(e.path))
      && (exists line: CText :: line != [] && Stores(p, t.field, line, e.bytes))
      && |e.bytes| <= ElementLength(t.field)
      && base <= e.address && e.address + |e.bytes| <= base + root.size
  }

  ghost predicate AllAddressed(p: Parsers, root: Descriptor, base: nat, edits: seq<Edit>) {
    forall e <- edits :: Addressed(p, root, base, e)
  }

  lemma AddressedAppend(p: Parsers, root: Descriptor, base: nat, first: seq<Edit>, second: seq<Edit>)
    requires AllAddressed(p, root, base, first) && AllAddressed(p, root, base, second)
    ensures AllAddressed(p, root, base, first + second)
  {
  }

  /** A structure menu stands where its path says: at the root, or at the structure the path resolves to. */
  ghost predicate StandsAt(root: Descriptor, base: nat, path: string, d: Descriptor, address: nat) {
    || (path == "" && d == root && address == base)
    || exists g, hasIndex ::
         Leads(root, base, path, g, address, hasIndex) && Descends(g, hasIndex) && g.kind.nested == d
  }

  lemma {:induction false} ScalarEditAddressed(p: Parsers, root: Descriptor, base: nat, f: Field, at: nat,
                                               hasIndex: bool, path: string, input: seq<Reply>)
    requires Layout(root) && Leads(root, base, path, f, at, hasIndex) && !f.kind.StructKind? && FieldEditable(f)
    requires IsArray(f) ==> hasIndex
    ensures AllAddressed(p, root, base, RunScalar(p, f, at, path, input).edits)
    decreases |input|
  {
    var (status, line, rest) := Read(input);
    if status == Ok && line != [] {
      match Accept(p, f, line)
      case None => ScalarEditAddressed(p, root, base, f, at, hasIndex, path, rest);
      case Some(bytes) =>
        AcceptStores(p, f, line, bytes);
        var segments := Parse(path, 0).value;
        ResolveIsParseThenWalk(root, base, path, 0);
        TerminalIndexIsLastIndex(path);
        TargetInside(root, base, segments);
        var size: Size :| FieldLayout(f, size);
        ElementInside(f, size, 0);
        assert |bytes| <= ElementLength(f);
    }
  }

  lemma {:induction false} ElementEditsAddressed(p: Parsers, root: Descriptor, base: nat, f: Field, at: nat,
                                                 hasIndex: bool, path: string, input: seq<Reply>)
    requires Layout(root) && Leads(root, base, path, f, at, hasIndex) && FieldEditable(f)
    requires IsArray(f) ==> hasIndex
    ensures AllAddressed(p, root, base, RunElement(p, f, at, path, input).edits)
    decreases |input|, f, 1
  {
    if f.kind.StructKind? {
      assert Descends(f, hasIndex);
      StructEditsAddressed(p, root, base, f.kind.nested, at, path, input);
    } else {
      ScalarEditAddressed(p, root, base, f, at, hasIndex, path, input);
    }
  }

  /** What the number of an element does in the menu. */
  lemma ChoiceOpensElement(p: Parsers, f: Field, at: nat, path: string, input: seq<Reply>, i: nat, element: nat)
    requires ElementsFit(f, path) && i < f.elementCount && element == at + i * f.elementSize
    requires var (status, line, rest) := Read(input); status == Ok && line != [] && p.parseInt(line) == Some(i)
    ensures var s := RunElement(p, f, element, ElementPath(path, i).value, Read(input).2);
            RunArray(p, f, at, path, input)
            == if s.status != Ok then s else After(s.edits, RunArray(p, f, at, path, s.rest))
  {
  }

  lemma ElementPathIs(path: string, i: nat)
    ensures ElementPath(path, i).Some? ==> ElementPath(path, i).value == path + IndexText(i)
  {
    assert path + "" == path;
  }

  lemma {:induction false} ArrayEditsAddressed(p: Parsers, root: Descriptor, base: nat, f: Field, at: nat, path: string,
                                               input: seq<Reply>)
    requires Layout(root) && Leads(root, base, path, f, at, false) && FieldEditable(f) && IsArray(f)
    ensures AllAddressed(p, root, base, RunArray(p, f, at, path, input).edits)
    decreases |input|, f, 2
  {
    var (status, line, rest) := Read(input);
    if ElementsFit(f, path) && status == Ok && line != [] {
      match p.parseInt(line)
      case None => ArrayEditsAddressed(p, root, base, f, at, path, rest);
      case Some(i) =>
        if 0 <= i < f.elementCount {
          var a := at + i * f.elementSize;
          ChoiceOpensElement(p, f, at, path, input, i, a);
          ElementPathIs(path, i);
          ElementChoiceAddressed(p, root, base, f, at, i, a, path, rest);
          var s := RunElement(p, f, a, path + IndexText(i), rest);
          ArrayEditsAddressed(p, root, base, f, at, path, s.rest);
          AddressedAppend(p, root, base, s.edits, RunArray(p, f, at, path, s.rest).edits);
        } else {
          ArrayEditsAddressed(p, root, base, f, at, path, rest);
        }
    }
  }

  lemma {:induction false} ElementChoiceAddressed(p: Parsers, root: Descriptor, base: nat, f: Field, at: nat, i: nat,
                                                  a: nat,
                                                  path: string, input: seq<Reply>)
    requires Layout(root) && Leads(root, base, path, f, at, false) && FieldEditable(f) && IsArray(f)
    requires i < f.elementCount && a == at + i * f.elementSize
    ensures AllAddressed(p, root, base, RunElement(p, f, a, path + IndexText(i), input).edits)
    decreases |input|, f, 2
  {
    ElementEntryResolves(root, base, path, f, at, i, a);
    ElementEditsAddressed(p, root, base, f, a, true, path + IndexText(i), input);
  }

  lemma LeadsNonempty(root: Descriptor, base: nat, path: string, f: Field, address: nat, hasIndex: bool)
    requires Leads(root, base, path, f, address, hasIndex)
    ensures path != ""
  {
  }

  /** Choosing a field appends its name to the path and its offset to the address, and the path still resolves. */
  lemma FieldChosen(root: Descriptor, base: nat, path: string, d: Descriptor, address: nat, k: nat)
    requires StandsAt(root, base, path, d, address) && k < |d.fields| && FieldPath(path, d.fields[k].name).Some?
    requires FindField(d.fields, d.fields[k].name) == Some(d.fields[k]) && IsIdentifier(d.fields[k].name)
    ensures Leads(root, base, FieldPath(path, d.fields[k].name).value, d.fields[k], address + d.fields[k].offset, false)
  {
    var f := d.fields[k];
    if path == "" && d == root && address == base {
      RootFieldChosen(root, base, f);
    } else {
      var g, hasIndex :| Leads(root, base, path, g, address, hasIndex) && Descends(g, hasIndex) && g.kind.nested == d;
      InnerFieldChosen(root, base, path, g, address, hasIndex, f);
    }
  }

  lemma RootFieldChosen(root: Descriptor, base: nat, f: Field)
    requires FindField(root.fields, f.name) == Some(f) && IsIdentifier(f.name) && FieldPath("", f.name).Some?
    ensures Leads(root, base, FieldPath("", f.name).value, f, base + f.offset, false)
  {
    assert FieldPath("", f.name).value == "" + "" + f.name == f.name;
    RootEntryResolves(root, base, f);
  }

  lemma InnerFieldChosen(root: Descriptor, base: nat, path: string, g: Field, address: nat, hasIndex: bool, f: Field)
    requires Leads(root, base, path, g, address, hasIndex) && Descends(g, hasIndex)
    requires FindField(g.kind.nested.fields, f.name) == Some(f) && IsIdentifier(f.name) && FieldPath(path, f.name).Some?
    ensures Leads(root, base, FieldPath(path, f.name).value, f, address + f.offset, false)
  {
    LeadsNonempty(root, base, path, g, address, hasIndex);
    assert FieldPath(path, f.name).value == path + "." + f.name;
    FieldEntryResolves(root, base, path, g, address, hasIndex, f);
  }

  /** Every edit a menu session makes is one its displayed path addresses. */
  lemma {:induction false} StructEditsAddressed(p: Parsers, root: Descriptor, base: nat, d: Descriptor, address: nat,
                                                path: string, input: seq<Reply>)
    requires Layout(root) && Editable(d) && StandsAt(root, base, path, d, address)
    ensures AllAddressed(p, root, base, RunStruct(p, d, address, path, input).edits)
    decreases |input|, d
  {
    var (status, line, rest) := Read(input);
    if FieldsFit(d, path) && status == Ok && line != [] {
      match p.parseInt(line)
      case None => StructEditsAddressed(p, root, base, d, address, path, rest);
      case Some(i) =>
        if 1 <= i <= |d.fields| {
          var f := d.fields[i - 1];
          assert FieldPath(path, d.fields[i - 1].name).Some?;
          ChoiceEditsAddressed(p, root, base, d, address, i - 1, path, rest);
          var s := RunField(p, f, address, FieldPath(path, f.name).value, rest);
          StructEditsAddressed(p, root, base, d, address, path, s.rest);
          AddressedAppend(p, root, base, s.edits, RunStruct(p, d, address, path, s.rest).edits);
        } else {
          StructEditsAddressed(p, root, base, d, address, path, rest);
        }
    }
  }

  lemma ChoiceEditsAddressed(p: Parsers, root: Descriptor, base: nat, d: Descriptor, address: nat, k: nat,
                             path: string, input: seq<Reply>)
    requires Layout(root) && Editable(d) && StandsAt(root, base, path, d, address)
    requires k < |d.fields| && FieldPath(path, d.fields[k].name).Some?
    ensures AllAddressed(p, root, base,
                         RunField(p, d.fields[k], address, FieldPath(path, d.fields[k].name).value, input).edits)
    decreases |input|, d, 0
  {
    EditableFieldFound(d, k);
    FieldChosen(root, base, path, d, address, k);
    FieldEditsAddressed(p, root, base, d.fields[k], address, FieldPath(path, d.fields[k].name).value, input);
  }

  lemma FieldEditsAddressed(p: Parsers, root: Descriptor, base: nat, f: Field, address: nat, path: string,
                            input: seq<Reply>)
    requires Layout(root) && FieldEditable(f) && Leads(root, base, path, f, address + f.offset, false)
    ensures AllAddressed(p, root, base, RunField(p, f, address, path, input).edits)
    decreases |input|, f, 3
  {
    if IsArray(f) {
      ArrayEditsAddressed(p, root, base, f, address + f.offset, path, input);
    } else {
      ElementEditsAddressed(p, root, base, f, address + f.offset, false, path, input);
    }
  }

  // ---- Edits on memory ----

  function Write(mem: seq<Byte>, at: nat, bytes: seq<Byte>): (r: seq<Byte>)
    ensures |r| == |mem|
  {
    if at + |bytes| <= |mem| then Splice(mem, at, bytes) else mem
  }

  /** The edits one after the other, each at its address. */
  function Apply(mem: seq<Byte>, edits: seq<Edit>): (r: seq<Byte>)
    ensures |r| == |mem|
    decreases |edits|
  {
    if edits == [] then mem else Apply(Write(mem, edits[0].address, edits[0].bytes), edits[1..])
  }

  /** The edits one after the other, each wherever its path resolves to. */
  function ApplyByPath(root: Descriptor, base: nat, mem: seq<Byte>, edits: seq<Edit>): seq<Byte>
    decreases |edits|
  {
    if edits == [] then mem
    else
      match Resolve(root, base, edits[0].path, 0)
      case Failed(_) => ApplyByPath(root, base, mem, edits[1..])
      case Resolved(t) => ApplyByPath(root, base, Write(mem, t.address, edits[0].bytes), edits[1..])
  }

  lemma {:induction false} ApplyAgrees(p: Parsers, root: Descriptor, base: nat, mem: seq<Byte>, edits: seq<Edit>)
    requires AllAddressed(p, root, base, edits)
    ensures ApplyByPath(root, base, mem, edits) == Apply(mem, edits)
    decreases |edits|
  {
    if edits != [] {
      assert Addressed(p, root, base, edits[0]);
      ApplyAgrees(p, root, base, Write(mem, edits[0].address, edits[0].bytes), edits[1..]);
    }
  }

  /** A byte outside every edited leaf keeps its value. */
  lemma {:induction false} ApplyFrame(mem: seq<Byte>, edits: seq<Edit>, o: nat)
    requires o < |mem| && forall e <- edits :: !(e.address <= o < e.address + |e.bytes|)
    ensures Apply(mem, edits)[o] == mem[o]
    decreases |edits|
  {
    if edits != [] {
      ApplyFrame(Write(mem, edits[0].address, edits[0].bytes), edits[1..], o);
    }
  }

  lemma {:induction false} ApplyAppend(mem: seq<Byte>, first: seq<Edit>, second: seq<Edit>)
    ensures Apply(mem, first + second) == Apply(Apply(mem, first), second)
    decreases |first|
  {
    if first == [] {
      assert first + second == second;
    } else {
      assert (first + second)[1..] == first[1..] + second;
      ApplyAppend(Write(mem, first[0].address, first[0].bytes), first[1..], second);
    }
  }

  /** Path-addressed edits stay inside the instance. */
  lemma OutsideUntouched(p: Parsers, root: Descriptor, base: nat, mem: seq<Byte>, edits: seq<Edit>, o: nat)
    requires AllAddressed(p, root, base, edits) && o < |mem| && !(base <= o < base + root.size)
    ensures Apply(mem, edits)[o] == mem[o]
  {
    forall e | e in edits ensures !(e.address <= o < e.address + |e.bytes|) {
      assert Addressed(p, root, base, e);
    }
    ApplyFrame(mem, edits, o);
  }

  /** What a list of edits must be: path-addressed, the same in both readings, and kept to the instance. */
  ghost predicate ArePathEdits(p: Parsers, root: Descriptor, base: nat, mem: seq<Byte>, edits: seq<Edit>) {
    && AllAddressed(p, root, base, edits) && Apply(mem, edits) == ApplyByPath(root, base, mem, edits)
    && (forall o :: 0 <= o < |mem| && !(base <= o < base + root.size) ==> Apply(mem, edits)[o] == mem[o])
    && (base + root.size <= |mem| ==> LastWritesStand(mem, edits))
  }

  predicate Covers(e: Edit, o: int) {
    e.address <= o < e.address + |e.bytes|
  }

  /** In the final memory every byte of an edit is the one it wrote, unless a later edit covers it. */
  ghost predicate LastWritesStand(mem: seq<Byte>, edits: seq<Edit>) {
    forall n, o :: 0 <= n < |edits| && 0 <= o < |mem| && Covers(edits[n], o)
                   && (forall m :: n < m < |edits| ==> !Covers(edits[m], o)) ==>
      Apply(mem, edits)[o] == edits[n].bytes[o - edits[n].address]
  }

  lemma {:induction false} WriteStands(mem: seq<Byte>, edits: seq<Edit>, n: nat, o: nat)
    requires n < |edits| && o < |mem| && Covers(edits[n], o) && edits[n].address + |edits[n].bytes| <= |mem|
    requires forall m :: n < m < |edits| ==> !Covers(edits[m], o)
    ensures Apply(mem, edits)[o] == edits[n].bytes[o - edits[n].address]
    decreases n
  {
    var first, rest := Write(mem, edits[0].address, edits[0].bytes), edits[1..];
    if n == 0 {
      forall e | e in rest ensures !Covers(e, o) {
        var m :| 0 <= m < |rest| && rest[m] == e;
        assert edits[m + 1] == e;
      }
      ApplyFrame(first, rest, o);
    } else {
      assert forall m :: n - 1 < m < |rest| ==> rest[m] == edits[m + 1];
      WriteStands(first, rest, n - 1, o);
    }
  }

  lemma AddressedArePathEdits(p: Parsers, root: Descriptor, base: nat, mem: seq<Byte>, edits: seq<Edit>)
    requires AllAddressed(p, root, base, edits)
    ensures ArePathEdits(p, root, base, mem, edits)
  {
    ApplyAgrees(p, root, base, mem, edits);
    forall o | 0 <= o < |mem| && !(base <= o < base + root.size) ensures Apply(mem, edits)[o] == mem[o] {
      OutsideUntouched(p, root, base, mem, edits, o);
    }
    if base + root.size <= |mem| {
      AddressedWritesStand(p, root, base, mem, edits);
    }
  }

  lemma AddressedWritesStand(p: Parsers, root: Descriptor, base: nat, mem: seq<Byte>, edits: seq<Edit>)
    requires AllAddressed(p, root, base, edits) && base + root.size <= |mem|
    ensures LastWritesStand(mem, edits)
  {
    forall n, o | 0 <= n < |edits| && 0 <= o < |mem| && Covers(edits[n], o)
                  && (forall m :: n < m < |edits| ==> !Covers(edits[m], o))
      ensures Apply(mem, edits)[o] == edits[n].bytes[o - edits[n].address]
    {
      assert Addressed(p, root, base, edits[n]);
      WriteStands(mem, edits, n, o);
    }
  }

  /**
    A menu session over any replies is a sequence of path-addressed edits: its final
    memory is the fold of "resolve the displayed path, write the value there" over the
    accepted values, and no byte outside the instance changes.
   */
  lemma SessionIsPathEdits(p: Parsers, root: Descriptor, base: nat, input: seq<Reply>, mem: seq<Byte>)
    requires Layout(root) && Editable(root)
    ensures ArePathEdits(p, root, base, mem, RunStruct(p, root, base, "", input).edits)
  {
    StructEditsAddressed(p, root, base, root, base, "", input);
    AddressedArePathEdits(p, root, base, mem, RunStruct(p, root, base, "", input).edits);
  }

  // ---- Starting from a path ----

  /** Where end of input is not an error. */
  function AtTopLevel(status: Status): Status {
    if status == Eof then Ok else status
  }

  /** A whole array is edited through its element menu, anything else directly. */
  function RunTarget(p: Parsers, t: Target, path: string, input: seq<Reply>): Session {
    if IsArray(t.field) && !HasTerminalIndex(path) then RunArray(p, t.field, t.address, path, input)
    else RunElement(p, t.field, t.address, path, input)
  }

  /** What a path leads to is as editable as the descriptor it starts from. */
  lemma {:induction false} TargetEditable(d: Descriptor, base: nat, segments: seq<Segment>)
    requires Editable(d) && WalkSegments(d, base, segments).Some?
    ensures FieldEditable(WalkSegments(d, base, segments).value.field)
    decreases |segments|
  {
    var f := FindField(d.fields, segments[0].name).value;
    assert FieldEditable(f);
    if |segments| > 1 {
      TargetEditable(f.kind.nested, SegmentAddress(f, base, segments[0].index).value, segments[1..]);
    }
  }

  /** A session started from an accepted path is a sequence of path-addressed edits too. */
  lemma PathSessionIsPathEdits(p: Parsers, root: Descriptor, base: nat, path: string, input: seq<Reply>, mem: seq<Byte>)
    requires Layout(root) && Editable(root) && Resolve(root, base, path, 0).Resolved?
    ensures ArePathEdits(p, root, base, mem, RunTarget(p, Resolve(root, base, path, 0).target, path, input).edits)
  {
    var t := Resolve(root, base, path, 0).target;
    ResolveIsParseThenWalk(root, base, path, 0);
    var segments := Parse(path, 0).value;
    TerminalIndexIsLastIndex(path);
    TargetEditable(root, base, segments);
    assert Leads(root, base, path, t.field, t.address, HasTerminalIndex(path));
    if IsArray(t.field) && !HasTerminalIndex(path) {
      ArrayEditsAddressed(p, root, base, t.field, t.address, path, input);
    } else {
      ElementEditsAddressed(p, root, base, t.field, t.address, HasTerminalIndex(path), path, input);
    }
    AddressedArePathEdits(p, root, base, mem, RunTarget(p, t, path, input).edits);
  }

  // ---- Every path-addressed edit can be made from the menus ----

  function IndexOf(fields: seq<Field>, name: string): (k: nat)
    requires FindField(fields, name).Some?
    ensures k < |fields| && fields[k] == FindField(fields, name).value
  {
    if fields[0].name == name then 0 else 1 + IndexOf(fields[1..], name)
  }

  /** A way to type every number a menu can ask for. */
  ghost predicate CanType(p: Parsers, numeral: nat -> CText) {
    forall n: nat :: n <= INT_MAX ==> numeral(n) != [] && p.parseInt(numeral(n)) == Some(n)
  }

  const BLANK: Reply := Line([])

  /** The replies that walk the menus of `d` along `segments`, enter `value`, and walk back. */
  function Keystrokes(numeral: nat -> CText, d: Descriptor, base: nat, segments: seq<Segment>, value: CText): seq<Reply>
    requires WalkSegments(d, base, segments).Some?
    decreases |segments|, 0
  {
    var f := FindField(d.fields, segments[0].name).value;
    var a := SegmentAddress(f, base, segments[0].index).value;
    [Line(numeral(IndexOf(d.fields, segments[0].name) + 1))]
    + FieldKeystrokes(numeral, f, a, segments[0].index, segments[1..], value)
  }

  function FieldKeystrokes(numeral: nat -> CText, f: Field, a: nat, index: Option<nat>, rest: seq<Segment>,
                           value: CText): seq<Reply>
    requires WalkRest(f, a, index.Some?, rest).Some?
    decreases |rest|, 2
  {
    var inner := ElementKeystrokes(numeral, f, a, index.Some?, rest, value);
    if IsArray(f) && index.Some? then [Line(numeral(index.value))] + inner + [BLANK] else inner
  }

  function ElementKeystrokes(numeral: nat -> CText, f: Field, a: nat, hasIndex: bool, rest: seq<Segment>,
                             value: CText): seq<Reply>
    requires WalkRest(f, a, hasIndex, rest).Some?
    decreases |rest|, 1
  {
    if rest == [] then [Line(value)] else Keystrokes(numeral, f.kind.nested, a, rest, value) + [BLANK]
  }

  /** The menus along `segments` can be shown and their numbers fit an `int`. */
  ghost predicate MenusUsable(d: Descriptor, base: nat, path: string, segments: seq<Segment>)
    requires WalkSegments(d, base, segments).Some?
    decreases |segments|
  {
    var f := FindField(d.fields, segments[0].name).value;
    var a := SegmentAddress(f, base, segments[0].index).value;
    var shown, rest := FieldPath(path, f.name), segments[1..];
    assert WalkSegments(d, base, segments) == WalkRest(f, a, segments[0].index.Some?, rest);
    && FieldsFit(d, path) && |d.fields| <= INT_MAX && shown.Some?
    && (IsArray(f) && segments[0].index.Some? ==> ElementsFit(f, shown.value) && segments[0].index.value <= INT_MAX)
    && (rest != [] ==> MenusUsable(f.kind.nested, a, ShownElement(f, shown.value, segments[0].index), rest))
  }

  /** The path a menu shows for the element that is opened. */
  function ShownElement(f: Field, path: string, index: Option<nat>): string {
    if IsArray(f) && index.Some? then path + IndexText(index.value) else path
  }

  /** The path the menus have printed when the walk along `segments` has reached its end. */
  function ShownPath(d: Descriptor, base: nat, path: string, segments: seq<Segment>): string
    requires WalkSegments(d, base, segments).Some?
    decreases |segments|, 0
  {
    var f := FindField(d.fields, segments[0].name).value;
    var a := SegmentAddress(f, base, segments[0].index).value;
    var entry := path + (if path == "" then "" else ".") + f.name;
    ShownBelow(f, a, ShownElement(f, entry, segments[0].index), segments[0].index.Some?, segments[1..])
  }

  function ShownBelow(f: Field, a: nat, path: string, hasIndex: bool, rest: seq<Segment>): string
    requires WalkRest(f, a, hasIndex, rest).Some?
    decreases |rest|, 1
  {
    if rest == [] then path else ShownPath(f.kind.nested, a, path, rest)
  }

  /** The last segment of a walk selects one element. */
  predicate SelectsOne(t: Target, segments: seq<Segment>) {
    IsArray(t.field) ==> segments != [] && segments[|segments| - 1].index.Some?
  }

  /** From an opened element the menus can go on along `rest` and the value is accepted there. */
  ghost predicate ElementReachable(p: Parsers, f: Field, a: nat, path: string, hasIndex: bool, rest: seq<Segment>,
                                   value: CText)
  {
    && WalkRest(f, a, hasIndex, rest).Some?
    && (f.kind.StructKind? ==> Layout(f.kind.nested))
    && (rest != [] ==>
          MenusUsable(f.kind.nested, a, path, rest) && SelectsOne(WalkRest(f, a, hasIndex, rest).value, rest))
    && value != [] && Accept(p, WalkRest(f, a, hasIndex, rest).value.field, value).Some?
  }

  function EditOf(p: Parsers, t: Target, value: CText, shown: string): Edit
    requires Accept(p, t.field, value).Some?
  {
    Edit(shown, t.address, Accept(p, t.field, value).value)
  }

  /**
    Any edit a path addresses can be made from the menus: the keystrokes make exactly
    that edit and bring the session back to where it was.
   */
  lemma {:induction false} MenusReach(p: Parsers, numeral: nat -> CText, d: Descriptor, base: nat, path: string,
                                      segments: seq<Segment>, value: CText, tail: seq<Reply>)
    requires CanType(p, numeral) && Layout(d) && WalkSegments(d, base, segments).Some?
             && MenusUsable(d, base, path, segments)
    requires value != [] && Accept(p, WalkSegments(d, base, segments).value.field, value).Some?
    requires SelectsOne(WalkSegments(d, base, segments).value, segments)
    ensures RunStruct(p, d, base, path, Keystrokes(numeral, d, base, segments, value) + tail)
            == After([EditOf(p, WalkSegments(d, base, segments).value, value, ShownPath(d, base, path, segments))],
                     RunStruct(p, d, base, path, tail))
    decreases |segments|, 0
  {
    var k := IndexOf(d.fields, segments[0].name);
    var f := d.fields[k];
    assert FieldLayout(f, d.size);
    var index, rest := segments[0].index, segments[1..];
    var a := SegmentAddress(f, base, index).value;
    var entry := FieldPath(path, f.name).value;
    assert WalkSegments(d, base, segments) == WalkRest(f, a, index.Some?, rest);
    assert rest != [] ==> rest[|rest| - 1] == segments[|segments| - 1];
    var keys := FieldKeystrokes(numeral, f, a, index, rest, value);
    FieldReach(p, numeral, f, d.size, base, entry, index, rest, value, tail);
    var e := EditOf(p, WalkSegments(d, base, segments).value, value, ShownPath(d, base, path, segments));
    EditMadeThrough(p, numeral, d, base, path, k, keys, tail, e);
  }

  /** A field menu through which one edit is made goes on with the rest. */
  lemma EditMadeThrough(p: Parsers, numeral: nat -> CText, d: Descriptor, base: nat, path: string, k: nat,
                        keys: seq<Reply>, tail: seq<Reply>, e: Edit)
    requires CanType(p, numeral) && FieldsFit(d, path) && k < |d.fields| <= INT_MAX
    requires FieldPath(path, d.fields[k].name).Some?
    requires RunField(p, d.fields[k], base, FieldPath(path, d.fields[k].name).value, keys + tail)
             == Session(Ok, tail, [e])
    ensures RunStruct(p, d, base, path, [Line(numeral(k + 1))] + keys + tail)
            == After([e], RunStruct(p, d, base, path, tail))
  {
    FieldPicked(p, numeral, d, base, path, k, keys + tail);
    assert [Line(numeral(k + 1))] + keys + tail == [Line(numeral(k + 1))] + (keys + tail);
  }

  /** One choice in a field menu. */
  lemma FieldPicked(p: Parsers, numeral: nat -> CText, d: Descriptor, base: nat, path: string, k: nat,
                    input: seq<Reply>)
    requires CanType(p, numeral) && FieldsFit(d, path) && k < |d.fields| <= INT_MAX
    ensures var s := RunField(p, d.fields[k], base, FieldPath(path, d.fields[k].name).value, input);
            RunStruct(p, d, base, path, [Line(numeral(k + 1))] + input)
            == if s.status != Ok then s else After(s.edits, RunStruct(p, d, base, path, s.rest))
  {
    var all := [Line(numeral(k + 1))] + input;
    assert all[1..] == input;
    assert FieldPath(path, d.fields[k].name).Some?;
  }

  lemma {:induction false} FieldReach(p: Parsers, numeral: nat -> CText, f: Field, size: Size, base: nat, path: string,
                                      index: Option<nat>, rest: seq<Segment>, value: CText, tail: seq<Reply>)
    requires CanType(p, numeral) && FieldLayout(f, size) && SegmentAddress(f, base, index).Some?
    requires IsArray(f) && index.Some? ==> ElementsFit(f, path) && index.value <= INT_MAX
    requires ElementReachable(p, f, SegmentAddress(f, base, index).value, ShownElement(f, path, index), index.Some?,
                              rest, value)
    requires rest == [] && IsArray(f) ==> index.Some?
    ensures var a := SegmentAddress(f, base, index).value;
            RunField(p, f, base, path, FieldKeystrokes(numeral, f, a, index, rest, value) + tail)
            == Session(Ok, tail, [EditOf(p, WalkRest(f, a, index.Some?, rest).value, value,
                                         ShownBelow(f, a, ShownElement(f, path, index), index.Some?, rest))])
    decreases |rest|, 3
  {
    var a := SegmentAddress(f, base, index).value;
    if IsArray(f) {
      ArrayReach(p, numeral, f, base + f.offset, a, path, index.value, rest, value, tail);
    } else {
      assert a == base + f.offset;
      ElementReach(p, numeral, f, a, path, index.Some?, rest, value, tail);
    }
  }

  lemma {:induction false} ArrayReach(p: Parsers, numeral: nat -> CText, f: Field, at: nat, a: nat, path: string,
                                      i: nat, rest: seq<Segment>, value: CText, tail: seq<Reply>)
    requires CanType(p, numeral) && ElementsFit(f, path) && i < f.elementCount && i <= INT_MAX
             && a == at + i * f.elementSize
    requires ElementReachable(p, f, a, path + IndexText(i), true, rest, value)
    ensures RunArray(p, f, at, path,
                     [Line(numeral(i))] + ElementKeystrokes(numeral, f, a, true, rest, value) + [BLANK] + tail)
            == Session(Ok, tail, [EditOf(p, WalkRest(f, a, true, rest).value, value,
                                         ShownBelow(f, a, path + IndexText(i), true, rest))])
    decreases |rest|, 2
  {
    var inner, more := ElementKeystrokes(numeral, f, a, true, rest, value), [BLANK] + tail;
    var all := [Line(numeral(i))] + (inner + more);
    assert [Line(numeral(i))] + inner + [BLANK] + tail == all && all[1..] == inner + more;
    ChoiceOpensElement(p, f, at, path, all, i, a);
    ElementPathIs(path, i);
    ElementReach(p, numeral, f, a, path + IndexText(i), true, rest, value, more);
    BlankLeaves(p, f, at, path, tail);
  }

  lemma BlankLeaves(p: Parsers, f: Field, at: nat, path: string, tail: seq<Reply>)
    requires ElementsFit(f, path)
    ensures RunArray(p, f, at, path, [BLANK] + tail) == Session(Ok, tail, [])
  {
    assert ([BLANK] + tail)[1..] == tail;
  }

  lemma {:induction false} ElementReach(p: Parsers, numeral: nat -> CText, f: Field, a: nat, path: string,
                                        hasIndex: bool, rest: seq<Segment>, value: CText, tail: seq<Reply>)
    requires CanType(p, numeral) && ElementReachable(p, f, a, path, hasIndex, rest, value)
    ensures RunElement(p, f, a, path, ElementKeystrokes(numeral, f, a, hasIndex, rest, value) + tail)
            == Session(Ok, tail, [EditOf(p, WalkRest(f, a, hasIndex, rest).value, value,
                                         ShownBelow(f, a, path, hasIndex, rest))])
    decreases |rest|, 1
  {
    var input := ElementKeystrokes(numeral, f, a, hasIndex, rest, value) + tail;
    if rest == [] {
      assert input[1..] == tail;
    } else {
      var more := [BLANK] + tail;
      assert input == Keystrokes(numeral, f.kind.nested, a, rest, value) + more;
      MenusReach(p, numeral, f.kind.nested, a, path, rest, value, more);
      assert more[1..] == tail;
      assert RunStruct(p, f.kind.nested, a, path, more) == Session(Ok, tail, []);
    }
  }

  /** From the root, the path printed for that edit resolves to the very leaf the walk addresses. */
  lemma ReachedPathResolves(p: Parsers, numeral: nat -> CText, root: Descriptor, base: nat, segments: seq<Segment>,
                            value: CText)
    requires CanType(p, numeral) && Layout(root) && Editable(root)
    requires WalkSegments(root, base, segments).Some? && MenusUsable(root, base, "", segments)
    requires value != [] && Accept(p, WalkSegments(root, base, segments).value.field, value).Some?
    requires SelectsOne(WalkSegments(root, base, segments).value, segments)
    ensures Addressed(p, root, base,
                      EditOf(p, WalkSegments(root, base, segments).value, value, ShownPath(root, base, "", segments)))
  {
    var keys := Keystrokes(numeral, root, base, segments, value);
    MenusReach(p, numeral, root, base, "", segments, value, []);
    StructEditsAddressed(p, root, base, root, base, "", keys + []);
    assert EditOf(p, WalkSegments(root, base, segments).value, value, ShownPath(root, base, "", segments))
           in RunStruct(p, root, base, "", keys + []).edits;
  }
}
