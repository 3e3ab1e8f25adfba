/** patch/patch.c as it runs: prompt loops that write the instance in place. */
module PatchMemory {
  import opened Types
  import opened Validate
  import opened Path
  import opened Access
  import opened JsonMemory
  import opened Patch

  /** The prompt: hands out its replies one by one, then reports end of input for ever. */
  class Prompt {
    var pending: seq<Reply>

    constructor (replies: seq<Reply>)
      ensures pending == replies
    {
      pending := replies;
    }

    method ReadLine() returns (status: Status, line: CText)
      modifies this
      ensures (status, line, pending) == Read(old(pending))
    {
      var r := Read(pending);
      status, line, pending := r.0, r.1, r.2;
    }
  }

  /** An element of `f` may be written at `at`. */
  ghost predicate Writable(f: Field, mem: array<Byte>, at: nat) {
    at + ElementLength(f) <= mem.Length && FieldEditable(f)
      && (f.kind.StructKind? ==> IsPatchable(f.kind.nested, f.elementSize))
  }

  ghost predicate IsPatchable(d: Descriptor, size: Size) {
    Layout(d) && d.size == size && Editable(d)
  }

  method PatchScalar(prompt: Prompt, p: Parsers, f: Field, mem: array<Byte>, at: nat, path: string)
      returns (ret: Status)
    requires Writable(f, mem, at) && !f.kind.StructKind?
    modifies prompt, mem
    ensures var s := RunScalar(p, f, at, path, old(prompt.pending));
            ret == s.status && prompt.pending == s.rest && mem[..] == Apply(old(mem[..]), s.edits)
  {
    while true
      invariant RunScalar(p, f, at, path, prompt.pending) == RunScalar(p, f, at, path, old(prompt.pending))
      invariant mem[..] == old(mem[..])
      decreases |prompt.pending|
    {
      var line;
      ret, line := prompt.ReadLine();
      if ret != Ok {
        return;
      }
      if line == [] {
        return Eof;
      }
      match f.kind {
        case IntKind =>
          var value := p.parseInt(line);
          if value.Some? {
            Store(mem, at, p.storeInt(value.value));
            return Ok;
          }
        case UnsignedKind =>
          var value := p.parseUnsigned(line);
          if value.Some? {
            Store(mem, at, value.value);
            return Ok;
          }
        case FloatKind =>
          var parsed := p.parseDouble(line);
          if parsed.Some? {
            Store(mem, at, p.narrow(parsed.value));
            return Ok;
          }
        case DoubleKind =>
          var value := p.parseDouble(line);
          if value.Some? {
            Store(mem, at, value.value);
            return Ok;
          }
        case CharArrayKind =>
          if |line| < f.charBufferSize {
            Store(mem, at, line + [0]);
            return Ok;
          }
      }
    }
  }

  method PatchElement(prompt: Prompt, p: Parsers, f: Field, mem: array<Byte>, at: nat, path: string)
      returns (ret: Status)
    requires Writable(f, mem, at)
    modifies prompt, mem
    ensures var s := RunElement(p, f, at, path, old(prompt.pending));
            ret == s.status && prompt.pending == s.rest && mem[..] == Apply(old(mem[..]), s.edits)
    decreases |prompt.pending|, f, 1
  {
    if f.kind.StructKind? {
      ret := PatchStruct(prompt, p, f.kind.nested, mem, at, path);
      return;
    }
    ret := PatchScalar(prompt, p, f, mem, at, path);
    if ret == Eof {
      ret := Ok;
    }
  }

  /** The menu lists every element with its full path before it asks. */
  method ShowElements(f: Field, path: string) returns (ret: Status)
    ensures ret == if ElementsFit(f, path) then Ok else OutOfRange
  {
    for i := 0 to f.elementCount
      invariant forall k :: 0 <= k < i ==> ElementPath(path, k).Some?
    {
      var shown := ElementPath(path, i);
      if shown.None? {
        return OutOfRange;
      }
    }
    return Ok;
  }

  /** The menu lists every field with its full path before it asks. */
  method ShowFields(d: Descriptor, base: nat, path: string) returns (ret: Status)
    requires Layout(d)
    ensures ret == if FieldsFit(d, path) then Ok else OutOfRange
  {
    for i := 0 to |d.fields|
      invariant forall k :: 0 <= k < i ==> FieldPath(path, d.fields[k].name).Some?
    {
      var shown := FieldPath(path, d.fields[i].name);
      if shown.None? {
        return OutOfRange;
      }
      assert FieldLayout(d.fields[i], d.size);
      var found, element := FieldGetElement(d.fields[i], d.size, base, 0);
      if found != Ok {
        return found;
      }
    }
    return Ok;
  }

  /** One turn of the element menu of the array at `at`: show it, read a number, open that element. */
  method ArrayTurn(prompt: Prompt, p: Parsers, f: Field, ghost size: Size, mem: array<Byte>, at: nat, path: string)
      returns (ret: Status, again: bool, ghost edits: seq<Edit>)
    requires FieldLayout(f, size) && FieldEditable(f) && IsArray(f) && at + Extent(f) <= mem.Length
    modifies prompt, mem
    ensures mem[..] == Apply(old(mem[..]), edits)
    ensures RunArray(p, f, at, path, old(prompt.pending))
            == if again then After(edits, RunArray(p, f, at, path, prompt.pending))
               else Session(ret, prompt.pending, edits)
    ensures again ==> |prompt.pending| < |old(prompt.pending)|
    decreases |prompt.pending|, f, 2
  {
    again, edits := false, [];
    ret := ShowElements(f, path);
    if ret != Ok {
      return;
    }
    var line;
    ret, line := prompt.ReadLine();
    if ret != Ok || line == [] {
      return;
    }
    var index := p.parseInt(line);
    if index.None? || index.value < 0 || index.value >= f.elementCount {
      again := true;
      return;
    }
    var elementPath := ElementPath(path, index.value);
    if elementPath.None? {
      return OutOfRange, false, [];
    }
    var element := at + index.value * f.elementSize;
    ChoiceOpensElement(p, f, at, path, old(prompt.pending), index.value, element);
    edits := RunElement(p, f, element, elementPath.value, prompt.pending).edits;
    ElementFitsAt(f, size, at, index.value, element, mem.Length);
    ret := PatchElement(prompt, p, f, mem, element, elementPath.value);
    again := ret == Ok;
  }

  /** `patch_array_field`. */
  method PatchArrayField(prompt: Prompt, p: Parsers, f: Field, ghost size: Size, mem: array<Byte>, at: nat,
                         path: string)
      returns (ret: Status)
    requires FieldLayout(f, size) && FieldEditable(f) && IsArray(f) && at + Extent(f) <= mem.Length
    modifies prompt, mem
    ensures var s := RunArray(p, f, at, path, old(prompt.pending));
            ret == s.status && prompt.pending == s.rest && mem[..] == Apply(old(mem[..]), s.edits)
    decreases |prompt.pending|, f, 3
  {
    ghost var done: seq<Edit> := [];
    ghost var whole := RunArray(p, f, at, path, prompt.pending);
    while true
      invariant |prompt.pending| <= |old(prompt.pending)|
      invariant whole == After(done, RunArray(p, f, at, path, prompt.pending))
      invariant mem[..] == Apply(old(mem[..]), done)
      decreases |prompt.pending|
    {
      var again;
      ghost var edits;
      ret, again, edits := ArrayTurn(prompt, p, f, size, mem, at, path);
      ApplyAppend(old(mem[..]), done, edits);
      if !again {
        return;
      }
      AfterTwice(done, edits, RunArray(p, f, at, path, prompt.pending));
      done := done + edits;
    }
  }

  lemma AfterTwice(first: seq<Edit>, second: seq<Edit>, s: Session)
    ensures After(first, After(second, s)) == After(first + second, s)
  {
    assert first + (second + s.edits) == first + second + s.edits;
  }

  /** An element of an array that fits at `at` fits where it is. */
  lemma ElementFitsAt(f: Field, size: Size, at: nat, i: nat, element: nat, length: nat)
    requires FieldLayout(f, size) && !f.kind.CharArrayKind? && at + Extent(f) <= length && i < f.elementCount
    requires element == at + i * f.elementSize
    ensures element + ElementLength(f) <= length
  {
    ElementInside(f, size, i);
  }

  /** Opening the chosen field of the structure at `base`. */
  method PatchField(prompt: Prompt, p: Parsers, f: Field, ghost size: Size, mem: array<Byte>, base: nat, path: string)
      returns (ret: Status)
    requires FieldLayout(f, size) && FieldEditable(f) && base + size <= mem.Length
    modifies prompt, mem
    ensures var s := RunField(p, f, base, path, old(prompt.pending));
            ret == s.status && prompt.pending == s.rest && mem[..] == Apply(old(mem[..]), s.edits)
    decreases |prompt.pending|, f, 4
  {
    var found, element := FieldGetElement(f, size, base, 0);
    if !f.kind.CharArrayKind? && f.elementCount > 1 {
      ret := PatchArrayField(prompt, p, f, size, mem, element.value, path);
    } else {
      ret := PatchElement(prompt, p, f, mem, element.value, path);
    }
  }

  /** One turn of the field menu of the structure at `base`: show it, read a number, open that field. */
  method StructTurn(prompt: Prompt, p: Parsers, d: Descriptor, mem: array<Byte>, base: nat, path: string)
      returns (ret: Status, again: bool, ghost edits: seq<Edit>)
    requires Layout(d) && Editable(d) && base + d.size <= mem.Length
    modifies prompt, mem
    ensures mem[..] == Apply(old(mem[..]), edits)
    ensures RunStruct(p, d, base, path, old(prompt.pending))
            == if again then After(edits, RunStruct(p, d, base, path, prompt.pending))
               else Session(ret, prompt.pending, edits)
    ensures again ==> |prompt.pending| < |old(prompt.pending)|
    decreases |prompt.pending|, d, 0
  {
    again, edits := false, [];
    ret := ShowFields(d, base, path);
    if ret != Ok {
      return;
    }
    var line;
    ret, line := prompt.ReadLine();
    if ret != Ok || line == [] {
      return;
    }
    var index := p.parseInt(line);
    if index.None? || index.value < 1 || index.value > |d.fields| {
      again := true;
      return;
    }
    var f := d.fields[index.value - 1];
    assert FieldLayout(f, d.size) && FieldEditable(f);
    var fieldPath := FieldPath(path, f.name);
    if fieldPath.None? {
      return OutOfRange, false, [];
    }
    edits := RunField(p, f, base, fieldPath.value, prompt.pending).edits;
    ret := PatchField(prompt, p, f, d.size, mem, base, fieldPath.value);
    again := ret == Ok;
  }

  /** `patch_struct`. */
  method PatchStruct(prompt: Prompt, p: Parsers, d: Descriptor, mem: array<Byte>, base: nat, path: string)
      returns (ret: Status)
    requires Layout(d) && Editable(d) && base + d.size <= mem.Length
    modifies prompt, mem
    ensures var s := RunStruct(p, d, base, path, old(prompt.pending));
            ret == s.status && prompt.pending == s.rest && mem[..] == Apply(old(mem[..]), s.edits)
    decreases |prompt.pending|, d, 1
  {
    ghost var done: seq<Edit> := [];
    ghost var whole := RunStruct(p, d, base, path, prompt.pending);
    while true
      invariant |prompt.pending| <= |old(prompt.pending)|
      invariant whole == After(done, RunStruct(p, d, base, path, prompt.pending))
      invariant mem[..] == Apply(old(mem[..]), done)
      decreases |prompt.pending|
    {
      var again;
      ghost var edits;
      ret, again, edits := StructTurn(prompt, p, d, mem, base, path);
      ApplyAppend(old(mem[..]), done, edits);
      if !again {
        return;
      }
      AfterTwice(done, edits, RunStruct(p, d, base, path, prompt.pending));
      done := done + edits;
    }
  }

  // ---- Public entry points ----

  /** What the editor needs of the caller: a fitting instance, and an editable descriptor if it is valid at all. */
  ghost predicate CanEdit(g: Graph, descriptor: Option<nat>, mem: array<Byte>, instance: Option<nat>) {
    && InstanceFits(g, descriptor, mem, instance) && mem.Length <= SIZE_MAX + 1
    && (descriptor.Some? && Valid(g, descriptor.value) ==> Editable(Tree(g, descriptor.value)))
  }

  /** `struct_meta_patch_interactive`: the final memory is the fold of the path-addressed edits of the session. */
  method PatchInteractive(g: Graph, available: nat, canPrompt: bool, p: Parsers, descriptor: Option<nat>,
                          mem: array<Byte>, instance: Option<nat>, replies: seq<Reply>) returns (ret: Status)
    requires CanEdit(g, descriptor, mem, instance)
    modifies mem
    ensures descriptor.None? || instance.None? ==> ret == InvalidArgument && mem[..] == old(mem[..])
    ensures descriptor.Some? && instance.Some? && !Valid(g, descriptor.value) ==>
              && (ret == CorruptDescriptor || (ret == OutOfMemory && MemoryShort(g, available)))
              && mem[..] == old(mem[..])
    ensures descriptor.Some? && instance.Some? && Valid(g, descriptor.value) ==>
              var root := Tree(g, descriptor.value);
              var s := RunStruct(p, root, instance.value, "", replies);
              || (ret == OutOfMemory && (!canPrompt || MemoryShort(g, available)) && mem[..] == old(mem[..]))
              || (canPrompt && ret == AtTopLevel(s.status)
                  && mem[..] == ApplyByPath(root, instance.value, old(mem[..]), s.edits))
  {
    if descriptor.None? || instance.None? {
      return InvalidArgument;
    }
    ret := DescriptorValidate(g, descriptor, available);
    if ret != Ok {
      return;
    }
    if !canPrompt {
      return OutOfMemory;
    }
    var root := Tree(g, descriptor.value);
    var prompt := new Prompt(replies);
    SessionIsPathEdits(p, root, instance.value, replies, mem[..]);
    ret := PatchStruct(prompt, p, root, mem, instance.value, "");
    return AtTopLevel(ret);
  }

  /** Result and memory of a session started from `path`: unchanged if it does not resolve. */
  predicate PathEdited(p: Parsers, root: Descriptor, base: nat, path: string, replies: seq<Reply>, ret: Status,
                       before: seq<Byte>, after: seq<Byte>)
  {
    match Resolve(root, base, path, 0)
    case Failed(status) => ret == status && after == before
    case Resolved(t) =>
      var s := RunTarget(p, t, path, replies);
      ret == AtTopLevel(s.status) && after == ApplyByPath(root, base, before, s.edits)
  }

  /** `struct_meta_patch_path_interactive`: no prompt is opened unless the path resolves. */
  method PatchPathInteractive(g: Graph, available: nat, canPrompt: bool, p: Parsers, descriptor: Option<nat>,
                              mem: array<Byte>, instance: Option<nat>, path: Option<string>, replies: seq<Reply>)
      returns (ret: Status)
    requires CanEdit(g, descriptor, mem, instance)
    modifies mem
    ensures descriptor.None? || instance.None? || path.None? || path.value == "" ==>
              ret == InvalidArgument && mem[..] == old(mem[..])
    ensures descriptor.Some? && instance.Some? && path.Some? && path.value != "" && !Valid(g, descriptor.value) ==>
              && (ret == CorruptDescriptor || (ret == OutOfMemory && MemoryShort(g, available)))
              && mem[..] == old(mem[..])
    ensures descriptor.Some? && instance.Some? && path.Some? && path.value != "" && Valid(g, descriptor.value) ==>
              || (ret == OutOfMemory && (!canPrompt || MemoryShort(g, available)) && mem[..] == old(mem[..]))
              || PathEdited(p, Tree(g, descriptor.value), instance.value, path.value, replies, ret, old(mem[..]),
                            mem[..])
  {
    var field, value;
    ret, field, value := PathResolve(g, available, descriptor, instance, path);
    if ret != Ok {
      return;
    }
    var root := Tree(g, descriptor.value);
    ResolveIsParseThenWalk(root, instance.value, path.value, 0);
    if !canPrompt {
      return OutOfMemory;
    }
    var f := field.value;
    var editArray := !f.kind.CharArrayKind? && f.elementCount > 1 && !HasTerminalIndex(path.value);
    PathSessionIsPathEdits(p, root, instance.value, path.value, replies, mem[..]);
    var prompt := new Prompt(replies);
    ret := PatchTarget(prompt, p, root, instance.value, f, mem, value.value, path.value, editArray);
    return AtTopLevel(ret);
  }

  /** `patch_target`, at a field and address that `path` resolved to. */
  method PatchTarget(prompt: Prompt, p: Parsers, ghost root: Descriptor, ghost base: nat, f: Field, mem: array<Byte>,
                     at: nat, path: string, editArray: bool) returns (ret: Status)
    requires Layout(root) && Editable(root) && base + root.size <= mem.Length
    requires Resolve(root, base, path, 0) == Resolved(Target(f, at))
             && editArray == (IsArray(f) && !HasTerminalIndex(path))
    modifies prompt, mem
    ensures var s := RunTarget(p, Target(f, at), path, old(prompt.pending));
            ret == s.status && prompt.pending == s.rest && mem[..] == Apply(old(mem[..]), s.edits)
  {
    ResolveIsParseThenWalk(root, base, path, 0);
    ghost var segments := Parse(path, 0).value;
    TerminalIndexIsLastIndex(path);
    TargetEditable(root, base, segments);
    TargetInside(root, base, segments);
    ghost var size: Size :| FieldLayout(f, size);
    if editArray {
      ret := PatchArrayField(prompt, p, f, size, mem, at, path);
    } else {
      ElementInside(f, size, 0);
      ret := PatchElement(prompt, p, f, mem, at, path);
    }
  }
}
