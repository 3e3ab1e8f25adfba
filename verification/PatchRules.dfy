/** patch/patch.c: what each reply does where it is read. */
module PatchRules {
  import opened Types
  import opened Path
  import opened Patch

  lemma FirstRead(reply: Reply, rest: seq<Reply>)
    ensures Read([reply] + rest)
            == match reply
               case Line(text) => (Ok, text, rest)
               case EndOfInput => (Eof, [], rest)
               case Cancel => (Canceled, [], rest)
  {
    assert ([reply] + rest)[1..] == rest;
  }

  // ---- A value prompt ----

  /** A line some bytes can be stored for is taken, and exactly those bytes are stored; any other is asked for again. */
  lemma LineTakenOrRefused(p: Parsers, f: Field, at: nat, path: string, line: CText, rest: seq<Reply>)
    requires line != []
    ensures forall bytes :: Stores(p, f, line, bytes) ==>
              RunScalar(p, f, at, path, [Line(line)] + rest) == Session(Ok, rest, [Edit(path, at, bytes)])
    ensures (forall bytes :: !Stores(p, f, line, bytes)) ==>
              RunScalar(p, f, at, path, [Line(line)] + rest) == RunScalar(p, f, at, path, rest)
  {
    FirstRead(Line(line), rest);
    forall bytes | Stores(p, f, line, bytes) ensures Accept(p, f, line) == Some(bytes) {
      AcceptStores(p, f, line, bytes);
    }
    if forall bytes :: !Stores(p, f, line, bytes) {
      if Accept(p, f, line).Some? {
        AcceptStores(p, f, line, Accept(p, f, line).value);
      }
    }
  }

  /** Which lines are taken. */
  lemma TakenLines(p: Parsers, f: Field, line: CText)
    ensures (exists bytes :: Stores(p, f, line, bytes))
            <==> match f.kind
                 case IntKind => p.parseInt(line).Some?
                 case UnsignedKind => p.parseUnsigned(line).Some?
                 case FloatKind => p.parseDouble(line).Some?
                 case DoubleKind => p.parseDouble(line).Some?
                 case CharArrayKind => |line| < f.charBufferSize
                 case StructKind(_) => false
  {
    match f.kind
    case IntKind => if p.parseInt(line).Some? { assert Stores(p, f, line, p.storeInt(p.parseInt(line).value)); }
    case UnsignedKind => if p.parseUnsigned(line).Some? { assert Stores(p, f, line, p.parseUnsigned(line).value); }
    case FloatKind => if p.parseDouble(line).Some? { assert Stores(p, f, line, p.narrow(p.parseDouble(line).value)); }
    case DoubleKind => if p.parseDouble(line).Some? { assert Stores(p, f, line, p.parseDouble(line).value); }
    case CharArrayKind => if |line| < f.charBufferSize { assert Stores(p, f, line, line + [0]); }
    case StructKind(_) =>
  }

  /**
    For one scalar a blank line and the end of input both mean no change and no error; only a
    cancel ends the session.
   */
  lemma NoChange(p: Parsers, f: Field, at: nat, path: string, rest: seq<Reply>)
    requires !f.kind.StructKind?
    ensures RunScalar(p, f, at, path, [BLANK] + rest) == Session(Eof, rest, [])
    ensures RunElement(p, f, at, path, [BLANK] + rest) == Session(Ok, rest, [])
    ensures RunElement(p, f, at, path, [EndOfInput] + rest) == Session(Ok, rest, [])
    ensures RunElement(p, f, at, path, []) == Session(Ok, [], [])
    ensures RunElement(p, f, at, path, [Cancel] + rest) == Session(Canceled, rest, [])
  {
    FirstRead(BLANK, rest);
    FirstRead(EndOfInput, rest);
    FirstRead(Cancel, rest);
  }

  // ---- Menus ----

  /** A field menu is left by a blank line, and ended by the end of input or a cancel. */
  lemma FieldMenuLeft(p: Parsers, d: Descriptor, base: nat, path: string, rest: seq<Reply>)
    requires FieldsFit(d, path)
    ensures RunStruct(p, d, base, path, [BLANK] + rest) == Session(Ok, rest, [])
    ensures RunStruct(p, d, base, path, [EndOfInput] + rest) == Session(Eof, rest, [])
    ensures RunStruct(p, d, base, path, []) == Session(Eof, [], [])
    ensures RunStruct(p, d, base, path, [Cancel] + rest) == Session(Canceled, rest, [])
  {
    FirstRead(BLANK, rest);
    FirstRead(EndOfInput, rest);
    FirstRead(Cancel, rest);
  }

  lemma ElementMenuLeft(p: Parsers, f: Field, at: nat, path: string, rest: seq<Reply>)
    requires ElementsFit(f, path)
    ensures RunArray(p, f, at, path, [BLANK] + rest) == Session(Ok, rest, [])
    ensures RunArray(p, f, at, path, [EndOfInput] + rest) == Session(Eof, rest, [])
    ensures RunArray(p, f, at, path, []) == Session(Eof, [], [])
    ensures RunArray(p, f, at, path, [Cancel] + rest) == Session(Canceled, rest, [])
  {
    FirstRead(BLANK, rest);
    FirstRead(EndOfInput, rest);
    FirstRead(Cancel, rest);
  }

  /** Fields are numbered from 1; any other line asks again. */
  lemma FieldMenuAsksAgain(p: Parsers, d: Descriptor, base: nat, path: string, line: CText, rest: seq<Reply>)
    requires FieldsFit(d, path) && line != []
    requires p.parseInt(line).Some? ==> p.parseInt(line).value < 1 || p.parseInt(line).value > |d.fields|
    ensures RunStruct(p, d, base, path, [Line(line)] + rest) == RunStruct(p, d, base, path, rest)
  {
    FirstRead(Line(line), rest);
  }

  /** Elements are numbered from 0; any other line asks again. */
  lemma ElementMenuAsksAgain(p: Parsers, f: Field, at: nat, path: string, line: CText, rest: seq<Reply>)
    requires ElementsFit(f, path) && line != []
    requires p.parseInt(line).Some? ==> p.parseInt(line).value < 0 || p.parseInt(line).value >= f.elementCount
    ensures RunArray(p, f, at, path, [Line(line)] + rest) == RunArray(p, f, at, path, rest)
  {
    FirstRead(Line(line), rest);
  }

  /** A menu one of whose paths cannot be shown is not opened. */
  lemma UnshownMenu(p: Parsers, d: Descriptor, base: nat, path: string, input: seq<Reply>)
    requires exists f :: f in d.fields && |path| + |f.name| >= SIZE_MAX
    ensures RunStruct(p, d, base, path, input) == Session(OutOfRange, input, [])
  {
    var f :| f in d.fields && |path| + |f.name| >= SIZE_MAX;
    var k :| 0 <= k < |d.fields| && d.fields[k] == f;
    assert FieldPath(path, d.fields[k].name).None?;
  }

  // ---- What is opened ----

  /** A char array or a single element is edited directly, anything else through an element menu. */
  lemma FieldOpens(p: Parsers, f: Field, base: nat, path: string, input: seq<Reply>)
    requires 0 < f.elementCount
    ensures f.kind.CharArrayKind? || f.elementCount == 1 ==>
              RunField(p, f, base, path, input) == RunElement(p, f, base + f.offset, path, input)
    ensures !f.kind.CharArrayKind? && f.elementCount > 1 ==>
              RunField(p, f, base, path, input) == RunArray(p, f, base + f.offset, path, input)
  {
  }

  /** A session started from a path opens the element menu exactly for an array whose last segment has no index. */
  lemma TargetOpens(p: Parsers, root: Descriptor, base: nat, path: string, input: seq<Reply>)
    requires Resolve(root, base, path, 0).Resolved? && Parse(path, 0).Some?
    ensures var t := Resolve(root, base, path, 0).target;
            RunTarget(p, t, path, input)
            == if !t.field.kind.CharArrayKind? && t.field.elementCount > 1 && LastUnindexed(Parse(path, 0).value)
               then RunArray(p, t.field, t.address, path, input)
               else RunElement(p, t.field, t.address, path, input)
  {
    TerminalIndexIsLastIndex(path);
  }

  /** For the caller, a session that ends with the input has succeeded; every other end is passed on. */
  lemma EndOfInputIsSuccess(p: Parsers, d: Descriptor, base: nat, status: Status)
    ensures FieldsFit(d, "") ==> AtTopLevel(RunStruct(p, d, base, "", []).status) == Ok
    ensures status != Eof ==> AtTopLevel(status) == status
  {
    if FieldsFit(d, "") {
      FieldMenuLeft(p, d, base, "", []);
    }
  }
}
