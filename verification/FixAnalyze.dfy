/** bin/fix-if-comments.py as it runs: one pass with a stack of mutable frames, then two passes over its records. */
module FixAnalyze {
  import opened Types
  import opened FixComments

  /** An open conditional. Its macro list keeps growing while records already refer to it. */
  class Frame {
    const opener: Line
    var macros: seq<string>
    var hasElse: bool
    var hasElif: bool
    var complexElif: bool

    constructor (opener: Line)
      ensures this.opener == opener && macros == (if opener.IfDefined? then [opener.macro] else [])
      ensures !hasElse && !hasElif && !complexElif
    {
      this.opener := opener;
      macros := if opener.IfDefined? then [opener.macro] else [];
      hasElse, hasElif, complexElif := false, false, false;
    }
  }

  /** What is noted at an `#else` or `#endif`: the frame itself, and its flags as they are at that line. */
  datatype Note = Note(frame: Frame, hasElif: bool, complexElif: bool)

  // ---- The chain, one line further ----

  /** An `#elif` of the `defined` chain opened at `o`. */
  predicate ExtendsChain(lines: seq<Line>, o: nat, i: nat)
    requires o < |lines| && i < |lines|
  {
    lines[o].IfDefined? && Owns(lines, o, i) && IsElif(lines[i])
  }

  lemma ChainStep(lines: seq<Line>, o: nat, i: nat)
    requires o < i < |lines|
    ensures MacrosOf(lines, o, i + 1) == MacrosOf(lines, o, i)
               + if ExtendsChain(lines, o, i) && lines[i].ElifDefined? then [lines[i].macro] else []
    ensures HasElif(lines, o, i + 1) == (HasElif(lines, o, i) || ExtendsChain(lines, o, i))
    ensures HasComplexElif(lines, o, i + 1)
            == (HasComplexElif(lines, o, i) || (ExtendsChain(lines, o, i) && lines[i].ElifExpr?))
  {
    assert Owns(lines, o, i) ==> Owns(lines, o, i);
  }

  lemma ChainStart(lines: seq<Line>, o: nat)
    requires o < |lines|
    ensures MacrosOf(lines, o, o + 1) == if lines[o].IfDefined? then [lines[o].macro] else []
    ensures !HasElif(lines, o, o + 1) && !HasComplexElif(lines, o, o + 1)
  {
  }

  // ---- The invariants of the stack pass ----

  /** `f` records the conditional opened at `o` as far as line `i`. */
  ghost predicate Records(f: Frame, lines: seq<Line>, o: nat, i: nat)
    reads f
  {
    && o < i <= |lines| && Opens(lines[o]) && f.opener == lines[o]
    && f.macros == MacrosOf(lines, o, i) && f.hasElif == HasElif(lines, o, i)
      && f.complexElif == HasComplexElif(lines, o, i)
  }

  ghost predicate FramesRecord(frames: map<nat, Frame>, lines: seq<Line>, i: nat)
    reads frames.Values
  {
    && (forall o :: o in frames ==> Records(frames[o], lines, o, i))
    && (forall o, p :: o in frames && p in frames && o != p ==> frames[o] != frames[p])
  }

  ghost predicate StackMatches(stack: seq<Frame>, frames: map<nat, Frame>, lines: seq<Line>, i: nat)
    requires i <= |lines|
  {
    && |stack| == |Stack(lines, i)|
    && forall k :: 0 <= k < |stack| ==> Stack(lines, i)[k] in frames && frames[Stack(lines, i)[k]] == stack[k]
  }

  predicate Noted(l: Line, elses: bool) {
    if elses then l.Else? else l.Endif?
  }

  /** Exactly the owned lines of the wanted kind before line `i` are noted, each with its own frame. */
  ghost predicate NotesMatch(notes: map<nat, Note>, frames: map<nat, Frame>, lines: seq<Line>, i: nat, elses: bool)
    requires i <= |lines|
  {
    && (forall j :: j in notes ==> j < i && NoteMatches(notes[j], frames, lines, j) && Noted(lines[j], elses))
    && (forall j {:trigger MustNote(lines, j, elses)} :: 0 <= j < i && MustNote(lines, j, elses) ==> j in notes)
  }

  predicate MustNote(lines: seq<Line>, j: nat, elses: bool)
    requires j < |lines|
  {
    Owner(lines, j).Some? && Noted(lines[j], elses)
  }

  ghost predicate NoteMatches(n: Note, frames: map<nat, Frame>, lines: seq<Line>, j: nat)
    requires j < |lines|
  {
    match Owner(lines, j)
    case None => false
    case Some(o) => o in frames && n == Note(frames[o], HasElif(lines, o, j), HasComplexElif(lines, o, j))
  }

  lemma NotesStep(notes: map<nat, Note>, frames: map<nat, Frame>, lines: seq<Line>, i: nat, elses: bool)
    requires i < |lines| && NotesMatch(notes, frames, lines, i, elses)
    requires !MustNote(lines, i, elses)
    ensures NotesMatch(notes, frames, lines, i + 1, elses)
  {
  }

  lemma NotesAdd(notes: map<nat, Note>, frames: map<nat, Frame>, lines: seq<Line>, i: nat, elses: bool, n: Note)
    requires i < |lines| && NotesMatch(notes, frames, lines, i, elses) && Noted(lines[i], elses)
             && NoteMatches(n, frames, lines, i)
    ensures NotesMatch(notes[i := n], frames, lines, i + 1, elses)
  {
  }

  lemma NotesGrow(notes: map<nat, Note>, frames: map<nat, Frame>, lines: seq<Line>, i: nat, elses: bool, f: Frame)
    requires i < |lines| && NotesMatch(notes, frames, lines, i, elses) && i !in frames
    ensures NotesMatch(notes, frames[i := f], lines, i, elses)
  {
    forall j | j in notes ensures NoteMatches(notes[j], frames[i := f], lines, j) {
      assert NoteMatches(notes[j], frames, lines, j);
    }
  }

  /** The innermost frame is the owner's. */
  lemma TopIsOwner(stack: seq<Frame>, frames: map<nat, Frame>, lines: seq<Line>, i: nat)
    requires i <= |lines| && StackMatches(stack, frames, lines, i) && stack != []
    ensures Owner(lines, i).Some? && Owner(lines, i).value in frames
            && frames[Owner(lines, i).value] == stack[|stack| - 1]
  {
    assert Stack(lines, i)[|stack| - 1] in frames;
  }

  /** Only the owner's frame has anything new to record at line `i`. */
  lemma FrameStep(f: Frame, lines: seq<Line>, o: nat, i: nat)
    requires i < |lines| && Records(f, lines, o, i) && !ExtendsChain(lines, o, i)
    ensures Records(f, lines, o, i + 1)
  {
    ChainStep(lines, o, i);
  }

  lemma FramesStep(frames: map<nat, Frame>, lines: seq<Line>, i: nat)
    requires i < |lines| && FramesRecord(frames, lines, i) && !IsElif(lines[i])
    ensures FramesRecord(frames, lines, i + 1)
  {
    forall o | o in frames ensures Records(frames[o], lines, o, i + 1) {
      FrameStep(frames[o], lines, o, i);
    }
  }

  lemma FramesUnowned(frames: map<nat, Frame>, lines: seq<Line>, i: nat)
    requires i < |lines| && FramesRecord(frames, lines, i) && Owner(lines, i).None?
    ensures FramesRecord(frames, lines, i + 1)
  {
    forall o | o in frames ensures Records(frames[o], lines, o, i + 1) {
      FrameStep(frames[o], lines, o, i);
    }
  }

  /** Stack, frames and notes are as they must be before line `i`. */
  ghost predicate Tracks(stack: seq<Frame>, elses: map<nat, Note>, endifs: map<nat, Note>, frames: map<nat, Frame>,
                         lines: seq<Line>, i: nat)
    requires i <= |lines|
    reads frames.Values
  {
    && FramesRecord(frames, lines, i) && StackMatches(stack, frames, lines, i)
    && NotesMatch(elses, frames, lines, i, true) && NotesMatch(endifs, frames, lines, i, false)
  }

  /** A line the stack pass has nothing to do for. */
  lemma PlainLine(stack: seq<Frame>, elses: map<nat, Note>, endifs: map<nat, Note>, frames: map<nat, Frame>,
                  lines: seq<Line>, i: nat)
    requires i < |lines| && Tracks(stack, elses, endifs, frames, lines, i) && !Opens(lines[i])
    requires stack == [] || (!IsElif(lines[i]) && !lines[i].Else? && !lines[i].Endif?)
    ensures Tracks(stack, elses, endifs, frames, lines, i + 1)
  {
    if stack == [] {
      FramesUnowned(frames, lines, i);
    } else {
      FramesStep(frames, lines, i);
    }
    NotesStep(elses, frames, lines, i, true);
    NotesStep(endifs, frames, lines, i, false);
  }

  lemma PushedMatches(stack: seq<Frame>, frames: map<nat, Frame>, lines: seq<Line>, i: nat, frame: Frame)
    requires i < |lines| && Opens(lines[i]) && StackMatches(stack, frames, lines, i) && i !in frames
    ensures StackMatches(stack + [frame], frames[i := frame], lines, i + 1)
  {
  }

  lemma NotesOpened(notes: map<nat, Note>, frames: map<nat, Frame>, lines: seq<Line>, i: nat, elses: bool, frame: Frame)
    requires i < |lines| && Opens(lines[i]) && NotesMatch(notes, frames, lines, i, elses) && i !in frames
    ensures NotesMatch(notes, frames[i := frame], lines, i + 1, elses)
  {
    NotesGrow(notes, frames, lines, i, elses, frame);
    NotesStep(notes, frames[i := frame], lines, i, elses);
  }

  /** An opener pushes a new frame. */
  method Open(lines: seq<Line>, i: nat, stack: seq<Frame>, ghost elses: map<nat, Note>, ghost endifs: map<nat, Note>,
              ghost frames: map<nat, Frame>)
      returns (pushed: seq<Frame>, frame: Frame)
    requires i < |lines| && Opens(lines[i]) && Tracks(stack, elses, endifs, frames, lines, i)
    ensures fresh(frame) && i !in frames && Tracks(pushed, elses, endifs, frames[i := frame], lines, i + 1)
  {
    frame := new Frame(lines[i]);
    pushed := stack + [frame];
    ChainStart(lines, i);
    FramesStep(frames, lines, i);
    assert Records(frame, lines, i, i + 1);
    PushedMatches(stack, frames, lines, i, frame);
    NotesOpened(elses, frames, lines, i, true, frame);
    NotesOpened(endifs, frames, lines, i, false, frame);
  }

  /** An `#elif` adds to the innermost frame, if that is a `defined` chain. */
  method Continue(lines: seq<Line>, i: nat, top: Frame, ghost frames: map<nat, Frame>)
    requires i < |lines| && IsElif(lines[i]) && FramesRecord(frames, lines, i)
    requires Owner(lines, i).Some? && Owner(lines, i).value in frames && frames[Owner(lines, i).value] == top
    modifies top
    ensures FramesRecord(frames, lines, i + 1)
  {
    var l := lines[i];
    ghost var own := Owner(lines, i).value;
    ChainStep(lines, own, i);
    assert Records(top, lines, own, i);
    if top.opener.IfDefined? {
      top.hasElif := true;
      if l.ElifDefined? {
        top.macros := top.macros + [l.macro];
      } else {
        top.complexElif := true;
      }
    }
    assert Records(top, lines, own, i + 1);
    forall o | o in frames && o != own ensures Records(frames[o], lines, o, i + 1) {
      assert old(Records(frames[o], lines, o, i));
      FrameStep(frames[o], lines, o, i);
    }
  }

  /** An `#else` marks the innermost frame and is noted with it. */
  method NoteElse(lines: seq<Line>, i: nat, top: Frame, elses: map<nat, Note>, ghost frames: map<nat, Frame>)
      returns (more: map<nat, Note>)
    requires i < |lines| && lines[i].Else? && FramesRecord(frames, lines, i)
             && NotesMatch(elses, frames, lines, i, true)
    requires Owner(lines, i).Some? && Owner(lines, i).value in frames && frames[Owner(lines, i).value] == top
    modifies top`hasElse
    ensures top.hasElse
    ensures FramesRecord(frames, lines, i + 1) && NotesMatch(more, frames, lines, i + 1, true)
  {
    top.hasElse := true;
    assert FramesRecord(frames, lines, i);
    FramesStep(frames, lines, i);
    assert Records(top, lines, Owner(lines, i).value, i);
    NotesAdd(elses, frames, lines, i, true, Note(top, top.hasElif, top.complexElif));
    more := elses[i := Note(top, top.hasElif, top.complexElif)];
  }

  /** An `#endif` pops the innermost frame and is noted with it. */
  method NoteEndif(lines: seq<Line>, i: nat, top: Frame, endifs: map<nat, Note>, ghost frames: map<nat, Frame>)
      returns (more: map<nat, Note>)
    requires i < |lines| && lines[i].Endif? && FramesRecord(frames, lines, i)
             && NotesMatch(endifs, frames, lines, i, false)
    requires Owner(lines, i).Some? && Owner(lines, i).value in frames && frames[Owner(lines, i).value] == top
    ensures FramesRecord(frames, lines, i + 1) && NotesMatch(more, frames, lines, i + 1, false)
  {
    FramesStep(frames, lines, i);
    assert Records(top, lines, Owner(lines, i).value, i);
    NotesAdd(endifs, frames, lines, i, false, Note(top, top.hasElif, top.complexElif));
    more := endifs[i := Note(top, top.hasElif, top.complexElif)];
  }

  /** What the stack pass does at a line of an open conditional. */
  method InnerLine(lines: seq<Line>, i: nat, stack: seq<Frame>, elses: map<nat, Note>, endifs: map<nat, Note>,
                   ghost frames: map<nat, Frame>)
      returns (stack': seq<Frame>, elses': map<nat, Note>, endifs': map<nat, Note>)
    requires i < |lines| && stack != [] && !Opens(lines[i]) && Tracks(stack, elses, endifs, frames, lines, i)
    modifies stack[|stack| - 1]
    ensures Tracks(stack', elses', endifs', frames, lines, i + 1)
  {
    var l, top := lines[i], stack[|stack| - 1];
    stack', elses', endifs' := stack, elses, endifs;
    TopIsOwner(stack, frames, lines, i);
    if IsElif(l) {
      Continue(lines, i, top, frames);
      NotesStep(elses, frames, lines, i, true);
      NotesStep(endifs, frames, lines, i, false);
    } else if l.Else? {
      elses' := NoteElse(lines, i, top, elses, frames);
      NotesStep(endifs, frames, lines, i, false);
    } else if l.Endif? {
      stack' := stack[..|stack| - 1];
      endifs' := NoteEndif(lines, i, top, endifs, frames);
      NotesStep(elses, frames, lines, i, true);
    } else {
      PlainLine(stack, elses, endifs, frames, lines, i);
    }
  }

  /** The note of line `j`: its conditional as the whole file leaves it, and the flags as they were at that line. */
  ghost predicate NoteExact(n: Note, lines: seq<Line>, j: nat)
    requires j < |lines|
    reads n.frame
  {
    match Owner(lines, j)
    case None => false
    case Some(o) =>
      && n.frame.opener == lines[o] && n.frame.macros == MacrosOf(lines, o, |lines|)
      && n.hasElif == HasElif(lines, o, j) && n.complexElif == HasComplexElif(lines, o, j)
  }

  /** Exactly the owned lines of the wanted kind are noted. */
  ghost predicate NotesExact(notes: map<nat, Note>, lines: seq<Line>, elses: bool)
    reads set j | j in notes :: notes[j].frame
  {
    && (forall j :: j in notes ==> j < |lines| && MustNote(lines, j, elses) && NoteExact(notes[j], lines, j))
    && (forall j {:trigger MustNote(lines, j, elses)} :: 0 <= j < |lines| && MustNote(lines, j, elses) ==> j in notes)
  }

  lemma NotesComplete(notes: map<nat, Note>, frames: map<nat, Frame>, lines: seq<Line>, elses: bool)
    requires FramesRecord(frames, lines, |lines|) && NotesMatch(notes, frames, lines, |lines|, elses)
    ensures NotesExact(notes, lines, elses)
  {
    forall j | j in notes ensures j < |lines| && MustNote(lines, j, elses) && NoteExact(notes[j], lines, j) {
      var o := Owner(lines, j).value;
      assert Records(frames[o], lines, o, |lines|);
    }
  }

  /** The stack pass of `analyze`. */
  method Scan(lines: seq<Line>) returns (elses: map<nat, Note>, endifs: map<nat, Note>)
    ensures NotesExact(elses, lines, true) && NotesExact(endifs, lines, false)
  {
    var stack: seq<Frame> := [];
    ghost var frames: map<nat, Frame> := map[];
    elses, endifs := map[], map[];
    for i := 0 to |lines|
      invariant forall o :: o in frames ==> fresh(frames[o])
      invariant Tracks(stack, elses, endifs, frames, lines, i)
    {
      if Opens(lines[i]) {
        var frame;
        stack, frame := Open(lines, i, stack, elses, endifs, frames);
        frames := frames[i := frame];
      } else if |stack| == 0 {
        PlainLine(stack, elses, endifs, frames, lines, i);
      } else {
        TopIsOwner(stack, frames, lines, i);
        stack, elses, endifs := InnerLine(lines, i, stack, elses, endifs, frames);
      }
    }
    NotesComplete(elses, frames, lines, true);
    NotesComplete(endifs, frames, lines, false);
  }

  // ---- The fixes ----

  /** How far two names agree. */
  method CommonLength(a: string, b: string) returns (index: nat)
    ensures index <= |a| && a[..index] == CommonPrefix(a, b)
  {
    var limit := if |a| < |b| then |a| else |b|;
    index := 0;
    while index < limit && a[index] == b[index]
      invariant index <= limit && a[..index] == b[..index]
    {
      index := index + 1;
    }
    CommonPrefixUnique(a, b, index);
  }

  /** `rfind('_')`, counted from one. */
  method UnderscoreEnd(s: string) returns (boundary: nat)
    ensures boundary <= |s| && s[..boundary] == ThroughUnderscore(s)
  {
    boundary := |s|;
    while boundary > 0 && s[boundary - 1] != '_'
      invariant boundary <= |s| && forall j :: boundary <= j < |s| ==> s[j] != '_'
    {
      boundary := boundary - 1;
    }
    ThroughUnderscoreUnique(s, boundary);
  }

  /** `_common_macro_prefix`. */
  method FindCommonMacroPrefix(macros: seq<string>) returns (r: Option<string>)
    ensures r == CommonMacroPrefix(macros)
  {
    if |macros| < 2 {
      return None;
    }
    var prefix := macros[0];
    var rest := macros[1..];
    for k := 0 to |rest|
      invariant CommonPrefixOf(macros[0], rest) == CommonPrefixOf(prefix, rest[k..])
    {
      var index := CommonLength(prefix, rest[k]);
      assert rest[k..][0] == rest[k] && rest[k..][1..] == rest[k + 1..];
      prefix := prefix[..index];
      if prefix == "" {
        NothingInCommon(rest[k + 1..]);
        return None;
      }
    }
    assert rest[|rest|..] == [];
    var boundary := UnderscoreEnd(prefix);
    var common := prefix[..boundary];
    return if HasSubstance(common) then Some(common) else None;
  }

  lemma CommonPrefixUnique(a: string, b: string, n: nat)
    requires n <= |a| && n <= |b| && a[..n] == b[..n] && (n < |a| && n < |b| ==> a[n] != b[n])
    ensures CommonPrefix(a, b) == a[..n]
  {
    var p := CommonPrefix(a, b);
    PrefixOfBoth(a[..n], a, b);
    assert p == a[..|p|] && p == b[..|p|];
  }

  lemma {:induction false} NothingInCommon(rest: seq<string>)
    ensures CommonPrefixOf("", rest) == ""
    decreases |rest|
  {
    if rest != [] {
      NothingInCommon(rest[1..]);
    }
  }

  lemma ThroughUnderscoreUnique(s: string, n: nat)
    requires n <= |s| && (n > 0 ==> s[n - 1] == '_') && forall j :: n <= j < |s| ==> s[j] != '_'
    ensures ThroughUnderscore(s) == s[..n]
  {
    var p := ThroughUnderscore(s);
    assert p == s[..|p|];
  }

  /** What the else loop of `analyze` notes for one line: a replacement, if the line needs one. */
  method ElseFix(n: Note, l: Line) returns (fix: Option<Line>)
    requires l.Else? && Opens(n.frame.opener) && (n.frame.opener.IfDefined? ==> n.frame.macros != [])
    ensures var want := FixElse(n.frame.opener, n.frame.macros, n.hasElif, n.complexElif, l);
            fix == if want == l then None else Some(want)
  {
    var opener, macros := n.frame.opener, n.frame.macros;
    var current := if l.tail.Comment? then Some(l.tail.text) else None;
    if opener.IfDef? || opener.IfNDef? {
      var expected := if opener.IfNDef? then opener.macro else "!" + opener.macro;
      if current != Some(expected) {
        return Some(Else(l.indent, "", Comment(expected)));
      }
    } else if opener.IfDefined? {
      if n.complexElif {
        if current.Some? {
          return Some(Else(l.indent, "", Bare));
        }
        return None;
      }
      if macros == [LINUX] && current == Some(WINDOWS) {
        return Some(ElifDefined(l.indent, WINDOWS));
      }
      var expected := if n.hasElif then NoneDefinedText(macros) else "!" + macros[0];
      if current != Some(expected) {
        return Some(Else(l.indent, "", Comment(expected)));
      }
    }
    return None;
  }

  /** The same for the endif loop. */
  method EndifFix(n: Note, l: Line) returns (fix: Option<Line>)
    requires l.Endif? && Opens(n.frame.opener) && (n.frame.opener.IfDefined? ==> n.frame.macros != [])
    ensures var want := FixEndif(n.frame.opener, n.frame.macros, n.hasElif, n.complexElif, l);
            fix == if want == l then None else Some(want)
  {
    var opener, macros := n.frame.opener, n.frame.macros;
    var current := if l.tail.Comment? then Some(l.tail.text) else None;
    if opener.IfDef? || opener.IfNDef? {
      if current != Some(opener.macro) {
        return Some(Endif(l.indent, "", Comment(opener.macro)));
      }
    } else if opener.IfDefined? {
      if n.complexElif {
        if current.Some? {
          return Some(Endif(l.indent, "", Bare));
        }
        return None;
      }
      if n.hasElif {
        var expected := FindCommonMacroPrefix(macros);
        if expected.None? {
          if current.Some? {
            return Some(Endif(l.indent, "", Bare));
          }
        } else if current != expected {
          return Some(Endif(l.indent, "", Comment(expected.value)));
        }
      } else if current != Some(macros[0]) {
        return Some(Endif(l.indent, "", Comment(macros[0])));
      }
    }
    return None;
  }

  /** `fixes` holds exactly the lines below `i` of one kind that a pass changes, as the pass writes them. */
  ghost predicate FixesMatch(fixes: map<nat, Line>, lines: seq<Line>, i: nat, elses: bool)
    requires i <= |lines|
  {
    && (forall j :: j in fixes ==> j < i && Changes(lines, j, elses) && fixes[j] == Fix(lines, j))
    && (forall j {:trigger Changes(lines, j, elses)} :: 0 <= j < i && Changes(lines, j, elses) ==> j in fixes)
  }

  predicate Changes(lines: seq<Line>, j: nat, elses: bool)
    requires j < |lines|
  {
    Noted(lines[j], elses) && Fix(lines, j) != lines[j]
  }

  /** A noted line's fix is computed from its frame as it is after the whole scan. */
  lemma NoteGivesFix(n: Note, lines: seq<Line>, j: nat)
    requires j < |lines| && NoteExact(n, lines, j) && (lines[j].Else? || lines[j].Endif?)
    ensures Opens(n.frame.opener) && (n.frame.opener.IfDefined? ==> n.frame.macros != [])
    ensures Fix(lines, j) == FixWith(Record(n.frame.opener, n.frame.macros, n.hasElif, n.complexElif), lines[j])
  {
    var o := Owner(lines, j).value;
    assert RecordAt(lines, o, j) == Record(n.frame.opener, n.frame.macros, n.hasElif, n.complexElif);
  }

  method CollectFixes(lines: seq<Line>, notes: map<nat, Note>, elses: bool) returns (fixes: map<nat, Line>)
    requires NotesExact(notes, lines, elses)
    ensures FixesMatch(fixes, lines, |lines|, elses)
  {
    fixes := map[];
    for j := 0 to |lines|
      invariant FixesMatch(fixes, lines, j, elses)
    {
      if j in notes {
        NoteGivesFix(notes[j], lines, j);
        var fix;
        if elses {
          fix := ElseFix(notes[j], lines[j]);
        } else {
          fix := EndifFix(notes[j], lines[j]);
        }
        assert Changes(lines, j, elses) == fix.Some?;
        if fix.Some? {
          fixes := fixes[j := fix.value];
        }
      } else {
        assert !MustNote(lines, j, elses) && !Changes(lines, j, elses);
      }
    }
  }

  /** `analyze`: exactly the lines a pass changes, each with its new text. */
  method Analyze(lines: seq<Line>) returns (fixes: map<nat, Line>)
    ensures forall i :: i in fixes <==> 0 <= i < |lines| && Pass(lines)[i] != lines[i]
    ensures forall i :: i in fixes ==> fixes[i] == Pass(lines)[i]
  {
    var elses, endifs := Scan(lines);
    var elseFixes := CollectFixes(lines, elses, true);
    var endifFixes := CollectFixes(lines, endifs, false);
    fixes := elseFixes + endifFixes;
    forall i | 0 <= i < |lines| ensures i in fixes <==> Pass(lines)[i] != lines[i] {
      PassKeepsOtherLines(lines, i);
      assert Pass(lines)[i] != lines[i] <==> Changes(lines, i, true) || Changes(lines, i, false);
    }
  }

  /** The lines a pass changes. */
  function ChangedLines(lines: seq<Line>): set<nat> {
    set i: nat | i < |lines| && Pass(lines)[i] != lines[i]
  }

  /** Nothing is changed exactly when no line is. */
  lemma NoneChanged(lines: seq<Line>)
    ensures |ChangedLines(lines)| == 0 <==> Pass(lines) == lines
  {
    var after := Pass(lines);
    if after != lines {
      var i: nat :| i < |lines| && after[i] != lines[i];
      assert i in ChangedLines(lines);
    }
  }

  /** The substitution in `process_file`: the file after one pass, and how many lines changed. */
  method ProcessLines(lines: seq<Line>) returns (newLines: seq<Line>, count: nat)
    ensures newLines == Pass(lines)
    ensures count == |ChangedLines(lines)|
  {
    var fixes := Analyze(lines);
    assert fixes.Keys == ChangedLines(lines);
    count := |fixes|;
    newLines := lines;
    for i := 0 to |lines|
      invariant |newLines| == |lines|
      invariant forall j :: 0 <= j < |lines| ==> newLines[j] == if j < i then Pass(lines)[j] else lines[j]
    {
      if i in fixes {
        newLines := newLines[i := fixes[i]];
      }
    }
  }
}
