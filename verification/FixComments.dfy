/**
  bin/fix-if-comments.py on classified lines: what one pass writes on each line, and
  what repeated passes converge to. The imperative analysis is in FixAnalyze.dfy; that
  the rewrite keeps a file's meaning is in FixMeaning.dfy.
 */
module FixComments {
  import opened Types

  /**
    What follows `#else` or `#endif`: nothing, one block comment, or anything else that ends
    with the line (no comment left open, no line continuation).
   */
  datatype Tail = Bare | Comment(text: string) | Other(text: string)

  /** A source line as the script's regular expressions classify it. */
  datatype Line =
    | IfDef(macro: string)
    | IfNDef(macro: string)
    | IfDefined(macro: string)
    | IfExpr(expr: string)
    | ElifDefined(indent: string, macro: string)
    | ElifExpr(expr: string)
    | Else(indent: string, gap: string, tail: Tail)
    | Endif(indent: string, gap: string, tail: Tail)
    | Define(macro: string)
    | Undef(macro: string)
    | Text(text: string)

  const LINUX: string := "PLATFORM_LINUX"
  const WINDOWS: string := "PLATFORM_WINDOWS"

  predicate Opens(l: Line) {
    l.IfDef? || l.IfNDef? || l.IfDefined? || l.IfExpr?
  }

  predicate IsElif(l: Line) {
    l.ElifDefined? || l.ElifExpr?
  }

  // ---- Which conditional a line belongs to ----

  /** The openers of the conditionals that are open before line `i`, outermost first. */
  function Stack(lines: seq<Line>, i: nat): seq<nat>
    requires i <= |lines|
  {
    if i == 0 then []
    else
      var s := Stack(lines, i - 1);
      if Opens(lines[i - 1]) then s + [i - 1]
      else if lines[i - 1].Endif? && s != [] then s[..|s| - 1]
      else s
  }

  lemma {:induction false} StackHoldsOpeners(lines: seq<Line>, i: nat, k: nat)
    requires i <= |lines| && k < |Stack(lines, i)|
    ensures Stack(lines, i)[k] < i && Opens(lines[Stack(lines, i)[k]])
  {
    if k < |Stack(lines, i - 1)| {
      StackHoldsOpeners(lines, i - 1, k);
    }
  }

  /** The conditional that line `i` continues or closes. */
  function Owner(lines: seq<Line>, i: nat): (o: Option<nat>)
    requires i <= |lines|
    ensures o.Some? ==> o.value < i && Opens(lines[o.value])
  {
    var s := Stack(lines, i);
    if s == [] then None else StackHoldsOpeners(lines, i, |s| - 1); Some(s[|s| - 1])
  }

  predicate Owns(lines: seq<Line>, o: nat, i: nat)
    requires i < |lines|
  {
    Owner(lines, i) == Some(o)
  }

  // Ownership without the stack: everything opened in between has been closed, and nothing more.

  /** Openers less closers from line `lo` up to line `hi`. */
  function Net(lines: seq<Line>, lo: nat, hi: nat): int
    requires lo <= hi <= |lines|
    decreases hi
  {
    if hi == lo then 0
    else Net(lines, lo, hi - 1) + (if Opens(lines[hi - 1]) then 1 else if lines[hi - 1].Endif? then -1 else 0)
  }

  ghost predicate NeverCloses(lines: seq<Line>, lo: nat, hi: nat)
    requires lo <= hi <= |lines|
  {
    forall m :: lo <= m <= hi ==> Net(lines, lo, m) >= 0
  }

  /** While the lines after `o` close no more than they open, the stack stands on `o`. */
  lemma {:induction false} StackStandsOn(lines: seq<Line>, o: nat, i: nat)
    requires o < i <= |lines| && Opens(lines[o]) && NeverCloses(lines, o + 1, i)
    ensures var base := Stack(lines, o) + [o];
            base <= Stack(lines, i) && |Stack(lines, i)| == |base| + Net(lines, o + 1, i)
    decreases i
  {
    if i > o + 1 {
      assert NeverCloses(lines, o + 1, i - 1);
      StackStandsOn(lines, o, i - 1);
      assert Net(lines, o + 1, i) >= 0;
    }
  }

  /** A closed conditional never comes back. */
  lemma {:induction false} StaysClosed(lines: seq<Line>, o: nat, m: nat, i: nat)
    requires o < m <= i <= |lines| && o !in Stack(lines, m)
    ensures o !in Stack(lines, i)
    decreases i
  {
    if m < i {
      StaysClosed(lines, o, m, i - 1);
    }
  }

  /** The line that closes more than was opened since `o` closes `o`. */
  lemma OneTooMany(lines: seq<Line>, o: nat, m: nat)
    requires o + 1 < m <= |lines| && Opens(lines[o]) && NeverCloses(lines, o + 1, m - 1) && Net(lines, o + 1, m) < 0
    ensures o !in Stack(lines, m)
  {
    StackStandsOn(lines, o, m - 1);
    assert Stack(lines, m) == Stack(lines, o);
    forall k | 0 <= k < |Stack(lines, o)| ensures Stack(lines, o)[k] != o {
      StackHoldsOpeners(lines, o, k);
    }
  }

  lemma {:induction false} FirstTooMany(lines: seq<Line>, o: nat, i: nat) returns (m: nat)
    requires o < i <= |lines| && !NeverCloses(lines, o + 1, i)
    ensures o + 1 < m <= i && NeverCloses(lines, o + 1, m - 1) && Net(lines, o + 1, m) < 0
    decreases i
  {
    if i > o + 1 && !NeverCloses(lines, o + 1, i - 1) {
      m := FirstTooMany(lines, o, i - 1);
    } else {
      m := i;
    }
  }

  /** `o` owns line `i` exactly when it opens a conditional and the lines between are balanced. */
  lemma OwnerIsBalanced(lines: seq<Line>, o: nat, i: nat)
    requires i <= |lines|
    ensures Owner(lines, i) == Some(o)
            <==> o < i && Opens(lines[o]) && NeverCloses(lines, o + 1, i) && Net(lines, o + 1, i) == 0
  {
    if o < i && Opens(lines[o]) {
      if NeverCloses(lines, o + 1, i) {
        StackStandsOn(lines, o, i);
        var base, s := Stack(lines, o) + [o], Stack(lines, i);
        if Owner(lines, i) == Some(o) && |s| > |base| {
          StackIncreases(lines, i, |base| - 1, |s| - 1);
        }
      } else {
        var m := FirstTooMany(lines, o, i);
        OneTooMany(lines, o, m);
        StaysClosed(lines, o, m, i);
      }
    }
  }

  lemma {:induction false} StackIncreases(lines: seq<Line>, i: nat, j: nat, k: nat)
    requires i <= |lines| && j < k < |Stack(lines, i)|
    ensures Stack(lines, i)[j] < Stack(lines, i)[k]
  {
    if k < |Stack(lines, i - 1)| {
      StackIncreases(lines, i - 1, j, k);
    } else {
      StackHoldsOpeners(lines, i - 1, j);
    }
  }

  /** The macros tested by the `defined` chain opened at `o`, up to line `n`. */
  function MacrosOf(lines: seq<Line>, o: nat, n: nat): (r: seq<string>)
    requires o < n <= |lines|
    ensures lines[o].IfDefined? ==> r != [] && r[0] == lines[o].macro
  {
    if !lines[o].IfDefined? then []
    else if n == o + 1 then [lines[o].macro]
    else if AddsMacro(lines, o, n - 1) then MacrosOf(lines, o, n - 1) + [lines[n - 1].macro]
    else MacrosOf(lines, o, n - 1)
  }

  predicate AddsMacro(lines: seq<Line>, o: nat, j: nat)
    requires j < |lines|
  {
    lines[j].ElifDefined? && Owns(lines, o, j)
  }

  /** The `defined` chain opened at `o` has an `#elif` before line `n`. */
  predicate HasElif(lines: seq<Line>, o: nat, n: nat)
    requires n <= |lines|
  {
    o < n && lines[o].IfDefined? && exists j {:trigger Owns(lines, o, j)} ::
        o < j < n && IsElif(lines[j]) && Owns(lines, o, j)
  }

  /** The `defined` chain opened at `o` has an `#elif` with another kind of condition before line `n`. */
  predicate HasComplexElif(lines: seq<Line>, o: nat, n: nat)
    requires n <= |lines|
  {
    o < n && lines[o].IfDefined? && exists j {:trigger Owns(lines, o, j)} ::
        o < j < n && lines[j].ElifExpr? && Owns(lines, o, j)
  }

  // ---- Comments ----

  function CommonPrefix(a: string, b: string): (p: string)
    ensures p <= a && p <= b
    ensures |p| < |a| && |p| < |b| ==> a[|p|] != b[|p|]
  {
    if a == "" || b == "" || a[0] != b[0] then "" else [a[0]] + CommonPrefix(a[1..], b[1..])
  }

  /** The longest common prefix of `first` and all of `rest`. */
  function CommonPrefixOf(first: string, rest: seq<string>): string
    decreases |rest|
  {
    if rest == [] then first else CommonPrefixOf(CommonPrefix(first, rest[0]), rest[1..])
  }

  /** `s` up to and including its last underscore. */
  function ThroughUnderscore(s: string): (p: string)
    ensures p <= s && (p == "" || p[|p| - 1] == '_')
    ensures forall i :: |p| <= i < |s| ==> s[i] != '_'
  {
    if s == "" then ""
    else if s[|s| - 1] == '_' then s
    else
      var p := ThroughUnderscore(s[..|s| - 1]);
      assert s == s[..|s| - 1] + [s[|s| - 1]];
      p
  }

  predicate HasSubstance(s: string) {
    exists i :: 0 <= i < |s| && s[i] != '_'
  }

  /** `_common_macro_prefix`. */
  function CommonMacroPrefix(macros: seq<string>): Option<string> {
    if |macros| < 2 then None
    else
      var prefix := ThroughUnderscore(CommonPrefixOf(macros[0], macros[1..]));
      if HasSubstance(prefix) then Some(prefix) else None
  }

  /** Joined with ` && `, each macro negated. */
  function NoneDefinedText(macros: seq<string>): string {
    if macros == [] then ""
    else if |macros| == 1 then "!" + macros[0]
    else "!" + macros[0] + " && " + NoneDefinedText(macros[1..])
  }

  /** What a comment says about the defined macros. */
  datatype Claim = IsDefined(macro: string) | NoneDefined(macros: seq<string>)

  function Render(c: Claim): string {
    match c
    case IsDefined(m) => m
    case NoneDefined(ms) => NoneDefinedText(ms)
  }

  /** What the comment on an `#else` should say. */
  function ElseClaim(opener: Line, macros: seq<string>, hasElif: bool): Claim
    requires Opens(opener) && !opener.IfExpr? && (opener.IfDefined? ==> macros != [])
  {
    match opener
    case IfNDef(m) => IsDefined(m)
    case IfDef(m) => NoneDefined([m])
    case _ => if hasElif then NoneDefined(macros) else NoneDefined([macros[0]])
  }

  // ---- What one pass writes ----

  /** The line with exactly this comment, left as it is if it already has it. */
  function WithComment(l: Line, comment: Option<string>): (r: Line)
    requires l.Else? || l.Endif?
    ensures if l.Else? then r.Else? else r.Endif?
  {
    var current := if l.tail.Comment? then Some(l.tail.text) else None;
    if current == comment then l
    else
      var tail := if comment.Some? then Comment(comment.value) else Bare;
      if l.Else? then Else(l.indent, "", tail) else Endif(l.indent, "", tail)
  }

  /** The two-way platform branch whose `#else` is turned into an `#elif`. */
  predicate Rewrites(opener: Line, macros: seq<string>, complex: bool, l: Line) {
    opener.IfDefined? && !complex && macros == [LINUX] && l.Else? && l.tail == Comment(WINDOWS)
  }

  function FixElse(opener: Line, macros: seq<string>, hasElif: bool, complex: bool, l: Line): Line
    requires Opens(opener) && l.Else? && (opener.IfDefined? ==> macros != [])
  {
    if opener.IfExpr? then l
    else if opener.IfDefined? && complex then WithComment(l, None)
    else if Rewrites(opener, macros, complex, l) then ElifDefined(l.indent, WINDOWS)
    else WithComment(l, Some(Render(ElseClaim(opener, macros, hasElif))))
  }

  function FixEndif(opener: Line, macros: seq<string>, hasElif: bool, complex: bool, l: Line): Line
    requires Opens(opener) && l.Endif? && (opener.IfDefined? ==> macros != [])
  {
    if opener.IfExpr? then l
    else if !opener.IfDefined? then WithComment(l, Some(opener.macro))
    else if complex then WithComment(l, None)
    else if hasElif then WithComment(l, CommonMacroPrefix(macros))
    else WithComment(l, Some(macros[0]))
  }

  /** What the script has recorded about a conditional when it rewrites one of its lines. */
  datatype Record = Record(opener: Line, macros: seq<string>, hasElif: bool, complex: bool)

  predicate Sound(r: Record) {
    Opens(r.opener) && (r.opener.IfDefined? ==> r.macros != [])
  }

  function FixWith(r: Record, l: Line): Line
    requires Sound(r)
  {
    if l.Else? then FixElse(r.opener, r.macros, r.hasElif, r.complex, l)
    else if l.Endif? then FixEndif(r.opener, r.macros, r.hasElif, r.complex, l)
    else l
  }

  /**
    The record for line `i` of the conditional opened at `o`. The macros are those of the
    whole chain, also the ones found after line `i`: the records share the chain's list.
   */
  function RecordAt(lines: seq<Line>, o: nat, i: nat): (r: Record)
    requires o < i < |lines| && Opens(lines[o])
    ensures Sound(r)
  {
    Record(lines[o], MacrosOf(lines, o, |lines|), HasElif(lines, o, i), HasComplexElif(lines, o, i))
  }

  /** Line `i` after one pass. */
  function Fix(lines: seq<Line>, i: nat): Line
    requires i < |lines|
  {
    match Owner(lines, i)
    case None => lines[i]
    case Some(o) => FixWith(RecordAt(lines, o, i), lines[i])
  }

  function Pass(lines: seq<Line>): (r: seq<Line>)
    ensures |r| == |lines|
  {
    seq(|lines|, i requires 0 <= i < |lines| => Fix(lines, i))
  }

  /** A pass keeps the number of lines and touches only `#else` and `#endif` lines. */
  lemma PassKeepsOtherLines(lines: seq<Line>, i: nat)
    requires i < |lines|
    ensures |Pass(lines)| == |lines|
    ensures !lines[i].Else? && !lines[i].Endif? ==> Pass(lines)[i] == lines[i]
    ensures lines[i].Endif? ==> Pass(lines)[i].Endif?
    ensures lines[i].Else? ==> Pass(lines)[i].Else? || Pass(lines)[i] == ElifDefined(lines[i].indent, WINDOWS)
  {
  }

  /**
    In a chain with another kind of condition a pass writes no comment, and a line changes exactly
    when it loses one.
   */
  lemma ComplexChainLosesComments(lines: seq<Line>, o: nat, i: nat)
    requires i < |lines| && Owner(lines, i) == Some(o) && HasComplexElif(lines, o, i)
             && (lines[i].Else? || lines[i].Endif?)
    ensures Pass(lines)[i] != lines[i] <==> lines[i].tail.Comment?
    ensures (Pass(lines)[i].Else? || Pass(lines)[i].Endif?) && !Pass(lines)[i].tail.Comment?
  {
    assert Pass(lines)[i] == FixWith(RecordAt(lines, o, i), lines[i]);
  }

  /** An `#else` the pass turns: the fallback, marked as Windows, of a conditional that tests only the Linux macro. */
  predicate Turns(lines: seq<Line>, j: nat)
    requires j < |lines|
  {
    && lines[j].Else? && lines[j].tail == Comment(WINDOWS)
    && match Owner(lines, j)
       case None => false
       case Some(o) =>
         lines[o].IfDefined? && MacrosOf(lines, o, |lines|) == [LINUX] && !HasComplexElif(lines, o, j)
  }

  /** Exactly these lines become an `#elif`. */
  lemma TurnsExactly(lines: seq<Line>, j: nat)
    requires j < |lines|
    ensures lines[j].Else? && Pass(lines)[j].ElifDefined? <==> Turns(lines, j)
    ensures Turns(lines, j) ==> Pass(lines)[j] == ElifDefined(lines[j].indent, WINDOWS)
  {
    if Owner(lines, j).Some? && lines[j].Else? {
      var o := Owner(lines, j).value;
      assert Pass(lines)[j] == FixWith(RecordAt(lines, o, j), lines[j]);
    }
  }

  // ---- Common prefixes are the longest ----

  ghost predicate IsCommonPrefix(p: string, macros: seq<string>) {
    forall k :: 0 <= k < |macros| ==> p <= macros[k]
  }

  lemma PrefixOfBoth(q: string, a: string, b: string)
    ensures q <= CommonPrefix(a, b) <==> q <= a && q <= b
  {
    var p := CommonPrefix(a, b);
  }

  lemma CommonSplit(q: string, macros: seq<string>)
    requires macros != []
    ensures IsCommonPrefix(q, macros) <==> q <= macros[0] && IsCommonPrefix(q, macros[1..])
  {
    if q <= macros[0] && IsCommonPrefix(q, macros[1..]) {
      forall k | 0 <= k < |macros| ensures q <= macros[k] {
        if k > 0 {
          assert macros[1..][k - 1] == macros[k];
        }
      }
    }
  }

  lemma {:induction false} PrefixOfAll(q: string, first: string, rest: seq<string>)
    ensures q <= CommonPrefixOf(first, rest) <==> q <= first && IsCommonPrefix(q, rest)
    decreases |rest|
  {
    if rest != [] {
      PrefixOfBoth(q, first, rest[0]);
      PrefixOfAll(q, CommonPrefix(first, rest[0]), rest[1..]);
      CommonSplit(q, rest);
    }
  }

  lemma CommonToAll(q: string, macros: seq<string>)
    requires macros != []
    ensures q <= CommonPrefixOf(macros[0], macros[1..]) <==> IsCommonPrefix(q, macros)
  {
    PrefixOfAll(q, macros[0], macros[1..]);
    CommonSplit(q, macros);
  }

  lemma UnderscorePrefixBound(q: string, s: string)
    requires q <= s && q != "" && q[|q| - 1] == '_'
    ensures q <= ThroughUnderscore(s)
  {
    assert s[|q| - 1] == '_';
  }

  /**
    The chain comment is the longest prefix common to all its macros that ends in an
    underscore; it is left out exactly when no such prefix has another character.
   */
  lemma ChainCommentIsLongest(macros: seq<string>, q: string)
    requires |macros| >= 2
    ensures match CommonMacroPrefix(macros)
            case Some(p) =>
              && IsCommonPrefix(p, macros) && p != "" && p[|p| - 1] == '_' && HasSubstance(p)
              && (IsCommonPrefix(q, macros) && q != "" && q[|q| - 1] == '_' ==> q <= p)
            case None => !(IsCommonPrefix(q, macros) && q != "" && q[|q| - 1] == '_' && HasSubstance(q))
  {
    var whole := CommonPrefixOf(macros[0], macros[1..]);
    var p := ThroughUnderscore(whole);
    CommonToAll(p, macros);
    CommonToAll(q, macros);
    if IsCommonPrefix(q, macros) && q != "" && q[|q| - 1] == '_' {
      UnderscorePrefixBound(q, whole);
    }
  }

  // ---- Repeated passes ----

  /** A later pass sees the same openers and closers, and every `#elif` that was there. */
  ghost predicate Refines(before: seq<Line>, after: seq<Line>) {
    && |before| == |after|
    && forall i :: 0 <= i < |before| ==>
         && (!before[i].Else? && !before[i].Endif? ==> after[i] == before[i])
         && (before[i].Endif? ==> after[i].Endif?)
         && (before[i].Else? ==> after[i].Else? || (after[i].ElifDefined? && after[i].macro == WINDOWS))
  }

  lemma PassRefines(lines: seq<Line>)
    ensures Refines(lines, Pass(lines))
  {
    forall i | 0 <= i < |lines| {
      PassKeepsOtherLines(lines, i);
    }
  }

  lemma SameRole(before: seq<Line>, after: seq<Line>, i: nat)
    requires Refines(before, after) && i < |before|
    ensures Opens(after[i]) == Opens(before[i]) && after[i].Endif? == before[i].Endif?
  {
  }

  lemma {:induction false} SameStack(before: seq<Line>, after: seq<Line>, i: nat)
    requires Refines(before, after) && i <= |before|
    ensures Stack(after, i) == Stack(before, i) && Owner(after, i) == Owner(before, i)
  {
    if i > 0 {
      SameStack(before, after, i - 1);
      SameRole(before, after, i - 1);
    }
  }

  /** The `#else` at line `j` of the conditional opened at `o` became an `#elif`. */
  ghost predicate TurnedAt(before: seq<Line>, after: seq<Line>, o: nat, j: nat) {
    j < |before| == |after| && before[j].Else? && after[j].ElifDefined? && Owns(before, o, j)
  }

  ghost predicate Turned(before: seq<Line>, after: seq<Line>, o: nat) {
    exists j :: TurnedAt(before, after, o, j)
  }

  lemma SameAddition(before: seq<Line>, after: seq<Line>, o: nat, j: nat)
    requires Refines(before, after) && j < |before| && !TurnedAt(before, after, o, j)
    ensures AddsMacro(after, o, j) <==> AddsMacro(before, o, j)
    ensures AddsMacro(before, o, j) ==> after[j] == before[j]
  {
    SameStack(before, after, j);
  }

  /** Where nothing was turned, the chain reads the same. */
  lemma {:induction false} SameMacros(before: seq<Line>, after: seq<Line>, o: nat, n: nat)
    requires Refines(before, after) && o < n <= |before| && Opens(before[o]) && !Turned(before, after, o)
    ensures MacrosOf(after, o, n) == MacrosOf(before, o, n)
    decreases n
  {
    if n > o + 1 {
      SameMacros(before, after, o, n - 1);
      SameAddition(before, after, o, n - 1);
    }
  }

  lemma SameElifs(before: seq<Line>, after: seq<Line>, o: nat, n: nat)
    requires Refines(before, after) && o < n <= |before| && Opens(before[o]) && !Turned(before, after, o)
    ensures HasElif(after, o, n) == HasElif(before, o, n)
    ensures HasComplexElif(after, o, n) == HasComplexElif(before, o, n)
  {
    forall j | o < j < n
      ensures IsElif(after[j]) && Owns(after, o, j) <==> IsElif(before[j]) && Owns(before, o, j)
      ensures after[j].ElifExpr? && Owns(after, o, j) <==> before[j].ElifExpr? && Owns(before, o, j)
    {
      SameStack(before, after, j);
      assert !TurnedAt(before, after, o, j);
    }
  }

  lemma SameRecord(before: seq<Line>, after: seq<Line>, o: nat, i: nat)
    requires Refines(before, after) && o < i < |before| && Opens(before[o]) && !Turned(before, after, o)
    ensures Opens(after[o]) && RecordAt(after, o, i) == RecordAt(before, o, i)
  {
    SameMacros(before, after, o, |before|);
    SameElifs(before, after, o, i);
  }

  /** Writing a line twice from the same record changes nothing the second time. */
  lemma FixWithIdempotent(r: Record, l: Line)
    requires Sound(r) && !FixWith(r, l).ElifDefined?
    ensures FixWith(r, FixWith(r, l)) == FixWith(r, l)
  {
  }

  lemma {:induction false} MacrosGrow(lines: seq<Line>, o: nat, m: nat, n: nat)
    requires o < m <= n <= |lines|
    ensures MacrosOf(lines, o, m) <= MacrosOf(lines, o, n)
    decreases n
  {
    if m < n {
      MacrosGrow(lines, o, m, n - 1);
    }
  }

  /** The Linux test first, then only the Windows one. */
  predicate PlatformChain(macros: seq<string>) {
    macros != [] && macros[0] == LINUX && forall k :: 1 <= k < |macros| ==> macros[k] == WINDOWS
  }

  /** One more line of a conditional that tested only the Linux macro. */
  lemma TurnedChainStep(before: seq<Line>, after: seq<Line>, o: nat, j: nat)
    requires Refines(before, after) && o < j < |before| && before[o].IfDefined? && !AddsMacro(before, o, j)
    requires PlatformChain(MacrosOf(after, o, j))
    ensures PlatformChain(MacrosOf(after, o, j + 1)) && |MacrosOf(after, o, j + 1)| >= |MacrosOf(after, o, j)|
    ensures TurnedAt(before, after, o, j) ==> |MacrosOf(after, o, j + 1)| > 1
  {
    SameStack(before, after, j);
    if !TurnedAt(before, after, o, j) {
      SameAddition(before, after, o, j);
    }
  }

  /** The chain of a conditional that tested only the Linux macro, after some of its `#else` lines were turned. */
  lemma {:induction false} TurnedChain(before: seq<Line>, after: seq<Line>, o: nat, n: nat)
    requires Refines(before, after) && o < n <= |before| && before[o].IfDefined? && MacrosOf(before, o, n) == [LINUX]
    ensures PlatformChain(MacrosOf(after, o, n))
    ensures (exists j :: o < j < n && TurnedAt(before, after, o, j)) ==> |MacrosOf(after, o, n)| > 1
    decreases n
  {
    if n > o + 1 {
      MacrosGrow(before, o, n - 1, n);
      assert !AddsMacro(before, o, n - 1);
      TurnedChain(before, after, o, n - 1);
      TurnedChainStep(before, after, o, n - 1);
    }
  }

  /** A pass turns an `#else` only in a chain that tests nothing but the Linux macro. */
  lemma TurnedMeansLinuxOnly(lines: seq<Line>, o: nat, j: nat)
    requires TurnedAt(lines, Pass(lines), o, j)
    ensures o < j && lines[o].IfDefined? && MacrosOf(lines, o, |lines|) == [LINUX] && lines[j].tail == Comment(WINDOWS)
    ensures !HasComplexElif(lines, o, j)
  {
    assert Pass(lines)[j] == FixWith(RecordAt(lines, o, j), lines[j]);
  }

  /** A line whose conditional was not turned is final after the pass. */
  lemma UnturnedLineIsFinal(lines: seq<Line>, once: seq<Line>, i: nat)
    requires once == Pass(lines) && i < |lines|
    requires Owner(lines, i).Some? ==> !Turned(lines, once, Owner(lines, i).value)
    ensures Pass(once)[i] == once[i]
  {
    PassRefines(lines);
    SameStack(lines, once, i);
    if Owner(lines, i).Some? {
      var o := Owner(lines, i).value;
      SameRecord(lines, once, o, i);
      var r := RecordAt(lines, o, i);
      assert once[i] == FixWith(r, lines[i]) && Pass(once)[i] == FixWith(r, once[i]);
      assert !TurnedAt(lines, once, o, i);
      if !once[i].ElifDefined? {
        FixWithIdempotent(r, lines[i]);
      }
    }
  }

  /** The second pass turns nothing. */
  lemma SecondPassTurnsNothing(lines: seq<Line>, once: seq<Line>, o: nat)
    requires once == Pass(lines)
    ensures !Turned(once, Pass(once), o)
  {
    if j :| TurnedAt(once, Pass(once), o, j) {
      TurnedMeansLinuxOnly(once, o, j);
      PassRefines(lines);
      SameStack(lines, once, j);
      if k :| TurnedAt(lines, once, o, k) {
        TurnedMeansLinuxOnly(lines, o, k);
        TurnedChain(lines, once, o, |lines|);
      } else {
        UnturnedLineIsFinal(lines, once, j);
      }
    }
  }

  /** The third pass never changes anything. */
  lemma ThirdPassChangesNothing(lines: seq<Line>)
    ensures Pass(Pass(Pass(lines))) == Pass(Pass(lines))
  {
    var once := Pass(lines);
    var twice := Pass(once);
    forall i | 0 <= i < |lines| ensures Pass(twice)[i] == twice[i] {
      if Owner(once, i).Some? {
        SecondPassTurnsNothing(lines, once, Owner(once, i).value);
      }
      UnturnedLineIsFinal(once, twice, i);
    }
  }

  /**
    The second pass changes a line only inside a conditional the first pass turned: an
    `#endif` gets the common prefix, and a further `#else` gets the chain form.
   */
  lemma SecondPassChanges(lines: seq<Line>, i: nat)
    requires i < |lines| && Pass(Pass(lines))[i] != Pass(lines)[i]
    ensures Owner(lines, i).Some?
    ensures var o := Owner(lines, i).value;
            var macros := MacrosOf(Pass(lines), o, |lines|);
            && Turned(lines, Pass(lines), o) && PlatformChain(macros) && |macros| > 1
            && (if lines[i].Endif? then Pass(Pass(lines))[i].Endif? && Pass(Pass(lines))[i].tail == Comment("PLATFORM_")
                else lines[i].Else? && Pass(Pass(lines))[i].Else?
                     && Pass(Pass(lines))[i].tail == Comment(NoneDefinedText(macros)))
  {
    var once := Pass(lines);
    var twice := Pass(once);
    if Owner(lines, i).None? || !Turned(lines, once, Owner(lines, i).value) {
      UnturnedLineIsFinal(lines, once, i);
    }
    var o := Owner(lines, i).value;
    PassRefines(lines);
    SameStack(lines, once, i);
    var j :| TurnedAt(lines, once, o, j);
    TurnedMeansLinuxOnly(lines, o, j);
    TurnedChain(lines, once, o, |lines|);
    SecondPassTurnsNothing(lines, once, o);
    assert !TurnedAt(once, twice, o, i);
    PlatformPrefix(MacrosOf(once, o, |lines|));
    SameComplex(lines, once, o, i);
    var r0, r1 := RecordAt(lines, o, i), RecordAt(once, o, i);
    assert once[i] == FixWith(r0, lines[i]) && twice[i] == FixWith(r1, once[i]);
    if lines[i].Endif? {
      SecondEndif(r0, r1, lines[i]);
    } else {
      SecondElse(r0, r1, lines[i]);
    }
  }

  /** A pass leaves the complex `#elif` lines alone and loses no `#elif`. */
  lemma SameComplex(before: seq<Line>, after: seq<Line>, o: nat, n: nat)
    requires Refines(before, after) && o < n <= |before| && Opens(before[o])
    ensures HasComplexElif(after, o, n) == HasComplexElif(before, o, n)
    ensures HasElif(before, o, n) ==> HasElif(after, o, n)
  {
    forall j | o < j < n
      ensures after[j].ElifExpr? && Owns(after, o, j) <==> before[j].ElifExpr? && Owns(before, o, j)
      ensures IsElif(before[j]) && Owns(before, o, j) ==> IsElif(after[j]) && Owns(after, o, j)
    {
      SameStack(before, after, j);
    }
  }

  /** Records of one conditional before and after some of its `#else` lines were turned. */
  ghost predicate TurnedRecords(r0: Record, r1: Record) {
    && Sound(r0) && Sound(r1) && r0.opener == r1.opener && r0.opener.IfDefined?
    && r0.macros == [LINUX] && PlatformChain(r1.macros) && CommonMacroPrefix(r1.macros) == Some("PLATFORM_")
    && r0.complex == r1.complex && (r0.hasElif ==> r1.hasElif)
  }

  lemma SecondEndif(r0: Record, r1: Record, l: Line)
    requires TurnedRecords(r0, r1) && l.Endif?
    requires FixWith(r1, FixWith(r0, l)) != FixWith(r0, l)
    ensures FixWith(r1, FixWith(r0, l)).Endif? && FixWith(r1, FixWith(r0, l)).tail == Comment("PLATFORM_")
  {
    var once := FixWith(r0, l);
    assert once.Endif?;
    assert FixWith(r1, once) == FixEndif(r1.opener, r1.macros, r1.hasElif, r1.complex, once);
  }

  /** A comment is set, and setting the comment a line already has leaves the line alone. */
  lemma CommentSet(l: Line, comment: Option<string>)
    requires l.Else?
    ensures var r := WithComment(l, comment);
            && r.Else? && (if comment.Some? then r.tail == Comment(comment.value) else !r.tail.Comment?)
            && WithComment(r, comment) == r
  {
  }

  /** The comment on the `#else` of a `defined` chain. */
  lemma ElseText(opener: Line, macros: seq<string>, hasElif: bool)
    requires opener.IfDefined? && macros != []
    ensures Render(ElseClaim(opener, macros, hasElif))
            == if hasElif then NoneDefinedText(macros) else NoneDefinedText([macros[0]])
  {
  }

  lemma SecondElse(r0: Record, r1: Record, l: Line)
    requires TurnedRecords(r0, r1) && l.Else?
    requires FixWith(r1, FixWith(r0, l)) != FixWith(r0, l) && !FixWith(r1, FixWith(r0, l)).ElifDefined?
    ensures FixWith(r1, FixWith(r0, l)).Else? && FixWith(r1, FixWith(r0, l)).tail == Comment(NoneDefinedText(r1.macros))
  {
    var once, first := FixWith(r0, l), NoneDefinedText([LINUX]);
    ElseText(r0.opener, r0.macros, r0.hasElif);
    ElseText(r1.opener, r1.macros, r1.hasElif);
    CommentSet(l, None);
    CommentSet(l, Some(first));
    assert !r0.complex;
    assert once == WithComment(l, Some(first));
    CommentSet(once, Some(NoneDefinedText(r1.macros)));
  }

  /** Platform chains share exactly the prefix `PLATFORM_`. */
  lemma PlatformPrefix(macros: seq<string>)
    requires PlatformChain(macros) && |macros| > 1
    ensures CommonMacroPrefix(macros) == Some("PLATFORM_")
  {
    var whole := CommonPrefixOf(macros[0], macros[1..]);
    var p := "PLATFORM_";
    assert p == LINUX[..9] == WINDOWS[..9];
    forall k | 0 <= k < |macros| ensures p <= macros[k] {
      assert macros[k] == LINUX || macros[k] == WINDOWS;
    }
    CommonToAll(p, macros);
    CommonToAll(whole, macros);
    LinuxWindowsShare(whole);
    assert p[8] == '_' && p[0] != '_';
    assert whole[|whole| - 1] == '_';
  }

  lemma LinuxWindowsShare(q: string)
    requires q <= LINUX && q <= WINDOWS && "PLATFORM_" <= q
    ensures q == "PLATFORM_"
  {
    assert LINUX[9] != WINDOWS[9];
  }
}
