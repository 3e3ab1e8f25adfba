/**
  bin/fix-if-comments.py, line by line: what a pass leaves on every `#else` and `#endif`,
  said of the input lines alone.
 */
module FixWritten {
  import opened Types
  import opened FixComments

  /** Line `j` tests a macro of the `defined` chain opened at `o`. */
  predicate Tests(lines: seq<Line>, o: nat, j: nat)
    requires o < |lines| && j < |lines|
  {
    lines[o].IfDefined? && (j == o || (o < j && lines[j].ElifDefined? && Owner(lines, j) == Some(o)))
  }

  function Tested(lines: seq<Line>, o: nat, j: nat): string
    requires o < |lines| && j < |lines| && Tests(lines, o, j)
  {
    if j == o then lines[o].macro else lines[j].macro
  }

  /** The lines before line `n` that test a macro of the chain, in order. */
  function TestLines(lines: seq<Line>, o: nat, n: nat): seq<nat>
    requires o < |lines| && n <= |lines|
  {
    if n == 0 then [] else TestLines(lines, o, n - 1) + if Tests(lines, o, n - 1) then [n - 1] else []
  }

  lemma {:induction false} TestLinesTest(lines: seq<Line>, o: nat, n: nat, k: nat)
    requires o < |lines| && n <= |lines| && k < |TestLines(lines, o, n)|
    ensures TestLines(lines, o, n)[k] < n && Tests(lines, o, TestLines(lines, o, n)[k])
  {
    if k < |TestLines(lines, o, n - 1)| {
      TestLinesTest(lines, o, n - 1, k);
    }
  }

  lemma {:induction false} TestLineListed(lines: seq<Line>, o: nat, n: nat, j: nat) returns (k: nat)
    requires o < |lines| && j < n <= |lines| && Tests(lines, o, j)
    ensures k < |TestLines(lines, o, n)| && TestLines(lines, o, n)[k] == j
  {
    if j == n - 1 {
      k := |TestLines(lines, o, n - 1)|;
    } else {
      k := TestLineListed(lines, o, n - 1, j);
    }
  }

  /** `macros` are what the lines `at` test. */
  ghost predicate Reads(lines: seq<Line>, o: nat, at: seq<nat>, macros: seq<string>)
    requires o < |lines|
  {
    && |at| == |macros|
    && forall k :: 0 <= k < |at| ==> at[k] < |lines| && Tests(lines, o, at[k]) && macros[k] == Tested(lines, o, at[k])
  }

  lemma {:induction false} NothingTestedYet(lines: seq<Line>, o: nat, n: nat)
    requires n <= o < |lines|
    ensures TestLines(lines, o, n) == []
  {
    if n > 0 {
      NothingTestedYet(lines, o, n - 1);
    }
  }

  lemma FirstTest(lines: seq<Line>, o: nat)
    requires o < |lines| && lines[o].IfDefined?
    ensures TestLines(lines, o, o + 1) == [o]
  {
    NothingTestedYet(lines, o, o);
  }

  lemma {:induction false} MacroAt(lines: seq<Line>, o: nat, n: nat, k: nat)
    requires o < n <= |lines| && lines[o].IfDefined?
    ensures |MacrosOf(lines, o, n)| == |TestLines(lines, o, n)|
    ensures k < |TestLines(lines, o, n)| ==> TestLines(lines, o, n)[k] < |lines|
    ensures k < |TestLines(lines, o, n)| ==> Tests(lines, o, TestLines(lines, o, n)[k])
    ensures k < |TestLines(lines, o, n)| ==> MacrosOf(lines, o, n)[k] == Tested(lines, o, TestLines(lines, o, n)[k])
    decreases n
  {
    if n == o + 1 {
      FirstTest(lines, o);
    } else {
      MacroAt(lines, o, n - 1, k);
      MacrosStep(lines, o, n);
    }
  }

  lemma MacrosStep(lines: seq<Line>, o: nat, n: nat)
    requires o + 1 < n <= |lines| && lines[o].IfDefined?
    ensures MacrosOf(lines, o, n)
            == MacrosOf(lines, o, n - 1) + if Tests(lines, o, n - 1) then [Tested(lines, o, n - 1)] else []
  {
    assert Tests(lines, o, n - 1) <==> AddsMacro(lines, o, n - 1);
  }

  /** The macros of a chain are those of the lines that test one, in the order of these lines. */
  lemma MacrosInOrder(lines: seq<Line>, o: nat, n: nat)
    requires o < n <= |lines| && lines[o].IfDefined?
    ensures Reads(lines, o, TestLines(lines, o, n), MacrosOf(lines, o, n))
  {
    var at := TestLines(lines, o, n);
    MacroAt(lines, o, n, 0);
    forall k | 0 <= k < |at|
      ensures at[k] < |lines| && Tests(lines, o, at[k]) && MacrosOf(lines, o, n)[k] == Tested(lines, o, at[k])
    {
      MacroAt(lines, o, n, k);
    }
  }

  /** The comment on an `#else` grows by one negated macro for each macro of the chain. */
  lemma {:induction false} NoneDefinedGrows(macros: seq<string>, m: string)
    ensures NoneDefinedText(macros + [m])
            == if macros == [] then "!" + m else NoneDefinedText(macros) + " && !" + m
  {
    if |macros| > 1 {
      NoneDefinedGrows(macros[1..], m);
      assert (macros + [m])[1..] == macros[1..] + [m];
    } else if |macros| == 1 {
      assert (macros + [m])[1..] == [m];
    }
  }

  /** The chain has, before line `i`, an `#elif` that tests one macro. */
  ghost predicate PlainElif(lines: seq<Line>, o: nat, i: nat)
    requires o < i <= |lines|
  {
    exists j :: o < j < i && lines[j].ElifDefined? && Owner(lines, j) == Some(o)
  }

  /** The chain has, before line `i`, an `#elif` with another kind of condition. */
  ghost predicate OtherElif(lines: seq<Line>, o: nat, i: nat)
    requires o < i <= |lines|
  {
    exists j :: o < j < i && lines[j].ElifExpr? && Owner(lines, j) == Some(o)
  }

  lemma ElifsRecorded(lines: seq<Line>, o: nat, i: nat)
    requires o < i <= |lines| && lines[o].IfDefined?
    ensures HasComplexElif(lines, o, i) <==> OtherElif(lines, o, i)
    ensures HasElif(lines, o, i) <==> PlainElif(lines, o, i) || OtherElif(lines, o, i)
  {
    if j :| o < j < i && IsElif(lines[j]) && Owner(lines, j) == Some(o) {
      assert Owns(lines, o, j);
    }
    if j :| o < j < i && lines[j].ElifExpr? && Owner(lines, j) == Some(o) {
      assert Owns(lines, o, j);
    }
  }

  /** An underscore ends `p`, something else stands before it, and every macro of the chain starts with `p`. */
  ghost predicate ChainPrefix(lines: seq<Line>, o: nat, p: string)
    requires o < |lines|
  {
    && p != "" && p[|p| - 1] == '_' && (exists c :: c in p && c != '_')
    && forall j: nat :: j < |lines| && Tests(lines, o, j) ==> p <= Tested(lines, o, j)
  }

  lemma SubstanceMeans(p: string)
    ensures HasSubstance(p) <==> exists c :: c in p && c != '_'
  {
    if HasSubstance(p) {
      var i :| 0 <= i < |p| && p[i] != '_';
      assert p[i] in p;
    }
  }

  lemma PrefixOfTests(lines: seq<Line>, o: nat, p: string)
    requires o < |lines| && lines[o].IfDefined?
    ensures ChainPrefix(lines, o, p) <==> p != "" && p[|p| - 1] == '_' && HasSubstance(p)
                                          && IsCommonPrefix(p, MacrosOf(lines, o, |lines|))
  {
    var macros := MacrosOf(lines, o, |lines|);
    var at := TestLines(lines, o, |lines|);
    MacrosInOrder(lines, o, |lines|);
    SubstanceMeans(p);
    if IsCommonPrefix(p, macros) {
      forall j: nat | j < |lines| && Tests(lines, o, j) ensures p <= Tested(lines, o, j) {
        var k := TestLineListed(lines, o, |lines|, j);
        assert p <= macros[k];
      }
    }
  }

  /** A chain with an `#elif` that tests a macro has several macros, and one without it the opener's alone. */
  lemma SeveralMacros(lines: seq<Line>, o: nat)
    requires o < |lines| && lines[o].IfDefined?
    ensures if PlainElif(lines, o, |lines|) then |MacrosOf(lines, o, |lines|)| >= 2
            else MacrosOf(lines, o, |lines|) == [lines[o].macro]
  {
    MacrosInOrder(lines, o, |lines|);
    if PlainElif(lines, o, |lines|) {
      var j :| o < j < |lines| && lines[j].ElifDefined? && Owner(lines, j) == Some(o);
      TwoTests(lines, o, j);
    } else {
      OneTest(lines, o, |lines|);
    }
  }

  lemma TwoTests(lines: seq<Line>, o: nat, j: nat)
    requires o < j < |lines| && Tests(lines, o, o) && Tests(lines, o, j)
    ensures |TestLines(lines, o, |lines|)| >= 2
  {
    var first := TestLineListed(lines, o, |lines|, o);
    var second := TestLineListed(lines, o, |lines|, j);
  }

  lemma {:induction false} OneTest(lines: seq<Line>, o: nat, n: nat)
    requires o < n <= |lines| && lines[o].IfDefined? && !PlainElif(lines, o, |lines|)
    ensures TestLines(lines, o, n) == [o]
    decreases n
  {
    if n == o + 1 {
      FirstTest(lines, o);
    } else {
      OneTest(lines, o, n - 1);
      assert !Tests(lines, o, n - 1);
    }
  }

  /** The comment of a plain chain, on its lines: the longest prefix of all its macros, if there is one. */
  lemma ChainCommentOnLines(lines: seq<Line>, o: nat, q: string)
    requires o < |lines| && lines[o].IfDefined? && PlainElif(lines, o, |lines|)
    ensures match CommonMacroPrefix(MacrosOf(lines, o, |lines|))
            case Some(p) => ChainPrefix(lines, o, p) && (ChainPrefix(lines, o, q) ==> q <= p)
            case None => !ChainPrefix(lines, o, q)
  {
    var macros := MacrosOf(lines, o, |lines|);
    SeveralMacros(lines, o);
    ChainCommentIsLongest(macros, q);
    PrefixOfTests(lines, o, q);
    if CommonMacroPrefix(macros).Some? {
      PrefixOfTests(lines, o, CommonMacroPrefix(macros).value);
    }
  }

  /** The comment a pass leaves on the `#endif` of the conditional opened at `o`. */
  lemma EndifWritten(lines: seq<Line>, o: nat, i: nat, q: string)
    requires i < |lines| && lines[i].Endif? && Owner(lines, i) == Some(o)
    ensures Pass(lines)[i].Endif?
    ensures var tail := Pass(lines)[i].tail;
            match lines[o]
            case IfDef(m) => tail == Comment(m)
            case IfNDef(m) => tail == Comment(m)
            case IfDefined(m) =>
              if OtherElif(lines, o, i) then !tail.Comment?
              else if PlainElif(lines, o, i) then
                && (tail.Comment? ==> ChainPrefix(lines, o, tail.text))
                && (ChainPrefix(lines, o, q) ==> tail.Comment? && q <= tail.text)
              else tail == Comment(m)
            case _ => Pass(lines)[i] == lines[i]
  {
    assert Pass(lines)[i] == FixWith(RecordAt(lines, o, i), lines[i]);
    if lines[o].IfDefined? {
      ElifsRecorded(lines, o, i);
      if PlainElif(lines, o, i) {
        assert PlainElif(lines, o, |lines|);
        ChainCommentOnLines(lines, o, q);
      }
    }
  }

  /** A Windows fallback of a conditional in which no line tests anything but the Linux macro, once. */
  ghost predicate WindowsFallback(lines: seq<Line>, o: nat, i: nat)
    requires o < i < |lines| && lines[i].Else?
  {
    && lines[i].tail == Comment("PLATFORM_WINDOWS") && lines[o] == IfDefined("PLATFORM_LINUX")
    && !OtherElif(lines, o, i) && !PlainElif(lines, o, |lines|)
  }

  /** The macros the chain tests, read off its lines. */
  function TestedMacros(lines: seq<Line>, o: nat): seq<string>
    requires o < |lines|
  {
    var at := TestLines(lines, o, |lines|);
    seq(|at|, k requires 0 <= k < |at| => TestLinesTest(lines, o, |lines|, k); Tested(lines, o, at[k]))
  }

  lemma MacrosAreTested(lines: seq<Line>, o: nat)
    requires o < |lines| && lines[o].IfDefined?
    ensures MacrosOf(lines, o, |lines|) == TestedMacros(lines, o)
  {
    MacrosInOrder(lines, o, |lines|);
  }

  /** What a pass leaves on an `#else`. */
  lemma ElseWritten(lines: seq<Line>, o: nat, i: nat)
    requires i < |lines| && lines[i].Else? && Owner(lines, i) == Some(o)
    ensures match lines[o]
            case IfDef(m) => Pass(lines)[i].Else? && Pass(lines)[i].tail == Comment("!" + m)
            case IfNDef(m) => Pass(lines)[i].Else? && Pass(lines)[i].tail == Comment(m)
            case IfDefined(m) =>
              if OtherElif(lines, o, i) then Pass(lines)[i].Else? && !Pass(lines)[i].tail.Comment?
              else if WindowsFallback(lines, o, i) then
                Pass(lines)[i] == ElifDefined(lines[i].indent, "PLATFORM_WINDOWS")
              else if PlainElif(lines, o, i) then
                Pass(lines)[i].Else? && Pass(lines)[i].tail == Comment(NoneDefinedText(TestedMacros(lines, o)))
              else Pass(lines)[i].Else? && Pass(lines)[i].tail == Comment("!" + m)
            case _ => Pass(lines)[i] == lines[i]
  {
    assert Pass(lines)[i] == FixWith(RecordAt(lines, o, i), lines[i]);
    if lines[o].IfDefined? {
      ElifsRecorded(lines, o, i);
      MacrosAreTested(lines, o);
      SeveralMacros(lines, o);
    }
  }

  /**
    A line that belongs to no conditional stays; a line that changes keeps its indentation, has
    nothing between the directive and its tail, and differs in its tail; where no comment is left, one was taken away.
   */
  lemma WrittenForm(lines: seq<Line>, i: nat)
    requires i < |lines| && (lines[i].Else? || lines[i].Endif?)
    ensures Owner(lines, i).None? ==> Pass(lines)[i] == lines[i]
    ensures var l := Pass(lines)[i];
            l != lines[i] && (l.Else? || l.Endif?) ==>
              && l.indent == lines[i].indent && l.gap == "" && l.tail != lines[i].tail
              && (l.tail.Comment? || (l.tail == Bare && lines[i].tail.Comment?))
  {
    if Owner(lines, i).Some? {
      assert Pass(lines)[i] == FixWith(RecordAt(lines, Owner(lines, i).value, i), lines[i]);
    }
  }
}
