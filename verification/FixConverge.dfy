/** bin/fix-if-comments.py run again: exactly what a second pass still changes. */
module FixConverge {
  import opened Types
  import opened FixComments
  import opened FixMeaning

  /**
    A line the first pass leaves unfinished: it belongs to a conditional one of whose earlier
    `#else` lines is turned, and no other kind of condition has made the script give up on it.
   */
  ghost predicate SettlesLate(lines: seq<Line>, i: nat)
    requires i < |lines|
  {
    && (lines[i].Endif? || (lines[i].Else? && !Turns(lines, i)))
    && match Owner(lines, i)
       case None => false
       case Some(o) => !HasComplexElif(lines, o, i) && TurnedBefore(lines, o, i)
  }

  ghost predicate TurnedBefore(lines: seq<Line>, o: nat, i: nat)
    requires i <= |lines|
  {
    exists j {:trigger Owns(lines, o, j)} :: 0 <= j < i && Turns(lines, j) && Owns(lines, o, j)
  }

  // ---- The two records of such a line ----

  lemma NoEarlierElif(lines: seq<Line>, o: nat, i: nat, j: nat)
    requires o < j < i < |lines| && lines[o].IfDefined? && MacrosOf(lines, o, |lines|) == [LINUX]
    requires !HasComplexElif(lines, o, i) && Owns(lines, o, j)
    ensures !IsElif(lines[j])
  {
    MacrosGrow(lines, o, j, j + 1);
    MacrosGrow(lines, o, j + 1, |lines|);
    MacrosGrow(lines, o, o + 1, j);
  }

  /** What a later pass sees as an `#elif` was one before, or was turned. */
  lemma ElifOrTurned(lines: seq<Line>, o: nat, j: nat)
    requires j < |lines|
    ensures Owns(Pass(lines), o, j) <==> Owns(lines, o, j)
    ensures IsElif(Pass(lines)[j]) <==> IsElif(lines[j]) || Turns(lines, j)
  {
    PassRefines(lines);
    SameStack(lines, Pass(lines), j);
    TurnsExactly(lines, j);
    PassKeepsOtherLines(lines, j);
  }

  /** In a chain that tests only the Linux macro, what a later pass sees as an `#elif` is what was turned. */
  lemma ElifsAreTurned(lines: seq<Line>, o: nat, i: nat)
    requires o < i < |lines| && Opens(lines[o]) && Opens(Pass(lines)[o]) && lines[o].IfDefined?
    requires MacrosOf(lines, o, |lines|) == [LINUX] && !HasComplexElif(lines, o, i)
    ensures !HasElif(lines, o, i)
    ensures HasElif(Pass(lines), o, i) <==> TurnedBefore(lines, o, i)
  {
    PassKeepsOtherLines(lines, o);
    forall j | o < j < i && Owns(lines, o, j) ensures !IsElif(lines[j]) {
      NoEarlierElif(lines, o, i, j);
    }
    forall j | 0 <= j < i
      ensures Owns(Pass(lines), o, j) <==> Owns(lines, o, j)
      ensures IsElif(Pass(lines)[j]) <==> IsElif(lines[j]) || Turns(lines, j)
    {
      ElifOrTurned(lines, o, j);
    }
    if TurnedBefore(lines, o, i) {
      var j :| 0 <= j < i && Turns(lines, j) && Owns(lines, o, j);
      assert Owns(Pass(lines), o, j);
    }
  }

  /** The chain text of a turned conditional is longer than the text for the Linux macro alone. */
  lemma ChainTextDiffers(macros: seq<string>)
    requires PlatformChain(macros) && |macros| > 1
    ensures NoneDefinedText(macros) != NoneDefinedText([LINUX])
  {
    assert NoneDefinedText(macros) == "!" + macros[0] + " && " + NoneDefinedText(macros[1..]);
  }

  lemma EndifWrittenTwice(r0: Record, r1: Record, l: Line)
    requires TurnedRecords(r0, r1) && l.Endif? && (r0.complex || !r0.hasElif)
    ensures FixWith(r1, FixWith(r0, l)) != FixWith(r0, l) <==> !r0.complex && r1.hasElif
  {
    var once := FixWith(r0, l);
    assert once == FixEndif(r0.opener, r0.macros, r0.hasElif, r0.complex, l);
    assert FixWith(r1, once) == FixEndif(r1.opener, r1.macros, r1.hasElif, r1.complex, once);
    assert LINUX != "PLATFORM_";
  }

  lemma ElseWrittenTwice(r0: Record, r1: Record, l: Line)
    requires TurnedRecords(r0, r1) && l.Else? && (r0.complex || !r0.hasElif) && |r1.macros| > 1
    requires !Rewrites(r0.opener, r0.macros, r0.complex, l)
    ensures FixWith(r1, FixWith(r0, l)) != FixWith(r0, l) <==> !r0.complex && r1.hasElif
  {
    var first := if r0.complex then None else Some(NoneDefinedText([LINUX]));
    ElseText(r0.opener, r0.macros, r0.hasElif);
    ElseText(r1.opener, r1.macros, r1.hasElif);
    CommentSet(l, first);
    var once := WithComment(l, first);
    assert FixWith(r0, l) == once;
    var second := if r1.complex then None else if r1.hasElif then Some(NoneDefinedText(r1.macros)) else first;
    assert FixWith(r1, once) == WithComment(once, second);
    CommentSet(once, second);
    ChainTextDiffers(r1.macros);
  }

  /** Which lines of a turned conditional two passes write differently. */
  lemma LineWrittenTwice(r0: Record, r1: Record, l: Line)
    requires TurnedRecords(r0, r1) && (r0.complex || !r0.hasElif) && |r1.macros| > 1
    ensures FixWith(r1, FixWith(r0, l)) != FixWith(r0, l)
            <==> !r0.complex && r1.hasElif && (l.Endif? || (l.Else? && !Rewrites(r0.opener, r0.macros, r0.complex, l)))
  {
    if l.Endif? {
      EndifWrittenTwice(r0, r1, l);
    } else if l.Else? && !Rewrites(r0.opener, r0.macros, r0.complex, l) {
      ElseWrittenTwice(r0, r1, l);
    }
  }

  /** The records of one line of a turned conditional, before and after the first pass. */
  lemma RecordsOfTurned(lines: seq<Line>, o: nat, i: nat, j: nat)
    requires o < i < |lines| && Opens(lines[o]) && TurnedAt(lines, Pass(lines), o, j)
    ensures Opens(Pass(lines)[o]) && lines[o].IfDefined? && MacrosOf(lines, o, |lines|) == [LINUX]
    ensures var r0, r1 := RecordAt(lines, o, i), RecordAt(Pass(lines), o, i);
            && TurnedRecords(r0, r1) && |r1.macros| > 1 && (r0.complex || !r0.hasElif)
            && r0.complex == HasComplexElif(lines, o, i)
            && (!r0.complex ==> (r1.hasElif <==> TurnedBefore(lines, o, i)))
  {
    PassRefines(lines);
    SameRole(lines, Pass(lines), o);
    TurnedMeansLinuxOnly(lines, o, j);
    TurnedChain(lines, Pass(lines), o, |lines|);
    PlatformPrefix(MacrosOf(Pass(lines), o, |lines|));
    SameComplex(lines, Pass(lines), o, i);
    if !HasComplexElif(lines, o, i) {
      ElifsAreTurned(lines, o, i);
    }
  }

  // ---- Exactly these lines ----

  lemma WrittenFromRecords(lines: seq<Line>, o: nat, i: nat)
    requires i < |lines| && Owner(lines, i) == Some(o) && Opens(Pass(lines)[o])
    ensures var r0, r1 := RecordAt(lines, o, i), RecordAt(Pass(lines), o, i);
            && Pass(lines)[i] == FixWith(r0, lines[i]) && Pass(Pass(lines))[i] == FixWith(r1, FixWith(r0, lines[i]))
            && (lines[i].Else? ==> (Turns(lines, i) <==> Rewrites(r0.opener, r0.macros, r0.complex, lines[i])))
  {
    PassRefines(lines);
    SameStack(lines, Pass(lines), i);
  }

  lemma TurnedLineSettles(lines: seq<Line>, o: nat, i: nat, j: nat)
    requires i < |lines| && Owner(lines, i) == Some(o) && TurnedAt(lines, Pass(lines), o, j)
    ensures Pass(Pass(lines))[i] != Pass(lines)[i] <==> SettlesLate(lines, i)
  {
    RecordsOfTurned(lines, o, i, j);
    WrittenFromRecords(lines, o, i);
    LineWrittenTwice(RecordAt(lines, o, i), RecordAt(Pass(lines), o, i), lines[i]);
  }

  /** On any input the second pass changes a line if and only if the first one leaves it unfinished. */
  lemma SecondPassChangesExactly(lines: seq<Line>, i: nat)
    requires i < |lines|
    ensures Pass(Pass(lines))[i] != Pass(lines)[i] <==> SettlesLate(lines, i)
  {
    if Owner(lines, i).Some? && Turned(lines, Pass(lines), Owner(lines, i).value) {
      var o := Owner(lines, i).value;
      var j :| TurnedAt(lines, Pass(lines), o, j);
      TurnedLineSettles(lines, o, i, j);
    } else {
      UnturnedLineIsFinal(lines, Pass(lines), i);
      if Owner(lines, i).Some? {
        TurnedBeforeIsTurned(lines, Owner(lines, i).value, i);
      }
    }
  }

  lemma TurnedBeforeIsTurned(lines: seq<Line>, o: nat, i: nat)
    requires i <= |lines|
    ensures TurnedBefore(lines, o, i) ==> Turned(lines, Pass(lines), o)
  {
    forall j | 0 <= j < i && Turns(lines, j) && Owns(lines, o, j) ensures TurnedAt(lines, Pass(lines), o, j) {
      TurnsExactly(lines, j);
    }
  }

  /** On any input one pass is enough if and only if it leaves no line unfinished. */
  lemma OnePassIsEnough(lines: seq<Line>)
    ensures Pass(Pass(lines)) == Pass(lines) <==> forall i :: 0 <= i < |lines| ==> !SettlesLate(lines, i)
  {
    forall i | 0 <= i < |lines| ensures Pass(Pass(lines))[i] != Pass(lines)[i] <==> SettlesLate(lines, i) {
      SecondPassChangesExactly(lines, i);
    }
  }

  // ---- Closed files ----

  lemma OnlyTheTopCloses(lines: seq<Line>, m: nat, k: nat)
    requires m < |lines| && k < |Stack(lines, m)|
    ensures Stack(lines, m)[k] in Stack(lines, m + 1) || (k == |Stack(lines, m)| - 1 && lines[m].Endif?)
  {
    var s := Stack(lines, m);
    if k < |s| - 1 || !lines[m].Endif? {
      assert Stack(lines, m + 1)[k] == s[k];
    }
  }

  /** A conditional that is open before line `m` and not at the end is closed by a line of its own. */
  lemma {:induction false} ClosingLine(lines: seq<Line>, o: nat, m: nat) returns (i: nat)
    requires o < m <= |lines| && o in Stack(lines, m) && o !in Stack(lines, |lines|)
    ensures m <= i < |lines| && lines[i].Endif? && Owns(lines, o, i)
    decreases |lines| - m
  {
    if o in Stack(lines, m + 1) {
      i := ClosingLine(lines, o, m + 1);
    } else {
      var s := Stack(lines, m);
      var k :| 0 <= k < |s| && s[k] == o;
      OnlyTheTopCloses(lines, m, k);
      i := m;
    }
  }

  /** In a well-nested file no other condition follows an `#else`. */
  lemma NoLateCondition(lines: seq<Line>, o: nat, j: nat, i: nat)
    requires WellNested(lines) && j < i < |lines| && Turns(lines, j) && Owns(lines, o, j)
    ensures !HasComplexElif(lines, o, i)
  {
    forall m | o < m < i && Owns(lines, o, m) ensures !lines[m].ElifExpr? {
      assert NestedLine(lines, m);
      if m > j {
        assert ElseSeen(lines, o, m);
      }
    }
  }

  /** A well-nested file that closes all its conditionals is settled by one pass if and only if no `#else` is turned. */
  lemma ClosedFileNeedsOnePass(lines: seq<Line>)
    requires WellNested(lines) && Stack(lines, |lines|) == []
    ensures Pass(Pass(lines)) == Pass(lines) <==> forall j :: 0 <= j < |lines| ==> !Turns(lines, j)
  {
    OnePassIsEnough(lines);
    forall j | 0 <= j < |lines| && Turns(lines, j) ensures Pass(Pass(lines)) != Pass(lines) {
      var i := EndifSettlesLate(lines, j);
    }
  }

  /** The `#endif` of a conditional whose `#else` is turned is not finished by the first pass. */
  lemma EndifSettlesLate(lines: seq<Line>, j: nat) returns (i: nat)
    requires WellNested(lines) && Stack(lines, |lines|) == [] && j < |lines| && Turns(lines, j)
    ensures i < |lines| && SettlesLate(lines, i)
  {
    var o := Owner(lines, j).value;
    i := ClosingLine(lines, o, j);
    assert Owns(lines, o, j) && j < i;
    NoLateCondition(lines, o, j, i);
    assert TurnedBefore(lines, o, i);
  }

  /** A file that one pass does not settle. */
  lemma FallbackNeedsTwoPasses()
    ensures Pass(Pass(Fallback())) != Pass(Fallback())
  {
    var file := Fallback();
    FallbackIsTurned();
    FallbackNested();
    assert Stack(file, 4) == [];
    TurnsExactly(file, 1);
    ClosedFileNeedsOnePass(file);
  }

  lemma FallbackNested()
    ensures WellNested(Fallback()) && Stack(Fallback(), 0) == [] && Stack(Fallback(), 1) == [0]
    ensures Stack(Fallback(), 2) == [0] && Stack(Fallback(), 3) == [0]
  {
    var file := Fallback();
    assert Stack(file, 0) == [] && Stack(file, 1) == [0];
    assert Stack(file, 2) == [0];
    assert Stack(file, 3) == [0];
    StackHoldsOpeners(file, 1, 0);
    StackHoldsOpeners(file, 3, 0);
    assert NestedLine(file, 0) && NestedLine(file, 1) && NestedLine(file, 2) && NestedLine(file, 3);
  }
}
