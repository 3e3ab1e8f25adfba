/**
  Conditional inclusion (section 6.10.1 of ISO/IEC 9899:2018) over classified lines, and
  what a pass of fix-if-comments does to it.
 */
module FixMeaning {
  import opened Types
  import opened FixComments

  /** The defined macros, and the value of every other condition under them. */
  datatype Env = Env(macros: set<string>, truth: (string, set<string>) -> bool)

  function Defined(env: Env, macro: string): bool {
    macro in env.macros
  }

  /** An open conditional: its surroundings are included, some group was chosen, the current group is included. */
  datatype Group = Group(outer: bool, taken: bool, live: bool)

  /** The preprocessor between two lines: the environment, the open conditionals, the lines included so far. */
  datatype State = State(env: Env, groups: seq<Group>, selected: seq<Line>)

  predicate Live(groups: seq<Group>) {
    groups == [] || groups[|groups| - 1].live
  }

  function Condition(l: Line, env: Env): bool {
    match l
    case IfDef(m) => Defined(env, m)
    case IfNDef(m) => !Defined(env, m)
    case IfDefined(m) => Defined(env, m)
    case IfExpr(e) => env.truth(e, env.macros)
    case ElifDefined(_, m) => Defined(env, m)
    case ElifExpr(e) => env.truth(e, env.macros)
    case _ => true
  }

  /** The group that an `#elif` or `#else` line starts. */
  function NextGroup(g: Group, condition: bool): Group {
    var live := g.outer && !g.taken && condition;
    Group(g.outer, g.taken || live, live)
  }

  function Step(s: State, l: Line): State {
    var n := |s.groups|;
    if Opens(l) then
      var live := Live(s.groups) && Condition(l, s.env);
      s.(groups := s.groups + [Group(Live(s.groups), live, live)])
    else if IsElif(l) || l.Else? then
      if n == 0 then s else s.(groups := s.groups[n - 1 := NextGroup(s.groups[n - 1], Condition(l, s.env))])
    else if l.Endif? then
      if n == 0 then s else s.(groups := s.groups[..n - 1])
    else if !Live(s.groups) then s
    else s.(env := Obey(s.env, l), selected := s.selected + [l])
  }

  function Obey(env: Env, l: Line): Env {
    match l
    case Define(m) => env.(macros := env.macros + {m})
    case Undef(m) => env.(macros := env.macros - {m})
    case _ => env
  }

  /** The state before line `i`. */
  function Run(env: Env, lines: seq<Line>, i: nat): State
    requires i <= |lines|
  {
    if i == 0 then State(env, [], []) else Step(Run(env, lines, i - 1), lines[i - 1])
  }

  /** The lines conditional inclusion keeps. */
  function Select(env: Env, lines: seq<Line>): seq<Line> {
    Run(env, lines, |lines|).selected
  }

  // ---- Well-nested files ----

  /** The conditional opened at `o` has had its `#else` before line `n`. */
  predicate ElseSeen(lines: seq<Line>, o: nat, n: nat)
    requires n <= |lines|
  {
    exists j {:trigger Owns(lines, o, j)} :: o < j < n && lines[j].Else? && Owns(lines, o, j)
  }

  /** Every `#elif`, `#else` and `#endif` has its opener, and nothing but `#endif` follows an `#else`. */
  predicate WellNested(lines: seq<Line>) {
    forall i :: 0 <= i < |lines| ==> NestedLine(lines, i)
  }

  predicate NestedLine(lines: seq<Line>, i: nat)
    requires i < |lines|
  {
    IsElif(lines[i]) || lines[i].Else? || lines[i].Endif? ==>
      && Owner(lines, i).Some?
      && (lines[i].Endif? || !ElseSeen(lines, Owner(lines, i).value, i))
  }

  // ---- What every run keeps ----

  /** A live group is a chosen one, and it is live only if everything around it is. */
  predicate Coherent(groups: seq<Group>) {
    && (forall k :: 0 <= k < |groups| ==> (groups[k].live ==> groups[k].taken && groups[k].outer))
    && (forall k :: 1 <= k < |groups| ==> groups[k].outer == groups[k - 1].live)
  }

  /** If the innermost group is live, all groups are. */
  lemma {:induction false} LiveAllTheWay(groups: seq<Group>, k: nat)
    requires Coherent(groups) && Live(groups) && k < |groups|
    ensures groups[k].live
    decreases |groups| - k
  {
    if k < |groups| - 1 {
      LiveAllTheWay(groups, k + 1);
      assert groups[k + 1].outer == groups[k].live;
    }
  }

  lemma StepCoherent(s: State, l: Line)
    requires Coherent(s.groups)
    ensures Coherent(Step(s, l).groups)
  {
  }

  /** A step leaves a group unchosen only if it was unchosen before, and then the environment did not change. */
  lemma UnchosenStep(s: State, l: Line, k: nat)
    requires Coherent(s.groups) && k < |s.groups| && k < |Step(s, l).groups|
    requires Step(s, l).groups[k].outer && !Step(s, l).groups[k].taken
    ensures s.groups[k].outer && !s.groups[k].taken && Step(s, l).env == s.env
  {
    if Live(s.groups) {
      LiveAllTheWay(s.groups, k);
    }
  }

  /** How many conditionals are open after a line that finds `n` open. */
  function Depth(n: nat, l: Line): nat {
    if Opens(l) then n + 1 else if l.Endif? && n > 0 then n - 1 else n
  }

  lemma StepDepth(s: State, l: Line)
    ensures |Step(s, l).groups| == Depth(|s.groups|, l)
  {
  }

  lemma StackDepth(lines: seq<Line>, i: nat)
    requires i < |lines|
    ensures |Stack(lines, i + 1)| == Depth(|Stack(lines, i)|, lines[i])
  {
  }

  lemma {:induction false} RunCoherent(env: Env, lines: seq<Line>, i: nat)
    requires i <= |lines|
    ensures Coherent(Run(env, lines, i).groups)
  {
    if i > 0 {
      RunCoherent(env, lines, i - 1);
      StepCoherent(Run(env, lines, i - 1), lines[i - 1]);
    }
  }

  lemma NextDepth(s: State, lines: seq<Line>, i: nat)
    requires i < |lines| && |s.groups| == |Stack(lines, i)|
    ensures |Step(s, lines[i]).groups| == |Stack(lines, i + 1)|
  {
    StepDepth(s, lines[i]);
    StackDepth(lines, i);
  }

  lemma {:induction false} RunDepth(env: Env, lines: seq<Line>, i: nat)
    requires i <= |lines|
    ensures |Run(env, lines, i).groups| == |Stack(lines, i)|
  {
    if i > 0 {
      RunDepth(env, lines, i - 1);
      NextDepth(Run(env, lines, i - 1), lines, i - 1);
    }
  }

  /** The conditionals the preprocessor has open are those of the script's stack. */
  lemma GroupsFollowStack(env: Env, lines: seq<Line>, i: nat)
    requires i <= |lines|
    ensures |Run(env, lines, i).groups| == |Stack(lines, i)|
    ensures Coherent(Run(env, lines, i).groups)
  {
    RunDepth(env, lines, i);
    RunCoherent(env, lines, i);
  }

  /** The group of the conditional at depth `k` before line `i`. */
  function GroupAt(env: Env, lines: seq<Line>, i: nat, k: nat): Group
    requires i <= |lines| && k < |Stack(lines, i)|
  {
    GroupsFollowStack(env, lines, i);
    Run(env, lines, i).groups[k]
  }

  /** The opener of the conditional at depth `k` before line `i`. */
  function OpenerAt(lines: seq<Line>, i: nat, k: nat): (o: nat)
    requires i <= |lines| && k < |Stack(lines, i)|
    ensures o < i && Opens(lines[o])
  {
    StackHoldsOpeners(lines, i, k);
    Stack(lines, i)[k]
  }

  /** An `#elif` or `#else` of the conditional opened at `o`. */
  predicate Moves(lines: seq<Line>, o: nat, i: nat)
    requires i < |lines|
  {
    (IsElif(lines[i]) || lines[i].Else?) && Owns(lines, o, i)
  }

  /** What one line does to a conditional that was already open. */
  lemma OpenGroupStep(env: Env, lines: seq<Line>, i: nat, k: nat)
    requires i < |lines| && k < |Stack(lines, i)| && k < |Stack(lines, i + 1)|
    ensures OpenerAt(lines, i + 1, k) == OpenerAt(lines, i, k)
    ensures GroupAt(env, lines, i + 1, k)
            == if Moves(lines, OpenerAt(lines, i, k), i)
              then NextGroup(GroupAt(env, lines, i, k), Condition(lines[i], Run(env, lines, i).env))
               else GroupAt(env, lines, i, k)
    ensures GroupAt(env, lines, i + 1, k).outer && !GroupAt(env, lines, i + 1, k).taken ==>
              !GroupAt(env, lines, i, k).taken && Run(env, lines, i + 1).env == Run(env, lines, i).env
  {
    var s, l := Run(env, lines, i), lines[i];
    GroupsFollowStack(env, lines, i);
    assert Run(env, lines, i + 1) == Step(s, l);
    if Owns(lines, OpenerAt(lines, i, k), i) {
      OwnerIsTop(lines, i, k);
    }
    if GroupAt(env, lines, i + 1, k).outer && !GroupAt(env, lines, i + 1, k).taken {
      UnchosenStep(s, l, k);
    }
  }

  /** What an opener starts. */
  lemma NewGroupStep(env: Env, lines: seq<Line>, i: nat, k: nat)
    requires i < |lines| && |Stack(lines, i)| <= k < |Stack(lines, i + 1)|
    ensures OpenerAt(lines, i + 1, k) == i && Run(env, lines, i + 1).env == Run(env, lines, i).env
    ensures var g := GroupAt(env, lines, i + 1, k); g.taken == (g.outer && Condition(lines[i], Run(env, lines, i).env))
  {
    GroupsFollowStack(env, lines, i);
    assert Run(env, lines, i + 1) == Step(Run(env, lines, i), lines[i]);
  }

  /** Only the innermost conditional owns a line. */
  lemma OwnerIsTop(lines: seq<Line>, i: nat, k: nat)
    requires i <= |lines| && k < |Stack(lines, i)| && Owner(lines, i) == Some(Stack(lines, i)[k])
    ensures k == |Stack(lines, i)| - 1
  {
    if k < |Stack(lines, i)| - 1 {
      StackIncreases(lines, i, k, |Stack(lines, i)| - 1);
    }
  }

  /** Until a group is chosen, the environment is still the one at the opener. */
  lemma {:induction false} UnchosenKeepsEnv(env: Env, lines: seq<Line>, i: nat, k: nat)
    requires i <= |lines| && k < |Stack(lines, i)|
    requires GroupAt(env, lines, i, k).outer && !GroupAt(env, lines, i, k).taken
    ensures Run(env, lines, i).env == Run(env, lines, OpenerAt(lines, i, k)).env
    decreases i
  {
    if k < |Stack(lines, i - 1)| {
      OpenGroupStep(env, lines, i - 1, k);
      UnchosenKeepsEnv(env, lines, i - 1, k);
    } else {
      NewGroupStep(env, lines, i - 1, k);
    }
  }

  // ---- A pass keeps the meaning ----

  /** The `#else` at line `i` would start an included group. */
  predicate FallsThrough(env: Env, lines: seq<Line>, i: nat)
    requires i <= |lines|
  {
    var groups := Run(env, lines, i).groups;
    groups != [] && groups[|groups| - 1].outer && !groups[|groups| - 1].taken
  }

  /** Wherever the pass turns an `#else` that would be included, the Windows macro is defined. */
  predicate Covered(env: Env, lines: seq<Line>, n: nat)
    requires n <= |lines|
  {
    forall i :: 0 <= i < n ==> CoveredAt(env, lines, i)
  }

  predicate CoveredAt(env: Env, lines: seq<Line>, i: nat)
    requires i < |lines|
  {
    Turns(lines, i) && FallsThrough(env, lines, i) ==> Defined(Run(env, lines, i).env, WINDOWS)
  }

  /** A line that steers conditional inclusion; every other line is kept or dropped by it. */
  predicate Steers(l: Line) {
    Opens(l) || IsElif(l) || l.Else? || l.Endif?
  }

  /** The conditional opened at `o` is in a branch that the rewrite takes away. */
  ghost predicate Lost(env: Env, lines: seq<Line>, o: nat, i: nat)
    requires i <= |lines|
  {
    exists j {:trigger Owns(lines, o, j)} :: 0 <= j < i && Owns(lines, o, j) && !CoveredAt(env, lines, j)
  }

  /** Before line `i`, the conditional at depth `k` or one around it is in such a branch. */
  ghost predicate InLost(env: Env, lines: seq<Line>, i: nat, k: nat)
    requires i <= |lines| && k < |Stack(lines, i)|
  {
    exists d :: 0 <= d <= k && Lost(env, lines, Stack(lines, i)[d], i)
  }

  /** Line `i` is not an included line of a branch that the rewrite takes away. */
  ghost predicate KeptLine(env: Env, lines: seq<Line>, i: nat)
    requires i < |lines|
  {
    !Steers(lines[i]) && Live(Run(env, lines, i).groups) && Stack(lines, i) != [] ==>
      !InLost(env, lines, i, |Stack(lines, i)| - 1)
  }

  ghost predicate Kept(env: Env, lines: seq<Line>, n: nat)
    requires n <= |lines|
  {
    forall i :: 0 <= i < n ==> KeptLine(env, lines, i)
  }

  // ---- Two preprocessors side by side ----

  predicate SameGroup(a: Group, b: Group, elseSeen: bool) {
    a.outer == b.outer && a.live == b.live && (a.taken == b.taken || elseSeen)
  }

  /** In a lost branch the second group is not live; elsewhere the groups differ at most in what an `#else` settles. */
  predicate GroupAgrees(a: Group, b: Group, elseSeen: bool, lost: bool) {
    if lost then !b.live else SameGroup(a, b, elseSeen)
  }

  ghost predicate StatesAgree(a: State, b: State, seen: seq<bool>, lost: seq<bool>) {
    && a.env == b.env && a.selected == b.selected && |a.groups| == |b.groups| == |seen| == |lost|
    && Coherent(b.groups) && Nested(lost)
    && forall k :: 0 <= k < |lost| ==> GroupAgrees(a.groups[k], b.groups[k], seen[k], lost[k])
  }

  /** What is inside a lost branch is lost. */
  predicate Nested(lost: seq<bool>) {
    forall k :: 1 <= k < |lost| ==> (lost[k - 1] ==> lost[k])
  }

  predicate Top(flags: seq<bool>) {
    flags != [] && flags[|flags| - 1]
  }

  lemma SameLive(a: State, b: State, seen: seq<bool>, lost: seq<bool>)
    requires StatesAgree(a, b, seen, lost)
    ensures if Top(lost) then !Live(b.groups) else Live(a.groups) == Live(b.groups)
  {
    if lost != [] {
      var n := |lost| - 1;
      assert GroupAgrees(a.groups[n], b.groups[n], seen[n], lost[n]);
    }
  }

  lemma OpenerAgrees(a: State, b: State, seen: seq<bool>, lost: seq<bool>, l: Line)
    requires StatesAgree(a, b, seen, lost) && Opens(l)
    ensures StatesAgree(Step(a, l), Step(b, l), seen + [false], lost + [Top(lost)])
  {
    SameLive(a, b, seen, lost);
    StepCoherent(b, l);
  }

  lemma EndifAgrees(a: State, b: State, seen: seq<bool>, lost: seq<bool>, l: Line)
    requires StatesAgree(a, b, seen, lost) && l.Endif? && lost != []
    ensures StatesAgree(Step(a, l), Step(b, l), seen[..|seen| - 1], lost[..|lost| - 1])
  {
    StepCoherent(b, l);
  }

  /** Any other line, unless it is included for the first preprocessor and lost for the second. */
  lemma OtherLineAgrees(a: State, b: State, seen: seq<bool>, lost: seq<bool>, l: Line)
    requires StatesAgree(a, b, seen, lost) && !Steers(l) && (Live(a.groups) ==> !Top(lost))
    ensures StatesAgree(Step(a, l), Step(b, l), seen, lost)
  {
    SameLive(a, b, seen, lost);
  }

  /** The next group of a conditional, rewritten or not; `covered` is false where the rewrite takes a branch away. */
  lemma NextGroupAgrees(a: State, b: State, seen: seq<bool>, lost: seq<bool>, l: Line, m: Line, covered: bool)
    requires StatesAgree(a, b, seen, lost) && lost != [] && !Top(seen)
    requires Top(lost) ==> |lost| > 1 && lost[|lost| - 2]
    requires (IsElif(l) && m == l && covered) || (l.Else? && (m.Else? || m.ElifDefined?))
    requires var g := a.groups[|a.groups| - 1];
             covered == (m.ElifDefined? && l.Else? && g.outer && !g.taken ==> Defined(a.env, m.macro))
    ensures StatesAgree(Step(a, l), Step(b, m), seen[|seen| - 1 := l.Else?], lost[|lost| - 1 := Top(lost) || !covered])
  {
    var n := |lost| - 1;
    var ga, gb := a.groups[n], b.groups[n];
    assert GroupAgrees(ga, gb, seen[n], lost[n]);
    assert n > 0 ==> gb.outer == b.groups[n - 1].live;
    if lost[n] {
      assert GroupAgrees(a.groups[n - 1], b.groups[n - 1], seen[n - 1], lost[n - 1]);
    }
    StepCoherent(b, m);
    assert GroupAgrees(NextGroup(ga, Condition(l, a.env)), NextGroup(gb, Condition(m, b.env)), l.Else?, lost[n]
                       || !covered);
  }

  // ---- How the flags move ----

  /** Which of the open conditionals have had their `#else`. */
  function SeenFlags(lines: seq<Line>, i: nat): (r: seq<bool>)
    requires i <= |lines|
    ensures |r| == |Stack(lines, i)|
  {
    seq(|Stack(lines, i)|, k requires 0 <= k < |Stack(lines, i)| => ElseSeen(lines, Stack(lines, i)[k], i))
  }

  /** Which of the open conditionals are in a lost branch, or inside one. */
  ghost function LostFlags(env: Env, lines: seq<Line>, i: nat): (r: seq<bool>)
    requires i <= |lines|
    ensures |r| == |Stack(lines, i)| && Nested(r)
  {
    seq(|Stack(lines, i)|, k requires 0 <= k < |Stack(lines, i)| => InLost(env, lines, i, k))
  }

  lemma OwnFlag(lines: seq<Line>, i: nat)
    requires i < |lines| && Owner(lines, i).Some?
    ensures var seen := SeenFlags(lines, i); seen != [] && Top(seen) == ElseSeen(lines, Owner(lines, i).value, i)
  {
  }

  lemma AgreementWeakens(a: State, b: State, seen: seq<bool>, more: seq<bool>, lost: seq<bool>)
    requires StatesAgree(a, b, seen, lost) && |more| == |seen|
    requires forall k :: 0 <= k < |more| ==> (seen[k] ==> more[k])
    ensures StatesAgree(a, b, more, lost)
  {
    forall k | 0 <= k < |more| ensures GroupAgrees(a.groups[k], b.groups[k], more[k], lost[k]) {
      assert GroupAgrees(a.groups[k], b.groups[k], seen[k], lost[k]);
    }
  }

  lemma ElseSeenStays(lines: seq<Line>, o: nat, i: nat)
    requires i < |lines|
    ensures ElseSeen(lines, o, i) ==> ElseSeen(lines, o, i + 1)
    ensures lines[i].Else? && Owner(lines, i) == Some(o) ==> ElseSeen(lines, o, i + 1)
  {
    assert Owner(lines, i) == Some(o) ==> Owns(lines, o, i) && o < i;
  }

  /** The flags of `#else` lines seen, one line further. */
  function NextSeen(lines: seq<Line>, i: nat): seq<bool>
    requires i < |lines| && NestedLine(lines, i)
  {
    var seen, l := SeenFlags(lines, i), lines[i];
    if Opens(l) then seen + [false]
    else if l.Endif? then seen[..|seen| - 1]
    else if l.Else? then seen[|seen| - 1 := true]
    else seen
  }

  lemma SeenStep(lines: seq<Line>, i: nat)
    requires i < |lines| && NestedLine(lines, i)
    ensures |NextSeen(lines, i)| == |SeenFlags(lines, i + 1)|
    ensures forall k :: 0 <= k < |NextSeen(lines, i)| ==> (NextSeen(lines, i)[k] ==> SeenFlags(lines, i + 1)[k])
  {
    var flags := NextSeen(lines, i);
    StackDepth(lines, i);
    forall k | 0 <= k < |flags| && flags[k] ensures SeenFlags(lines, i + 1)[k] {
      assert k < |Stack(lines, i)| && Stack(lines, i + 1)[k] == Stack(lines, i)[k];
      ElseSeenStays(lines, Stack(lines, i)[k], i);
    }
  }

  /** The flags of lost branches, one line further. */
  ghost function NextLost(env: Env, lines: seq<Line>, i: nat): seq<bool>
    requires i < |lines| && NestedLine(lines, i)
  {
    var lost, l := LostFlags(env, lines, i), lines[i];
    if Opens(l) then lost + [Top(lost)]
    else if l.Endif? then lost[..|lost| - 1]
    else if IsElif(l) || l.Else? then lost[|lost| - 1 := Top(lost) || !CoveredAt(env, lines, i)]
    else lost
  }

  lemma LostOneFurther(env: Env, lines: seq<Line>, o: nat, i: nat)
    requires i < |lines|
    ensures Lost(env, lines, o, i + 1) <==> Lost(env, lines, o, i) || (Owns(lines, o, i) && !CoveredAt(env, lines, i))
  {
    assert Owns(lines, o, i) || !Owns(lines, o, i);
  }

  /** A conditional that was open before the line and still is. */
  lemma InLostOneFurther(env: Env, lines: seq<Line>, i: nat, k: nat)
    requires i < |lines| && NestedLine(lines, i) && k < |Stack(lines, i)| && k < |Stack(lines, i + 1)|
    ensures InLost(env, lines, i + 1, k)
            <==> InLost(env, lines, i, k) || (k == |Stack(lines, i)| - 1 && !CoveredAt(env, lines, i))
  {
    var s, t := Stack(lines, i), Stack(lines, i + 1);
    forall d | 0 <= d <= k
      ensures t[d] == s[d]
      ensures Lost(env, lines, t[d], i + 1)
              <==> Lost(env, lines, s[d], i) || (d == |s| - 1 && !CoveredAt(env, lines, i))
    {
      LostOneFurther(env, lines, s[d], i);
      if Owns(lines, s[d], i) {
        OwnerIsTop(lines, i, d);
      }
    }
    if !CoveredAt(env, lines, i) && k == |s| - 1 {
      assert Lost(env, lines, t[k], i + 1);
    }
  }

  lemma LostStep(env: Env, lines: seq<Line>, i: nat)
    requires i < |lines| && NestedLine(lines, i)
    ensures LostFlags(env, lines, i + 1) == NextLost(env, lines, i)
  {
    var now, next := LostFlags(env, lines, i), NextLost(env, lines, i);
    StackDepth(lines, i);
    forall k | 0 <= k < |next| ensures LostFlags(env, lines, i + 1)[k] == next[k] {
      if k < |now| {
        InLostOneFurther(env, lines, i, k);
      } else {
        NewlyOpened(env, lines, i);
      }
    }
  }

  /** A new conditional is lost exactly if it is inside a lost one. */
  lemma NewlyOpened(env: Env, lines: seq<Line>, i: nat)
    requires i < |lines| && Opens(lines[i])
    ensures |Stack(lines, i + 1)| == |Stack(lines, i)| + 1
    ensures InLost(env, lines, i + 1, |Stack(lines, i)|) == Top(LostFlags(env, lines, i))
  {
    var s, t := Stack(lines, i), Stack(lines, i + 1);
    forall d | 0 <= d < |s| ensures t[d] == s[d] && (Lost(env, lines, t[d], i + 1) <==> Lost(env, lines, s[d], i)) {
      LostOneFurther(env, lines, s[d], i);
    }
    assert t[|s|] == i && !Lost(env, lines, i, i + 1);
  }

  // ---- The pass ----

  /** The two runs agree before line `i`. */
  ghost predicate Agree(env: Env, lines: seq<Line>, i: nat)
    requires i <= |lines|
  {
    StatesAgree(Run(env, lines, i), Run(env, Pass(lines), i), SeenFlags(lines, i), LostFlags(env, lines, i))
  }

  /** A lost conditional has had its `#else`, so a further branch can only belong to one inside it. */
  lemma LostHasElse(env: Env, lines: seq<Line>, i: nat)
    requires i < |lines| && NestedLine(lines, i) && (IsElif(lines[i]) || lines[i].Else?)
    ensures var lost := LostFlags(env, lines, i); lost != [] && (Top(lost) ==> |lost| > 1 && lost[|lost| - 2])
  {
    var s := Stack(lines, i);
    var n := |s| - 1;
    LostMeansElse(env, lines, s[n], i);
    if Top(LostFlags(env, lines, i)) {
      var d :| 0 <= d <= n && Lost(env, lines, s[d], i);
      assert d < n && InLost(env, lines, i, n - 1);
    }
  }

  lemma LostMeansElse(env: Env, lines: seq<Line>, o: nat, i: nat)
    requires i <= |lines|
    ensures Lost(env, lines, o, i) ==> ElseSeen(lines, o, i)
  {
    forall j | 0 <= j < i && Owns(lines, o, j) && !CoveredAt(env, lines, j) ensures ElseSeen(lines, o, i) {
      assert o < j && lines[j].Else?;
    }
  }

  /** An `#elif` or `#else`, seen by two preprocessors that agree. */
  lemma BranchAgrees(env: Env, lines: seq<Line>, i: nat, a: State, b: State)
    requires i < |lines| && NestedLine(lines, i) && (IsElif(lines[i]) || lines[i].Else?)
    requires a == Run(env, lines, i) && StatesAgree(a, b, SeenFlags(lines, i), LostFlags(env, lines, i))
    ensures StatesAgree(Step(a, lines[i]), Step(b, Pass(lines)[i]), NextSeen(lines, i), NextLost(env, lines, i))
  {
    var l, m, seen, lost := lines[i], Pass(lines)[i], SeenFlags(lines, i), LostFlags(env, lines, i);
    LostHasElse(env, lines, i);
    BranchCovered(env, lines, i, a);
    BranchFlags(env, lines, i, seen, lost);
    NextGroupAgrees(a, b, seen, lost, l, m, CoveredAt(env, lines, i));
  }

  lemma BranchFlags(env: Env, lines: seq<Line>, i: nat, seen: seq<bool>, lost: seq<bool>)
    requires i < |lines| && NestedLine(lines, i) && (IsElif(lines[i]) || lines[i].Else?)
    requires seen == SeenFlags(lines, i) && lost == LostFlags(env, lines, i)
    ensures seen != [] && |lost| == |seen| && !Top(seen)
    ensures NextSeen(lines, i) == seen[|seen| - 1 := lines[i].Else?]
    ensures NextLost(env, lines, i) == lost[|lost| - 1 := Top(lost) || !CoveredAt(env, lines, i)]
  {
    OwnFlag(lines, i);
    assert seen[|seen| - 1 := false] == seen;
  }

  /** What the pass makes of a branch line, and whether the branch it starts is covered. */
  lemma BranchCovered(env: Env, lines: seq<Line>, i: nat, a: State)
    requires i < |lines| && (IsElif(lines[i]) || lines[i].Else?)
    requires a == Run(env, lines, i) && a.groups != []
    ensures var l, m, covered := lines[i], Pass(lines)[i], CoveredAt(env, lines, i);
            var g := a.groups[|a.groups| - 1];
            && ((IsElif(l) && m == l && covered) || (l.Else? && (m.Else? || m.ElifDefined?)))
            && covered == (m.ElifDefined? && l.Else? && g.outer && !g.taken ==> Defined(a.env, m.macro))
  {
    PassKeepsOtherLines(lines, i);
    TurnsExactly(lines, i);
    RunDepth(env, lines, i);
  }

  /** What a pass leaves on a line, seen by two preprocessors that agree. */
  lemma LineAgrees(env: Env, lines: seq<Line>, i: nat)
    requires i < |lines| && NestedLine(lines, i) && Agree(env, lines, i) && KeptLine(env, lines, i)
    ensures StatesAgree(Step(Run(env, lines, i), lines[i]), Step(Run(env, Pass(lines), i), Pass(lines)[i]),
                        NextSeen(lines, i), NextLost(env, lines, i))
  {
    var l, seen, lost := lines[i], SeenFlags(lines, i), LostFlags(env, lines, i);
    var a, b := Run(env, lines, i), Run(env, Pass(lines), i);
    PassKeepsOtherLines(lines, i);
    if IsElif(l) || l.Else? {
      BranchAgrees(env, lines, i, a, b);
    } else if l.Endif? {
      EndifAgrees(a, b, seen, lost, l);
      assert Step(b, Pass(lines)[i]) == Step(b, l);
    } else if Opens(l) {
      OpenerAgrees(a, b, seen, lost, l);
    } else {
      OtherLineAgrees(a, b, seen, lost, l);
    }
  }

  lemma LineKeepsAgreement(env: Env, lines: seq<Line>, i: nat, next: nat)
    requires i < |lines| && NestedLine(lines, i) && Agree(env, lines, i) && KeptLine(env, lines, i) && next == i + 1
    ensures Agree(env, lines, next)
  {
    var a, b := Run(env, lines, i), Run(env, Pass(lines), i);
    assert Run(env, lines, i + 1) == Step(a, lines[i]) && Run(env, Pass(lines), i + 1) == Step(b, Pass(lines)[i]);
    LineAgrees(env, lines, i);
    SeenStep(lines, i);
    LostStep(env, lines, i);
    AgreementWeakens(Step(a, lines[i]), Step(b, Pass(lines)[i]), NextSeen(lines, i), SeenFlags(lines, i + 1),
                     NextLost(env, lines, i));
  }

  lemma AgreeAtStart(env: Env, lines: seq<Line>)
    ensures Agree(env, lines, 0)
  {
  }

  lemma KeptStep(env: Env, lines: seq<Line>, i: nat, next: nat)
    requires i < |lines| && WellNested(lines) && next == i + 1 && Kept(env, lines, next)
    ensures NestedLine(lines, i) && KeptLine(env, lines, i) && Kept(env, lines, i)
  {
  }

  lemma {:induction false} KeptAgrees(env: Env, lines: seq<Line>, i: nat)
    requires i <= |lines| && WellNested(lines) && Kept(env, lines, i)
    ensures Agree(env, lines, i)
    decreases i
  {
    if i == 0 {
      AgreeAtStart(env, lines);
    } else {
      KeptStep(env, lines, i - 1, i);
      KeptAgrees(env, lines, i - 1);
      LineKeepsAgreement(env, lines, i - 1, i);
    }
  }

  /** Line `i` is included in the file and in what a pass makes of it, or in neither. */
  predicate SameAt(env: Env, lines: seq<Line>, i: nat)
    requires i <= |lines|
  {
    Live(Run(env, Pass(lines), i).groups) == Live(Run(env, lines, i).groups)
  }

  predicate SameText(env: Env, lines: seq<Line>) {
    forall i :: 0 <= i < |lines| && !Steers(lines[i]) ==> SameAt(env, lines, i)
  }

  lemma KeptMeansSame(env: Env, lines: seq<Line>, i: nat)
    requires i < |lines| && Agree(env, lines, i) && !Steers(lines[i])
    ensures SameAt(env, lines, i) <==> KeptLine(env, lines, i)
  {
    SameLive(Run(env, lines, i), Run(env, Pass(lines), i), SeenFlags(lines, i), LostFlags(env, lines, i));
  }

  lemma {:induction false} FirstDropped(env: Env, lines: seq<Line>, n: nat) returns (i: nat)
    requires n <= |lines| && !Kept(env, lines, n)
    ensures i < n && Kept(env, lines, i) && !KeptLine(env, lines, i)
  {
    if Kept(env, lines, n - 1) {
      i := n - 1;
    } else {
      i := FirstDropped(env, lines, n - 1);
    }
  }

  /**
    On a well-nested file a pass leaves every line that is not a conditional directive as
    included or excluded as it was exactly when no included one stands in a branch whose
    `#else` was turned while the Windows macro was not defined; and then the selected
    lines are the same.
   */
  lemma PassKeepsMeaning(env: Env, lines: seq<Line>)
    requires WellNested(lines)
    ensures SameText(env, lines) <==> Kept(env, lines, |lines|)
    ensures Kept(env, lines, |lines|) ==> Select(env, Pass(lines)) == Select(env, lines)
  {
    if Kept(env, lines, |lines|) {
      forall i | 0 <= i < |lines| && !Steers(lines[i]) ensures SameAt(env, lines, i) {
        assert Kept(env, lines, i) && KeptLine(env, lines, i);
        KeptAgrees(env, lines, i);
        KeptMeansSame(env, lines, i);
      }
      KeptAgrees(env, lines, |lines|);
    } else {
      var i := FirstDropped(env, lines, |lines|);
      KeptAgrees(env, lines, i);
      KeptMeansSame(env, lines, i);
    }
  }

  // ---- Inclusion at every position ----

  /** Where every turned `#else` is covered, no branch is lost. */
  lemma CoveredIsKept(env: Env, lines: seq<Line>, n: nat)
    requires n <= |lines| && Covered(env, lines, n)
    ensures Kept(env, lines, n)
    ensures forall k :: 0 <= k < |Stack(lines, n)| ==> !LostFlags(env, lines, n)[k]
  {
  }

  lemma {:induction false} FirstUncovered(env: Env, lines: seq<Line>, n: nat) returns (i: nat)
    requires n <= |lines| && !Covered(env, lines, n)
    ensures i < n && Covered(env, lines, i) && !CoveredAt(env, lines, i)
  {
    if Covered(env, lines, n - 1) {
      i := n - 1;
    } else {
      i := FirstUncovered(env, lines, n - 1);
    }
  }

  /** An included `#else` that becomes a test of an undefined macro excludes what follows. */
  lemma UncoveredDiffers(env: Env, lines: seq<Line>, i: nat)
    requires i < |lines| && Agree(env, lines, i) && !Top(LostFlags(env, lines, i)) && !CoveredAt(env, lines, i)
    ensures !SameAt(env, lines, i + 1)
  {
    var after := Pass(lines);
    TurnsExactly(lines, i);
    assert Run(env, lines, i + 1) == Step(Run(env, lines, i), lines[i]);
    assert Run(env, after, i + 1) == Step(Run(env, after, i), after[i]);
  }

  /**
    Counting the position right after each directive too, inclusion is kept exactly when every
    turned `#else` is covered.
   */
  lemma PassKeepsInclusion(env: Env, lines: seq<Line>)
    requires WellNested(lines)
    ensures (forall i :: 0 <= i <= |lines| ==> SameAt(env, lines, i)) <==> Covered(env, lines, |lines|)
    ensures Covered(env, lines, |lines|) ==> Kept(env, lines, |lines|)
  {
    if Covered(env, lines, |lines|) {
      CoveredIsKept(env, lines, |lines|);
      forall i | 0 <= i <= |lines| ensures SameAt(env, lines, i) {
        CoveredIsKept(env, lines, i);
        KeptAgrees(env, lines, i);
        SameLive(Run(env, lines, i), Run(env, Pass(lines), i), SeenFlags(lines, i), LostFlags(env, lines, i));
      }
    } else {
      var i := FirstUncovered(env, lines, |lines|);
      CoveredIsKept(env, lines, i);
      KeptAgrees(env, lines, i);
      UncoveredDiffers(env, lines, i);
    }
  }

  // ---- What the macros tested so far say ----

  /** None of the conditions tested from the opener `o` up to line `n` held where the conditional was opened. */
  ghost predicate ChainFails(env: Env, lines: seq<Line>, o: nat, n: nat)
    requires o < n <= |lines|
  {
    var here := Run(env, lines, o).env;
    !Condition(lines[o], here) && forall m <- MacrosOf(lines, o, n) :: !Defined(here, m)
  }

  lemma MacrosStep(lines: seq<Line>, o: nat, n: nat)
    requires o < n < |lines|
    ensures MacrosOf(lines, o, n + 1) == MacrosOf(lines, o, n)
            || (AddsMacro(lines, o, n) && lines[o].IfDefined?
                && MacrosOf(lines, o, n + 1) == MacrosOf(lines, o, n) + [lines[n].macro])
  {
  }

  /** While no group is chosen, every condition tested so far was false. */
  lemma {:induction false} UnchosenChainFails(env: Env, lines: seq<Line>, i: nat, k: nat)
    requires i <= |lines| && k < |Stack(lines, i)|
    requires GroupAt(env, lines, i, k).outer && !GroupAt(env, lines, i, k).taken
    ensures ChainFails(env, lines, OpenerAt(lines, i, k), i)
    decreases i
  {
    if k < |Stack(lines, i - 1)| {
      var o := OpenerAt(lines, i, k);
      OpenGroupStep(env, lines, i - 1, k);
      UnchosenChainFails(env, lines, i - 1, k);
      UnchosenKeepsEnv(env, lines, i - 1, k);
      MacrosStep(lines, o, i - 1);
    } else {
      NewGroupStep(env, lines, i - 1, k);
    }
  }

  /** The conditional tests nothing but plain macros up to line `n`. */
  ghost predicate SimpleChain(lines: seq<Line>, o: nat, n: nat)
    requires o < n <= |lines|
  {
    && !lines[o].IfExpr?
    && forall j {:trigger Owns(lines, o, j)} :: o < j < n && Owns(lines, o, j) && IsElif(lines[j]) ==>
        lines[o].IfDefined? && lines[j].ElifDefined?
  }

  /** In a simple conditional before its `#else`, no group is chosen while every condition was false. */
  lemma {:induction false} FailingChainUnchosen(env: Env, lines: seq<Line>, i: nat, k: nat)
    requires i <= |lines| && k < |Stack(lines, i)|
    requires GroupAt(env, lines, i, k).outer && ChainFails(env, lines, OpenerAt(lines, i, k), i)
    requires SimpleChain(lines, OpenerAt(lines, i, k), i) && !ElseSeen(lines, OpenerAt(lines, i, k), i)
    ensures !GroupAt(env, lines, i, k).taken
    decreases i
  {
    if k < |Stack(lines, i - 1)| {
      var o := OpenerAt(lines, i, k);
      OpenGroupStep(env, lines, i - 1, k);
      ChainFailsSooner(env, lines, o, i - 1, i);
      SimpleSooner(lines, o, i - 1, i);
      FailingChainUnchosen(env, lines, i - 1, k);
      FailingStep(env, lines, o, i - 1, i, k);
    } else {
      NewGroupStep(env, lines, i - 1, k);
    }
  }

  lemma FailingStep(env: Env, lines: seq<Line>, o: nat, i: nat, next: nat, k: nat)
    requires i < |lines| && next == i + 1 && k < |Stack(lines, i)| && k < |Stack(lines, next)|
    requires o == OpenerAt(lines, i, k) && GroupAt(env, lines, i, k).outer && !GroupAt(env, lines, i, k).taken
    requires ChainFails(env, lines, o, next) && SimpleChain(lines, o, next) && !ElseSeen(lines, o, next)
    ensures !GroupAt(env, lines, next, k).taken
  {
    OpenGroupStep(env, lines, i, k);
    UnchosenKeepsEnv(env, lines, i, k);
    if Moves(lines, o, i) {
      ElifTestsMember(lines, o, i);
    }
  }

  /** The `#elif` of a simple chain tests a macro of the chain. */
  lemma ElifTestsMember(lines: seq<Line>, o: nat, i: nat)
    requires o < i < |lines| && Owns(lines, o, i) && SimpleChain(lines, o, i + 1) && !ElseSeen(lines, o, i + 1)
    ensures !lines[i].Else?
    ensures IsElif(lines[i]) ==> lines[i].ElifDefined? && lines[i].macro in MacrosOf(lines, o, i + 1)
  {
    if IsElif(lines[i]) {
      assert AddsMacro(lines, o, i);
      var macros := MacrosOf(lines, o, i + 1);
      assert macros[|macros| - 1] == lines[i].macro;
    }
  }

  lemma SimpleSooner(lines: seq<Line>, o: nat, n: nat, next: nat)
    requires o < n < |lines| && next == n + 1 && SimpleChain(lines, o, next) && !ElseSeen(lines, o, next)
    ensures SimpleChain(lines, o, n) && !ElseSeen(lines, o, n)
  {
  }

  lemma ChainFailsSooner(env: Env, lines: seq<Line>, o: nat, n: nat, next: nat)
    requires o < n < |lines| && next == n + 1 && ChainFails(env, lines, o, next)
    ensures ChainFails(env, lines, o, n)
  {
    MacrosGrow(lines, o, n, n + 1);
    var before, after := MacrosOf(lines, o, n), MacrosOf(lines, o, n + 1);
    forall m | m in before ensures m in after {
      var j :| 0 <= j < |before| && before[j] == m;
      assert after[j] == m;
    }
  }

  // ---- The comments a pass writes are true ----

  ghost predicate Holds(c: Claim, env: Env) {
    match c
    case IsDefined(m) => Defined(env, m)
    case NoneDefined(ms) => forall m <- ms :: !Defined(env, m)
  }

  /** In a well-nested file a chain is complete at its `#else`. */
  lemma {:induction false} MacrosFinalAtElse(lines: seq<Line>, o: nat, i: nat, n: nat)
    requires WellNested(lines) && o < i < n <= |lines| && lines[i].Else? && Owns(lines, o, i)
    ensures MacrosOf(lines, o, n) == MacrosOf(lines, o, i)
    decreases n
  {
    if n > i + 1 {
      MacrosFinalAtElse(lines, o, i, n - 1);
      assert NestedLine(lines, n - 1);
      assert ElseSeen(lines, o, n - 1);
    }
  }

  /** Without an `#elif`, the chain is the opener's macro alone. */
  lemma {:induction false} LoneMacro(lines: seq<Line>, o: nat, n: nat)
    requires o < n <= |lines| && lines[o].IfDefined? && !HasElif(lines, o, n)
    ensures MacrosOf(lines, o, n) == [lines[o].macro]
    decreases n
  {
    if n > o + 1 {
      LoneMacro(lines, o, n - 1);
    }
  }

  /** The claim the script puts on an `#else` is that the opener's condition and all chain macros failed. */
  lemma ElseClaimMeans(env: Env, lines: seq<Line>, o: nat, i: nat)
    requires WellNested(lines) && o < i < |lines| && lines[i].Else? && Owns(lines, o, i) && !lines[o].IfExpr?
    ensures Opens(lines[o]) && (lines[o].IfDefined? ==> MacrosOf(lines, o, |lines|) != [])
    ensures var claim := ElseClaim(lines[o], MacrosOf(lines, o, |lines|), HasElif(lines, o, i));
            Holds(claim, Run(env, lines, o).env) <==> ChainFails(env, lines, o, i)
  {
    if lines[o].IfDefined? {
      MacrosFinalAtElse(lines, o, i, |lines|);
      if !HasElif(lines, o, i) {
        LoneMacro(lines, o, i);
      }
    }
  }

  /** The comment written on an `#else` that stays one, in a chain without other conditions. */
  lemma ElseCommentWritten(lines: seq<Line>, o: nat, i: nat)
    requires i < |lines| && lines[i].Else? && Owner(lines, i) == Some(o) && !lines[o].IfExpr?
    requires !HasComplexElif(lines, o, i) && Pass(lines)[i].Else?
    ensures lines[o].IfDefined? ==> MacrosOf(lines, o, |lines|) != []
    ensures Pass(lines)[i].tail
            == Comment(Render(ElseClaim(lines[o], MacrosOf(lines, o, |lines|), HasElif(lines, o, i))))
  {
    assert Pass(lines)[i] == FixWith(RecordAt(lines, o, i), lines[i]);
  }

  /** A line falls through exactly when the innermost group is reachable and none was chosen. */
  lemma TopFallsThrough(env: Env, lines: seq<Line>, i: nat, k: nat)
    requires i <= |lines| && |Stack(lines, i)| == k + 1
    ensures var g := GroupAt(env, lines, i, k); FallsThrough(env, lines, i) <==> g.outer && !g.taken
  {
    RunDepth(env, lines, i);
  }

  /**
    The comment a pass puts on an `#else` (unless it turns the line, or the chain has other
    conditions) is true wherever that branch is included; in a conditional that tests only
    plain macros it is true exactly where the branch is included.
   */
  lemma ElseCommentIsTrue(env: Env, lines: seq<Line>, o: nat, i: nat)
    requires WellNested(lines) && i < |lines| && lines[i].Else? && Owner(lines, i) == Some(o) && !lines[o].IfExpr?
    requires !HasComplexElif(lines, o, i) && Pass(lines)[i].Else?
    ensures lines[o].IfDefined? ==> MacrosOf(lines, o, |lines|) != []
    ensures var claim := ElseClaim(lines[o], MacrosOf(lines, o, |lines|), HasElif(lines, o, i));
            && Pass(lines)[i].tail == Comment(Render(claim))
            && (FallsThrough(env, lines, i) ==> Holds(claim, Run(env, lines, i).env))
            && (SimpleChain(lines, o, i) && GroupAt(env, lines, i, |Stack(lines, i)| - 1).outer ==>
                  (FallsThrough(env, lines, i) <==> Holds(claim, Run(env, lines, o).env)))
  {
    assert NestedLine(lines, i);
    var k := |Stack(lines, i)| - 1;
    ElseClaimMeans(env, lines, o, i);
    ElseCommentWritten(lines, o, i);
    TopFallsThrough(env, lines, i, k);
    if FallsThrough(env, lines, i) {
      UnchosenChainFails(env, lines, i, k);
      UnchosenKeepsEnv(env, lines, i, k);
    } else if GroupAt(env, lines, i, k).outer && SimpleChain(lines, o, i) && ChainFails(env, lines, o, i) {
      FailingChainUnchosen(env, lines, i, k);
    }
  }

  // ---- When one of the two platforms is known ----

  /** One of the two platform macros is defined before line `i`. */
  predicate PlatformKnown(env: Env) {
    Defined(env, LINUX) || Defined(env, WINDOWS)
  }

  /** No line undefines a platform macro. */
  predicate KeepsPlatform(lines: seq<Line>) {
    forall i :: 0 <= i < |lines| ==> lines[i] != Undef(LINUX) && lines[i] != Undef(WINDOWS)
  }

  lemma {:induction false} PlatformStaysKnown(env: Env, lines: seq<Line>, i: nat)
    requires i <= |lines| && PlatformKnown(env) && KeepsPlatform(lines)
    ensures PlatformKnown(Run(env, lines, i).env)
  {
    if i > 0 {
      PlatformStaysKnown(env, lines, i - 1);
    }
  }

  /** On a known platform, every turned `#else` that would be included is the Windows branch. */
  lemma KnownPlatformCovers(env: Env, lines: seq<Line>)
    requires WellNested(lines) && PlatformKnown(env) && KeepsPlatform(lines)
    ensures Covered(env, lines, |lines|)
  {
    forall i | 0 <= i < |lines| ensures CoveredAt(env, lines, i) {
      if Turns(lines, i) && FallsThrough(env, lines, i) {
        assert NestedLine(lines, i);
        var o, k := Owner(lines, i).value, |Stack(lines, i)| - 1;
        MacrosFinalAtElse(lines, o, i, |lines|);
        GroupsFollowStack(env, lines, i);
        UnchosenChainFails(env, lines, i, k);
        UnchosenKeepsEnv(env, lines, i, k);
        PlatformStaysKnown(env, lines, i);
      }
    }
  }

  /** On a known platform a pass over a well-nested file selects the same lines. */
  lemma PassKeepsMeaningOnPlatforms(env: Env, lines: seq<Line>)
    requires WellNested(lines) && PlatformKnown(env) && KeepsPlatform(lines)
    ensures Select(env, Pass(lines)) == Select(env, lines)
  {
    KnownPlatformCovers(env, lines);
    CoveredIsKept(env, lines, |lines|);
    PassKeepsMeaning(env, lines);
  }

  /** A two-way platform branch whose fallback is marked as the Windows side. */
  function Fallback(): seq<Line> {
    [IfDefined(LINUX), Else("", "", Comment(WINDOWS)), Text("b"), Endif("", "", Bare)]
  }

  lemma FallbackIsTurned()
    ensures var after := Pass(Fallback());
            after[0] == IfDefined(LINUX) && after[1] == ElifDefined("", WINDOWS) && after[2] == Text("b")
              && after[3].Endif?
  {
    var file := Fallback();
    assert Stack(file, 0) == [] && Stack(file, 1) == [0];
    StackHoldsOpeners(file, 1, 0);
    LoneMacro(file, 0, 2);
    MacrosStep(file, 0, 2);
    MacrosStep(file, 0, 3);
    assert Fix(file, 1) == FixWith(RecordAt(file, 0, 1), file[1]);
    forall i | 0 <= i < 4 {
      PassKeepsOtherLines(file, i);
    }
  }

  lemma OpenerSkipped(env: Env, l: Line)
    requires l.IfDefined? && l.macro !in env.macros
    ensures Step(State(env, [], []), l) == State(env, [Group(true, false, false)], [])
  {
    var none: seq<Group> := [];
    assert none + [Group(true, false, false)] == [Group(true, false, false)];
  }

  lemma OtherBranch(env: Env, l: Line)
    requires l.Else? || (l.ElifDefined? && l.macro !in env.macros)
    ensures Step(State(env, [Group(true, false, false)], []), l) == State(env, [Group(true, l.Else?, l.Else?)], [])
  {
    assert [Group(true, false, false)][0 := Group(true, l.Else?, l.Else?)] == [Group(true, l.Else?, l.Else?)];
  }

  lemma BranchBody(env: Env, live: bool, l: Line)
    requires l.Text?
    ensures Step(State(env, [Group(true, live, live)], []), l)
            == State(env, [Group(true, live, live)], if live then [l] else [])
  {
    var none: seq<Line> := [];
    assert none + [l] == [l];
  }

  lemma BranchEnd(env: Env, g: Group, kept: seq<Line>, l: Line)
    requires l.Endif?
    ensures Step(State(env, [g], kept), l) == State(env, [], kept)
  {
    assert [g][..0] == [];
  }

  /** A two-way branch on an undefined macro keeps its second side exactly if that is an `#else`. */
  lemma BranchSelected(env: Env, macro: string, lines: seq<Line>)
    requires |lines| == 4 && lines[0] == IfDefined(macro) && macro !in env.macros && lines[2].Text? && lines[3].Endif?
    requires lines[1].Else? || (lines[1].ElifDefined? && lines[1].macro !in env.macros)
    ensures Select(env, lines) == if lines[1].Else? then [lines[2]] else []
  {
    var live := lines[1].Else?;
    var g, kept := Group(true, live, live), if live then [lines[2]] else [];
    OpenerSkipped(env, lines[0]);
    OtherBranch(env, lines[1]);
    BranchBody(env, live, lines[2]);
    BranchEnd(env, g, kept, lines[3]);
    RunFour(env, lines, State(env, [Group(true, false, false)], []), State(env, [g], []), State(env, [g], kept),
            State(env, [], kept));
  }

  /** On neither platform the rewrite drops the fallback branch. */
  lemma UnknownPlatformLosesFallback(truth: (string, set<string>) -> bool)
    ensures Select(Env({}, truth), Fallback()) == [Text("b")] && Select(Env({}, truth), Pass(Fallback())) == []
  {
    FallbackIsTurned();
    BranchSelected(Env({}, truth), LINUX, Fallback());
    BranchSelected(Env({}, truth), LINUX, Pass(Fallback()));
  }

  /** A run of four lines, state by state. */
  lemma RunFour(env: Env, lines: seq<Line>, s1: State, s2: State, s3: State, s4: State)
    requires |lines| == 4 && s1 == Step(State(env, [], []), lines[0]) && s2 == Step(s1, lines[1])
    requires s3 == Step(s2, lines[2]) && s4 == Step(s3, lines[3])
    ensures Select(env, lines) == s4.selected
  {
    assert Run(env, lines, 1) == s1;
    assert Run(env, lines, 2) == s2;
    assert Run(env, lines, 3) == s3;
  }
}
