/**
  When the emission pass comes to an end, and the order it then has. The condition is
  stated on the header itself: no chain of by-value members returns to where it started.
 */
module EmitOrder {
  import opened Types
  import opened Emit

  // ---- Containment ----

  /** Member `k` of struct `i` has the struct type `j`. */
  predicate ContainsAt(list: Ast, i: nat, k: nat, j: nat)
    requires i < |list| && k < |list[i].fields|
  {
    list[i].fields[k].isStruct && Find(list, list[i].fields[k].typeName) == Some(j)
  }

  /** Struct `i` has a member of struct type `j`. */
  ghost predicate Contains(list: Ast, i: nat, j: nat)
    requires i < |list|
  {
    exists k :: 0 <= k < |list[i].fields| && ContainsAt(list, i, k, j)
  }

  /** Each entry contains the next one. */
  ghost predicate Chain(list: Ast, w: seq<nat>) {
    && w != [] && (forall p :: 0 <= p < |w| ==> w[p] < |list|)
    && forall p :: 0 <= p < |w| - 1 ==> Contains(list, w[p], w[p + 1])
  }

  /** No struct contains itself, directly or through others. */
  ghost predicate NoCycle(list: Ast) {
    forall w :: Chain(list, w) && |w| > 1 ==> w[0] != w[|w| - 1]
  }

  ghost predicate Reaches(list: Ast, i: nat, j: nat) {
    exists w :: Chain(list, w) && w[0] == i && w[|w| - 1] == j
  }

  predicate DistinctNames(list: Ast) {
    forall i, j :: 0 <= i < j < |list| ==> list[i].name != list[j].name
  }

  /** Every struct-typed member names a struct of the header. */
  predicate Resolvable(list: Ast) {
    forall i, k :: 0 <= i < |list| && 0 <= k < |list[i].fields| && list[i].fields[k].isStruct ==>
      Find(list, list[i].fields[k].typeName).Some?
  }

  lemma ChainPrepend(list: Ast, i: nat, w: seq<nat>)
    requires i < |list| && Chain(list, w) && Contains(list, i, w[0])
    ensures Chain(list, [i] + w)
  {
    var v := [i] + w;
    forall p | 0 <= p < |v| - 1 ensures Contains(list, v[p], v[p + 1]) {
      if p > 0 {
        assert Contains(list, w[p - 1], w[p]);
      }
    }
  }

  lemma SliceIsChain(list: Ast, w: seq<nat>, i: nat, j: nat)
    requires Chain(list, w) && i < j <= |w|
    ensures Chain(list, w[i..j])
  {
    var v := w[i..j];
    forall p | 0 <= p < |v| - 1 ensures Contains(list, v[p], v[p + 1]) {
      assert Contains(list, w[i + p], w[i + p + 1]);
    }
  }

  lemma ReachesThrough(list: Ast, i: nat, j: nat, t: nat)
    requires i < |list| && Contains(list, i, j) && Reaches(list, j, t)
    ensures Reaches(list, i, t)
    ensures i == t ==> !NoCycle(list)
  {
    var w :| Chain(list, w) && w[0] == j && w[|w| - 1] == t;
    ChainPrepend(list, i, w);
    var v := [i] + w;
    assert v[0] == i && v[|v| - 1] == t;
  }

  // ---- What a finished emission has written ----

  /** Everything a written struct contains was written before it. */
  ghost predicate AfterMembers(list: Ast, out: Order)
    requires InList(list, out)
  {
    forall p, j {:trigger Contains(list, out[p], j)} ::
      0 <= p < |out| && 0 <= j < |list| && Contains(list, out[p], j) ==> j in out[..p]
  }

  /** No struct twice, and each after everything it contains. */
  ghost predicate Topological(list: Ast, out: Order)
    requires InList(list, out)
  {
    Distinct(out) && AfterMembers(list, out)
  }

  lemma EmittedByName(list: Ast, out: Order, i: nat)
    requires DistinctNames(list) && InList(list, out) && i < |list|
    ensures IsEmitted(list, out, list[i].name) <==> i in out
  {
    if i in out {
      var p :| 0 <= p < |out| && out[p] == i;
      assert list[out[p]].name == list[i].name;
    }
  }

  lemma StillThere(before: Order, after: Order)
    requires before <= after
    ensures forall j :: j in before ==> j in after
  {
    forall j | j in before ensures j in after {
      var p :| 0 <= p < |before| && before[p] == j;
      assert after[p] == j;
    }
  }

  lemma MembersBefore(list: Ast, before: Order, i: nat)
    requires i < |list| && InList(list, before) && AfterMembers(list, before)
    requires forall j :: 0 <= j < |list| && Contains(list, i, j) ==> j in before
    ensures AfterMembers(list, before + [i])
  {
    var after := before + [i];
    forall p, j | 0 <= p < |after| && 0 <= j < |list| && Contains(list, after[p], j) ensures j in after[..p] {
      assert after[..|before|] == before;
      if p < |before| {
        assert after[..p] == before[..p];
      }
    }
  }

  /** A call that comes to an end has written the struct, and everything after what it contains. */
  lemma {:induction false} FinishedStruct(list: Ast, depth: nat, i: nat, out: Order)
    requires DistinctNames(list) && i < |list| && InList(list, out) && AfterMembers(list, out)
    requires EmitStruct(list, depth, i, out).Finished?
    ensures var after := EmitStruct(list, depth, i, out).out;
            out <= after && AfterMembers(list, after) && i in after
    decreases depth, 1
  {
    EmittedByName(list, out, i);
    if i !in out {
      FinishedMembers(list, depth - 1, i, out, |list[i].fields|);
      MembersBefore(list, EmitMembers(list, depth - 1, i, out, |list[i].fields|).out, i);
    }
  }

  lemma {:induction false} FinishedMembers(list: Ast, depth: nat, i: nat, out: Order, n: nat)
    requires DistinctNames(list) && i < |list| && n <= |list[i].fields| && InList(list, out) && AfterMembers(list, out)
    requires EmitMembers(list, depth, i, out, n).Finished?
    ensures var after := EmitMembers(list, depth, i, out, n).out;
            && out <= after && AfterMembers(list, after)
            && forall k, j {:trigger ContainsAt(list, i, k, j)} ::
                 0 <= k < n && 0 <= j < |list| && ContainsAt(list, i, k, j) ==> j in after
    decreases depth, 2, n
  {
    if n > 0 {
      FinishedMembers(list, depth, i, out, n - 1);
      var before := EmitMembers(list, depth, i, out, n - 1).out;
      var f := list[i].fields[n - 1];
      if f.isStruct {
        FinishedStruct(list, depth, Find(list, f.typeName).value, before);
        StillThere(before, EmitMembers(list, depth, i, out, n).out);
      }
    }
  }

  lemma {:induction false} FinishedHeader(list: Ast, depth: nat, n: nat)
    requires DistinctNames(list) && n <= |list| && EmitAll(list, depth, n).Finished?
    ensures var order := EmitAll(list, depth, n).out;
            AfterMembers(list, order) && forall i :: 0 <= i < n ==> i in order
    decreases n
  {
    if n > 0 {
      FinishedHeader(list, depth, n - 1);
      var before := EmitAll(list, depth, n - 1).out;
      assert EmitAll(list, depth, n) == EmitStruct(list, depth, n - 1, before);
      FinishedStruct(list, depth, n - 1, before);
      StillThere(before, EmitStruct(list, depth, n - 1, before).out);
    }
  }

  // ---- A finished emission shows that nothing contains itself ----

  /** The place where `j` was first written. */
  function FirstPlace(out: Order, j: nat): (p: nat)
    requires j in out
    ensures p < |out| && out[p] == j && forall q :: 0 <= q < p ==> out[q] != j
  {
    if out[0] == j then 0
    else
      var p := FirstPlace(out[1..], j);
      assert forall q :: 0 < q < p + 1 ==> out[1..][q - 1] == out[q];
      p + 1
  }

  lemma {:induction false} PlacesGoDown(list: Ast, order: Order, w: seq<nat>)
    requires InList(list, order) && AfterMembers(list, order) && (forall i :: 0 <= i < |list| ==> i in order)
    requires Chain(list, w) && |w| > 1
    ensures FirstPlace(order, w[|w| - 1]) < FirstPlace(order, w[0])
    decreases |w|
  {
    var p := FirstPlace(order, w[0]);
    assert Contains(list, order[p], w[1]);
    var q :| 0 <= q < p && order[..p][q] == w[1];
    assert FirstPlace(order, w[1]) <= q;
    if |w| > 2 {
      SliceIsChain(list, w, 1, |w|);
      assert w[1..|w|] == w[1..];
      PlacesGoDown(list, order, w[1..]);
    }
  }

  // ---- Without a cycle the emission comes to an end ----

  /** A call that is not over at a depth has gone down a chain of that many structs. */
  lemma {:induction false} RunningStruct(list: Ast, depth: nat, i: nat, out: Order) returns (w: seq<nat>)
    requires i < |list| && InList(list, out) && EmitStruct(list, depth, i, out).StillRunning?
    ensures Chain(list, w) && w[0] == i && |w| == depth + 1
    decreases depth, 1
  {
    if depth == 0 {
      w := [i];
    } else {
      var rest := RunningMember(list, depth - 1, i, out, |list[i].fields|);
      ChainPrepend(list, i, rest);
      w := [i] + rest;
    }
  }

  lemma {:induction false} RunningMember(list: Ast, depth: nat, i: nat, out: Order, n: nat) returns (w: seq<nat>)
    requires i < |list| && n <= |list[i].fields| && InList(list, out)
             && EmitMembers(list, depth, i, out, n).StillRunning?
    ensures Chain(list, w) && Contains(list, i, w[0]) && |w| == depth + 1
    decreases depth, 2, n
  {
    if EmitMembers(list, depth, i, out, n - 1).StillRunning? {
      w := RunningMember(list, depth, i, out, n - 1);
    } else {
      var j := Find(list, list[i].fields[n - 1].typeName).value;
      assert ContainsAt(list, i, n - 1, j);
      w := RunningStruct(list, depth, j, EmitMembers(list, depth, i, out, n - 1).out);
    }
  }

  /** A chain longer than the header repeats a struct. */
  lemma LongChainCycles(list: Ast, w: seq<nat>)
    requires Chain(list, w) && |w| > |list|
    ensures !NoCycle(list)
  {
    if Distinct(w) {
      DistinctBound(w, |list|);
    } else {
      var i, j :| 0 <= i < j < |w| && w[i] == w[j];
      SliceIsChain(list, w, i, j + 1);
      var v := w[i..j + 1];
      assert v[0] == v[|v| - 1];
    }
  }

  /** Without a cycle no call is ever deeper than the number of structs. */
  lemma {:induction false} HeaderEnds(list: Ast, n: nat)
    requires NoCycle(list) && n <= |list|
    ensures !EmitAll(list, |list|, n).StillRunning?
    decreases n
  {
    if n > 0 {
      HeaderEnds(list, n - 1);
      if EmitAll(list, |list|, n).StillRunning? {
        var w := RunningStruct(list, |list|, n - 1, EmitAll(list, |list|, n - 1).out);
        LongChainCycles(list, w);
      }
    }
  }

  lemma {:induction false} MembersKnown(list: Ast, depth: nat, i: nat, out: Order, n: nat)
    requires Resolvable(list) && i < |list| && n <= |list[i].fields| && InList(list, out)
    ensures !EmitMembers(list, depth, i, out, n).UnknownType?
    decreases depth, 2, n
  {
    if n > 0 {
      MembersKnown(list, depth, i, out, n - 1);
      var before, f := EmitMembers(list, depth, i, out, n - 1), list[i].fields[n - 1];
      if before.Finished? && f.isStruct {
        StructKnown(list, depth, Find(list, f.typeName).value, before.out);
      }
    }
  }

  lemma {:induction false} StructKnown(list: Ast, depth: nat, i: nat, out: Order)
    requires Resolvable(list) && i < |list| && InList(list, out)
    ensures !EmitStruct(list, depth, i, out).UnknownType?
    decreases depth, 1
  {
    if depth > 0 {
      MembersKnown(list, depth - 1, i, out, |list[i].fields|);
    }
  }

  lemma {:induction false} HeaderKnown(list: Ast, depth: nat, n: nat)
    requires Resolvable(list) && n <= |list|
    ensures !EmitAll(list, depth, n).UnknownType?
    decreases n
  {
    if n > 0 {
      HeaderKnown(list, depth, n - 1);
      if EmitAll(list, depth, n - 1).Finished? {
        StructKnown(list, depth, n - 1, EmitAll(list, depth, n - 1).out);
      }
    }
  }

  /** With enough room for its nested calls, the emission comes to an end. */
  ghost predicate Terminates(list: Ast) {
    exists depth :: !EmitAll(list, depth, |list|).StillRunning?
  }

  /**
    For a header with distinct names and known types, emission comes to an end exactly when no
    struct contains itself.
   */
  lemma TerminatesIffNoCycle(list: Ast)
    requires DistinctNames(list) && Resolvable(list)
    ensures Terminates(list) <==> NoCycle(list)
  {
    if depth :| !EmitAll(list, depth, |list|).StillRunning? {
      HeaderKnown(list, depth, |list|);
      FinishedHeader(list, depth, |list|);
      forall w | Chain(list, w) && |w| > 1 ensures w[0] != w[|w| - 1] {
        PlacesGoDown(list, EmitAll(list, depth, |list|).out, w);
      }
    }
    if NoCycle(list) {
      HeaderEnds(list, |list|);
    }
  }

  /** A struct with a member of its own type. */
  function SelfContaining(): Ast {
    [AstStruct("node", [AstField("next", "node", true, 0, None, false, false)])]
  }

  lemma SelfContainingNeverEnds()
    ensures DistinctNames(SelfContaining()) && Resolvable(SelfContaining()) && !Terminates(SelfContaining())
  {
    var list := SelfContaining();
    assert Find(list, "node") == Some(0) && ContainsAt(list, 0, 0, 0);
    var w := [0, 0];
    assert Chain(list, w) && w[0] == w[|w| - 1];
    TerminatesIffNoCycle(list);
  }

  // More room never changes the result.

  lemma {:induction false} StructDeeper(list: Ast, depth: nat, more: nat, i: nat, out: Order)
    requires i < |list| && InList(list, out) && depth <= more && !EmitStruct(list, depth, i, out).StillRunning?
    ensures EmitStruct(list, more, i, out) == EmitStruct(list, depth, i, out)
    decreases depth, 1
  {
    if !IsEmitted(list, out, list[i].name) {
      MembersDeeper(list, depth - 1, more - 1, i, out, |list[i].fields|);
    }
  }

  lemma {:induction false} MembersDeeper(list: Ast, depth: nat, more: nat, i: nat, out: Order, n: nat)
    requires i < |list| && n <= |list[i].fields| && InList(list, out) && depth <= more
    requires !EmitMembers(list, depth, i, out, n).StillRunning?
    ensures EmitMembers(list, more, i, out, n) == EmitMembers(list, depth, i, out, n)
    decreases depth, 2, n
  {
    if n > 0 {
      MembersDeeper(list, depth, more, i, out, n - 1);
      var before, f := EmitMembers(list, depth, i, out, n - 1), list[i].fields[n - 1];
      if before.Finished? && f.isStruct && Find(list, f.typeName).Some? {
        StructDeeper(list, depth, more, Find(list, f.typeName).value, before.out);
      }
    }
  }

  /** An emission that comes to an end does so in the same way at every greater depth. */
  lemma {:induction false} HeaderDeeper(list: Ast, depth: nat, more: nat, n: nat)
    requires n <= |list| && depth <= more && !EmitAll(list, depth, n).StillRunning?
    ensures EmitAll(list, more, n) == EmitAll(list, depth, n)
    decreases n
  {
    if n > 0 {
      HeaderDeeper(list, depth, more, n - 1);
      if EmitAll(list, depth, n - 1).Finished? {
        StructDeeper(list, depth, more, n - 1, EmitAll(list, depth, n - 1).out);
      }
    }
  }

  // ---- The order is topological ----

  /** A call writes nothing it does not reach. */
  lemma {:induction false} StructAvoids(list: Ast, depth: nat, i: nat, out: Order, t: nat)
    requires i < |list| && InList(list, out) && EmitStruct(list, depth, i, out).Finished?
    requires t !in out && !Reaches(list, i, t)
    ensures t !in EmitStruct(list, depth, i, out).out
    decreases depth, 1
  {
    if !IsEmitted(list, out, list[i].name) {
      forall j | 0 <= j < |list| && Contains(list, i, j) ensures !Reaches(list, j, t) {
        if Reaches(list, j, t) {
          ReachesThrough(list, i, j, t);
        }
      }
      MembersAvoid(list, depth - 1, i, out, |list[i].fields|, t);
      var here := [i];
      assert Chain(list, here) && here[|here| - 1] == i;
    }
  }

  lemma {:induction false} MembersAvoid(list: Ast, depth: nat, i: nat, out: Order, n: nat, t: nat)
    requires i < |list| && n <= |list[i].fields| && InList(list, out) && EmitMembers(list, depth, i, out, n).Finished?
    requires t !in out && forall j :: 0 <= j < |list| && Contains(list, i, j) ==> !Reaches(list, j, t)
    ensures t !in EmitMembers(list, depth, i, out, n).out
    decreases depth, 2, n
  {
    if n > 0 {
      MembersAvoid(list, depth, i, out, n - 1, t);
      var f := list[i].fields[n - 1];
      if f.isStruct {
        var j := Find(list, f.typeName).value;
        assert ContainsAt(list, i, n - 1, j);
        StructAvoids(list, depth, j, EmitMembers(list, depth, i, out, n - 1).out, t);
      }
    }
  }

  /** The members of a struct never write the struct itself. */
  lemma OwnMembersAvoid(list: Ast, depth: nat, i: nat, out: Order)
    requires NoCycle(list) && i < |list| && InList(list, out) && i !in out
    requires EmitMembers(list, depth, i, out, |list[i].fields|).Finished?
    ensures i !in EmitMembers(list, depth, i, out, |list[i].fields|).out
  {
    forall j | 0 <= j < |list| && Contains(list, i, j) ensures !Reaches(list, j, i) {
      if Reaches(list, j, i) {
        ReachesThrough(list, i, j, i);
      }
    }
    MembersAvoid(list, depth, i, out, |list[i].fields|, i);
  }

  lemma {:induction false} DistinctStruct(list: Ast, depth: nat, i: nat, out: Order)
    requires NoCycle(list) && DistinctNames(list) && i < |list| && InList(list, out) && Distinct(out)
    requires EmitStruct(list, depth, i, out).Finished?
    ensures Distinct(EmitStruct(list, depth, i, out).out)
    decreases depth, 1
  {
    EmittedByName(list, out, i);
    if i !in out {
      DistinctMembers(list, depth - 1, i, out, |list[i].fields|);
      OwnMembersAvoid(list, depth - 1, i, out);
    }
  }

  lemma {:induction false} DistinctMembers(list: Ast, depth: nat, i: nat, out: Order, n: nat)
    requires NoCycle(list) && DistinctNames(list) && i < |list| && n <= |list[i].fields|
    requires InList(list, out) && Distinct(out) && EmitMembers(list, depth, i, out, n).Finished?
    ensures Distinct(EmitMembers(list, depth, i, out, n).out)
    decreases depth, 2, n
  {
    if n > 0 {
      DistinctMembers(list, depth, i, out, n - 1);
      var f := list[i].fields[n - 1];
      if f.isStruct {
        DistinctStruct(list, depth, Find(list, f.typeName).value, EmitMembers(list, depth, i, out, n - 1).out);
      }
    }
  }

  lemma {:induction false} DistinctHeader(list: Ast, depth: nat, n: nat)
    requires NoCycle(list) && DistinctNames(list) && n <= |list| && EmitAll(list, depth, n).Finished?
    ensures Distinct(EmitAll(list, depth, n).out)
    decreases n
  {
    if n > 0 {
      DistinctHeader(list, depth, n - 1);
      DistinctStruct(list, depth, n - 1, EmitAll(list, depth, n - 1).out);
    }
  }

  /** The order in which a header is written. */
  function EmissionOrder(list: Ast): (order: Order)
    requires NoCycle(list) && Resolvable(list)
    ensures EmitAll(list, |list|, |list|) == Finished(order) && InList(list, order)
  {
    HeaderEnds(list, |list|);
    HeaderKnown(list, |list|, |list|);
    EmitAll(list, |list|, |list|).out
  }

  /** The whole header is written, each struct exactly once and after all structs it contains. */
  lemma EmissionIsTopological(list: Ast)
    requires NoCycle(list) && DistinctNames(list) && Resolvable(list)
    ensures Topological(list, EmissionOrder(list)) && |EmissionOrder(list)| == |list|
    ensures forall i :: 0 <= i < |list| ==> i in EmissionOrder(list)
  {
    var order := EmissionOrder(list);
    FinishedHeader(list, |list|, |list|);
    DistinctHeader(list, |list|, |list|);
    DistinctBound(order, |list|);
    var places := seq(|list|, i requires 0 <= i < |list| => FirstPlace(order, i));
    forall i, j | 0 <= i < j < |places| ensures places[i] != places[j] {
      assert order[places[i]] == i && order[places[j]] == j;
    }
    DistinctBound(places, |order|);
  }

  // ---- Declaration order ----

  /** Every struct is declared before it is used. */
  predicate DeclaredBeforeUse(list: Ast) {
    forall i, k :: 0 <= i < |list| && 0 <= k < |list[i].fields| && list[i].fields[k].isStruct ==>
      Find(list, list[i].fields[k].typeName).Some? && Find(list, list[i].fields[k].typeName).value < i
  }

  function Declared(n: nat): Order {
    seq(n, i => i)
  }

  /** Declared before use, the header needs no nested call and is written in declaration order. */
  lemma {:induction false} DeclarationOrderKept(list: Ast, depth: nat, n: nat)
    requires DistinctNames(list) && DeclaredBeforeUse(list) && n <= |list| && depth > 0
    ensures EmitAll(list, depth, n) == Finished(Declared(n))
  {
    if n > 0 {
      DeclarationOrderKept(list, depth, n - 1);
      EmittedByName(list, Declared(n - 1), n - 1);
      NothingToEmit(list, depth - 1, n - 1, |list[n - 1].fields|);
      assert EmitStruct(list, depth, n - 1, Declared(n - 1)) == Finished(Declared(n - 1) + [n - 1]);
      assert Declared(n) == Declared(n - 1) + [n - 1];
    }
  }

  lemma {:induction false} NothingToEmit(list: Ast, depth: nat, i: nat, n: nat)
    requires DistinctNames(list) && DeclaredBeforeUse(list) && i < |list| && n <= |list[i].fields|
    ensures EmitMembers(list, depth, i, Declared(i), n) == Finished(Declared(i))
    decreases n
  {
    if n > 0 {
      NothingToEmit(list, depth, i, n - 1);
      var f := list[i].fields[n - 1];
      if f.isStruct {
        var j := Find(list, f.typeName).value;
        EmittedByName(list, Declared(i), j);
        assert Declared(i)[j] == j;
        assert EmitStruct(list, depth, j, Declared(i)) == Finished(Declared(i));
      }
    }
  }

  lemma {:induction false} DeclaredChainGoesDown(list: Ast, w: seq<nat>, p: nat)
    requires DeclaredBeforeUse(list) && Chain(list, w) && 0 < p < |w|
    ensures w[p] < w[0]
    decreases p
  {
    assert Contains(list, w[p - 1], w[p]);
    if p > 1 {
      DeclaredChainGoesDown(list, w, p - 1);
    }
  }

  /** A header that is declared before use has no containment cycle. */
  lemma DeclaredBeforeUseHasNoCycle(list: Ast)
    requires DeclaredBeforeUse(list)
    ensures NoCycle(list)
  {
    forall w | Chain(list, w) && |w| > 1 ensures w[0] != w[|w| - 1] {
      DeclaredChainGoesDown(list, w, |w| - 1);
    }
  }
}
