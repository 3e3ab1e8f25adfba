/** access/path.c, one segment at a time: what each form of a path is answered, on every descriptor. */
module PathRules {
  import opened Types
  import opened Path

  /** The characters of a name, by their ASCII codes. */
  lemma NameCharacters(c: char)
    ensures IsNameStart(c) <==> 65 <= c as int <= 90 || c as int == 95 || 97 <= c as int <= 122
    ensures IsDigit(c) <==> 48 <= c as int <= 57
    ensures IsNameChar(c) <==> IsNameStart(c) || IsDigit(c)
  {
  }

  /** A name stands at `path[i..e]` and ends there. */
  predicate NameAt(path: string, i: nat, e: nat) {
    && i < e <= |path| && IsNameStart(path[i]) && (forall j :: i < j < e ==> IsNameChar(path[j]))
    && (e == |path| || !IsNameChar(path[e]))
  }

  /** It is the name of field `k`, and of no field before that one. */
  predicate NamesField(d: Descriptor, path: string, i: nat, e: nat, k: nat) {
    && NameAt(path, i, e) && k < |d.fields| && d.fields[k].name == path[i..e]
    && forall j :: 0 <= j < k ==> d.fields[j].name != path[i..e]
  }

  /** Digits stand at `path[i..m]` and end there. */
  predicate DigitsAt(path: string, i: nat, m: nat) {
    && i <= m <= |path| && (forall j :: i <= j < m ==> IsDigit(path[j])) && (m == |path| || !IsDigit(path[m]))
  }

  lemma {:induction false} FirstField(fields: seq<Field>, name: string, k: nat)
    requires k <= |fields| && forall j :: 0 <= j < k ==> fields[j].name != name
    requires k < |fields| ==> fields[k].name == name
    ensures FindField(fields, name) == if k < |fields| then Some(fields[k]) else None
  {
    if k > 0 {
      FirstField(fields[1..], name, k - 1);
    }
  }

  lemma RunsEnd(path: string, i: nat, e: nat)
    requires i <= |path|
    ensures NameAt(path, i, e) ==> NameEnd(path, i) == e
    ensures DigitsAt(path, i, e) ==> DigitsEnd(path, i) == e
  {
    var name, digits := NameEnd(path, i), DigitsEnd(path, i);
  }

  /** Where no name stands the path is malformed. */
  lemma NoName(d: Descriptor, base: nat, path: string, i: nat)
    requires i <= |path| && (i == |path| || !IsNameStart(path[i]))
    ensures Resolve(d, base, path, i) == Failed(InvalidArgument)
  {
  }

  /** A name that no field has is not found, whatever follows it. */
  lemma UnknownName(d: Descriptor, base: nat, path: string, i: nat, e: nat)
    requires NameAt(path, i, e) && forall j :: 0 <= j < |d.fields| ==> d.fields[j].name != path[i..e]
    ensures Resolve(d, base, path, i) == Failed(NotFound)
  {
    RunsEnd(path, i, e);
    FirstField(d.fields, path[i..e], |d.fields|);
  }

  /** A segment without an index leads to the field; from one structure a dot leads on, anything else is malformed. */
  lemma PlainSegment(d: Descriptor, base: nat, path: string, i: nat, e: nat, k: nat)
    requires NamesField(d, path, i, e, k) && (e == |path| || path[e] != '[')
    ensures var f := d.fields[k];
            Resolve(d, base, path, i)
            == if e == |path| then Resolved(Target(f, base + f.offset))
               else if path[e] == '.' && e + 1 < |path| && f.kind.StructKind? && f.elementCount <= 1 then
                 Resolve(f.kind.nested, base + f.offset, path, e + 1)
               else Failed(InvalidArgument)
  {
    RunsEnd(path, i, e);
    FirstField(d.fields, path[i..e], k);
    assert Resolve(d, base, path, i) == SelectAt(d.fields[k], base, path, e);
    assert IndexAt(path, e) == NoIndex;
    assert SelectAt(d.fields[k], base, path, e) == ResolveRest(d.fields[k], base + d.fields[k].offset, false, path, e);
  }

  lemma BracketRead(path: string, i: nat, m: nat)
    requires i < |path| && path[i] == '[' && DigitsAt(path, i + 1, m)
    ensures var v := DecimalValue(path[i + 1..m]);
            IndexAt(path, i)
            == if m == i + 1 then BadIndex(InvalidArgument)
               else if v > SIZE_MAX then BadIndex(OutOfRange)
               else if m == |path| || path[m] != ']' then BadIndex(InvalidArgument)
               else Index(v, m + 1)
  {
    RunsEnd(path, i + 1, m);
  }

  lemma IndexSelects(f: Field, base: nat, path: string, i: nat, v: nat, next: nat)
    requires i < next <= |path| && IndexAt(path, i) == Index(v, next)
    ensures SelectAt(f, base, path, i)
            == if f.kind.CharArrayKind? || v >= f.elementCount then Failed(OutOfRange)
               else ResolveRest(f, base + f.offset + v * f.elementSize, true, path, next)
  {
  }

  lemma BracketSelects(f: Field, base: nat, path: string, i: nat, m: nat, v: nat)
    requires i < |path| && path[i] == '[' && DigitsAt(path, i + 1, m) && v == DecimalValue(path[i + 1..m])
    ensures SelectAt(f, base, path, i)
            == if m == i + 1 then Failed(InvalidArgument)
               else if v > SIZE_MAX then Failed(OutOfRange)
               else if m == |path| || path[m] != ']' then Failed(InvalidArgument)
               else if f.kind.CharArrayKind? || v >= f.elementCount then Failed(OutOfRange)
               else ResolveRest(f, base + f.offset + v * f.elementSize, true, path, m + 1)
  {
    BracketRead(path, i, m);
    if IndexAt(path, i) == Index(v, m + 1) {
      IndexSelects(f, base, path, i, v, m + 1);
    }
  }

  /**
    A segment with a bracket: digits must follow, denote a `size_t`, be closed, and index an
    element of a field that is no char array; from an indexed structure a dot leads on.
   */
  lemma IndexedSegment(d: Descriptor, base: nat, path: string, i: nat, e: nat, k: nat, m: nat)
    requires NamesField(d, path, i, e, k) && e < |path| && path[e] == '[' && DigitsAt(path, e + 1, m)
    ensures var f := d.fields[k];
            var v := DecimalValue(path[e + 1..m]);
            Resolve(d, base, path, i)
            == if m == e + 1 then Failed(InvalidArgument)
               else if v > SIZE_MAX then Failed(OutOfRange)
               else if m == |path| || path[m] != ']' then Failed(InvalidArgument)
               else if f.kind.CharArrayKind? || v >= f.elementCount then Failed(OutOfRange)
               else if m + 1 == |path| then Resolved(Target(f, base + f.offset + v * f.elementSize))
               else if path[m + 1] == '.' && m + 2 < |path| && f.kind.StructKind? then
                 Resolve(f.kind.nested, base + f.offset + v * f.elementSize, path, m + 2)
               else Failed(InvalidArgument)
  {
    RunsEnd(path, i, e);
    FirstField(d.fields, path[i..e], k);
    BracketSelects(d.fields[k], base, path, e, m, DecimalValue(path[e + 1..m]));
  }
}
