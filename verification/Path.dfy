/**
  access/path.c: the resolution of paths such as `addresses[0].city`. A path is
  a string without NUL; its end is where C reads the terminator.
 */
module Path {
  import opened Types

  // ---- Characters of the C locale ----

  predicate IsAlpha(c: char) {
    'a' <= c <= 'z' || 'A' <= c <= 'Z'
  }

  predicate IsDigit(c: char) {
    '0' <= c <= '9'
  }

  predicate IsNameStart(c: char) {
    IsAlpha(c) || c == '_'
  }

  predicate IsNameChar(c: char) {
    IsAlpha(c) || IsDigit(c) || c == '_'
  }

  predicate IsIdentifier(s: string) {
    s != "" && IsNameStart(s[0]) && forall i :: 0 <= i < |s| ==> IsNameChar(s[i])
  }

  function Digit(c: char): int
    requires IsDigit(c)
  {
    c as int - '0' as int
  }

  // ---- The grammar of paths ----

  /** Where the run of name characters starting at `i` ends. */
  function NameEnd(path: string, i: nat): (e: nat)
    requires i <= |path|
    ensures i <= e <= |path|
    ensures forall j :: i <= j < e ==> IsNameChar(path[j])
    ensures e < |path| ==> !IsNameChar(path[e])
    decreases |path| - i
  {
    if i < |path| && IsNameChar(path[i]) then NameEnd(path, i + 1) else i
  }

  /** Where the run of digits starting at `i` ends. */
  function DigitsEnd(path: string, i: nat): (e: nat)
    requires i <= |path|
    ensures i <= e <= |path|
    ensures forall j :: i <= j < e ==> IsDigit(path[j])
    ensures e < |path| ==> !IsDigit(path[e])
    decreases |path| - i
  {
    if i < |path| && IsDigit(path[i]) then DigitsEnd(path, i + 1) else i
  }

  /** The number a digit string denotes, most significant digit first. */
  function DecimalValue(s: string): nat
    requires forall i :: 0 <= i < |s| ==> IsDigit(s[i])
  {
    if s == "" then 0 else DecimalValue(s[..|s| - 1]) * 10 + Digit(s[|s| - 1])
  }

  /** What is found where an index may stand. */
  datatype IndexResult = NoIndex | Index(value: nat, next: nat) | BadIndex(status: Status)

  function IndexAt(path: string, i: nat): (r: IndexResult)
    requires i <= |path|
    ensures r.Index? ==> i + 2 < r.next <= |path| && path[i] == '[' && path[r.next - 1] == ']' && r.value <= SIZE_MAX
    ensures r.Index? ==>
              (forall j :: i < j < r.next - 1 ==> IsDigit(path[j])) && r.value == DecimalValue(path[i + 1..r.next - 1])
    ensures r.BadIndex? ==> r.status == InvalidArgument || r.status == OutOfRange
  {
    if i == |path| || path[i] != '[' then NoIndex
    else
      var e := DigitsEnd(path, i + 1);
      if e == i + 1 then BadIndex(InvalidArgument)
      else if DecimalValue(path[i + 1..e]) > SIZE_MAX then BadIndex(OutOfRange)
      else if e < |path| && path[e] == ']' then Index(DecimalValue(path[i + 1..e]), e + 1)
      else BadIndex(InvalidArgument)
  }

  datatype Segment = Segment(name: string, index: Option<nat>)

  /** First stage: read `path` from position `i` as a list of segments. */
  function Parse(path: string, i: nat): (r: Option<seq<Segment>>)
    requires i <= |path|
    ensures r.Some? ==> r.value != []
    decreases |path| - i
  {
    if i == |path| || !IsNameStart(path[i]) then None
    else
      var e := NameEnd(path, i);
      match IndexAt(path, e)
      case BadIndex(_) => None
      case NoIndex => ParseRest(path, e, Segment(path[i..e], None))
      case Index(v, next) => ParseRest(path, next, Segment(path[i..e], Some(v)))
  }

  /** After a segment the path ends, or a dot introduces the next one. */
  function ParseRest(path: string, i: nat, segment: Segment): (r: Option<seq<Segment>>)
    requires i <= |path|
    ensures r.Some? ==> r.value != [] && r.value[0] == segment
    decreases |path| - i
  {
    if i == |path| then Some([segment])
    else if path[i] != '.' || i + 1 == |path| then None
    else
      match Parse(path, i + 1)
      case None => None
      case Some(rest) => Some([segment] + rest)
  }

  // ---- Walking the descriptors ----

  /** A resolved path: its final field and the address it denotes. */
  datatype Target = Target(field: Field, address: nat)

  function FindField(fields: seq<Field>, name: string): (r: Option<Field>)
    ensures r.Some? ==> r.value in fields && r.value.name == name
  {
    if fields == [] then None
    else if fields[0].name == name then Some(fields[0])
    else FindField(fields[1..], name)
  }

  /** The address one segment selects, if its index is allowed there. */
  function SegmentAddress(f: Field, base: nat, index: Option<nat>): Option<nat> {
    match index
    case None => Some(base + f.offset)
    case Some(i) =>
      if f.kind.CharArrayKind? || i >= f.elementCount then None else Some(base + ElementOffset(f, i))
  }

  /** A further segment may follow: the field is one structure. */
  predicate Descends(f: Field, hasIndex: bool) {
    f.kind.StructKind? && (f.elementCount <= 1 || hasIndex)
  }

  /** Second stage: follow the segments from an instance of `d` at `base`. */
  function WalkSegments(d: Descriptor, base: nat, segments: seq<Segment>): Option<Target>
    decreases |segments|, 1
  {
    if segments == [] then None
    else
      match FindField(d.fields, segments[0].name)
      case None => None
      case Some(f) =>
        match SegmentAddress(f, base, segments[0].index)
        case None => None
        case Some(a) =>
          WalkRest(f, a, segments[0].index.Some?, segments[1..])
  }

  function WalkRest(f: Field, address: nat, hasIndex: bool, rest: seq<Segment>): Option<Target>
    decreases |rest|, 2
  {
    if rest == [] then Some(Target(f, address))
    else if Descends(f, hasIndex) then WalkSegments(f.kind.nested, address, rest)
    else None
  }

  // ---- Resolution, with its error codes ----

  datatype Resolution = Resolved(target: Target) | Failed(status: Status)

  /** What `resolve_path` answers from position `i`, standing at an instance of `d` at `base`. */
  function Resolve(d: Descriptor, base: nat, path: string, i: nat): Resolution
    requires i <= |path|
    decreases |path| - i, 2
  {
    if i == |path| || !IsNameStart(path[i]) then Failed(InvalidArgument)
    else
      var e := NameEnd(path, i);
      match FindField(d.fields, path[i..e])
      case None => Failed(NotFound)
      case Some(f) =>
        SelectAt(f, base, path, e)
  }

  /** What one segment's field and optional index lead to. */
  function SelectAt(f: Field, base: nat, path: string, i: nat): Resolution
    requires i <= |path|
    decreases |path| - i, 1
  {
    match IndexAt(path, i)
    case BadIndex(status) => Failed(status)
    case NoIndex => ResolveRest(f, base + f.offset, false, path, i)
    case Index(v, next) =>
      match SegmentAddress(f, base, Some(v))
      case None => Failed(OutOfRange)
      case Some(a) => ResolveRest(f, a, true, path, next)
  }

  function ResolveRest(f: Field, address: nat, hasIndex: bool, path: string, i: nat): Resolution
    requires i <= |path|
    decreases |path| - i, 0
  {
    if i == |path| then Resolved(Target(f, address))
    else if path[i] != '.' || !Descends(f, hasIndex) || i + 1 == |path| then Failed(InvalidArgument)
    else Resolve(f.kind.nested, address, path, i + 1)
  }

  function Answer(r: Resolution): Option<Target> {
    if r.Resolved? then Some(r.target) else None
  }

  /** The two stages one after the other. */
  function ParseThenWalk(d: Descriptor, base: nat, path: string, i: nat): Option<Target>
    requires i <= |path|
  {
    match Parse(path, i)
    case None => None
    case Some(segments) => WalkSegments(d, base, segments)
  }

  /** Resolution succeeds exactly when both stages do, and then finds the same target. */
  lemma {:induction false} ResolveIsParseThenWalk(d: Descriptor, base: nat, path: string, i: nat)
    requires i <= |path|
    ensures Answer(Resolve(d, base, path, i)) == ParseThenWalk(d, base, path, i)
    decreases |path| - i, 1
  {
    if i < |path| && IsNameStart(path[i]) {
      var e := NameEnd(path, i);
      var found := FindField(d.fields, path[i..e]);
      match IndexAt(path, e)
      case BadIndex(_) =>
      case NoIndex =>
        if found.Some? {
          RestIsParseThenWalk(found.value, base + found.value.offset, path, e, Segment(path[i..e], None));
        }
      case Index(v, next) =>
        if found.Some? && SegmentAddress(found.value, base, Some(v)).Some? {
          RestIsParseThenWalk(found.value, SegmentAddress(found.value, base, Some(v)).value, path, next,
                              Segment(path[i..e], Some(v)));
        }
    }
  }

  lemma {:induction false} RestIsParseThenWalk(f: Field, address: nat, path: string, i: nat, segment: Segment)
    requires i <= |path|
    ensures var parsed := ParseRest(path, i, segment);
            Answer(ResolveRest(f, address, segment.index.Some?, path, i))
               == if parsed.None? then None else WalkRest(f, address, segment.index.Some?, parsed.value[1..])
    decreases |path| - i, 0
  {
    if i + 1 < |path| && path[i] == '.' {
      var rest := Parse(path, i + 1);
      if rest.Some? {
        assert ([segment] + rest.value)[1..] == rest.value;
      }
      if Descends(f, segment.index.Some?) {
        ResolveIsParseThenWalk(f.kind.nested, address, path, i + 1);
      }
    }
  }

  // ---- Where a resolved path points ----

  /** Bytes a target covers: one element when its last segment is indexed, else the whole field. */
  function TargetExtent(f: Field, hasIndex: bool): nat {
    if hasIndex then ElementLength(f) else Extent(f)
  }

  /** For a validated descriptor the target lies inside the instance. */
  lemma {:induction false} TargetInside(d: Descriptor, base: nat, segments: seq<Segment>)
    requires Layout(d) && WalkSegments(d, base, segments).Some?
    ensures var t := WalkSegments(d, base, segments).value;
            && (exists size: Size :: FieldLayout(t.field, size))
            && base <= t.address
            && t.address + TargetExtent(t.field, segments[|segments| - 1].index.Some?) <= base + d.size
    decreases |segments|
  {
    var f := FindField(d.fields, segments[0].name).value;
    assert FieldLayout(f, d.size);
    var a := SegmentAddress(f, base, segments[0].index).value;
    if segments[0].index.Some? {
      ElementInside(f, d.size, segments[0].index.value);
    }
    if |segments| > 1 {
      if segments[0].index.None? {
        ElementInside(f, d.size, 0);
      }
      TargetInside(f.kind.nested, a, segments[1..]);
    }
  }

  /** The offset is a sum along the path that does not depend on where the instance is. */
  lemma {:induction false} TargetIsRelative(d: Descriptor, base: nat, segments: seq<Segment>)
    ensures match WalkSegments(d, 0, segments)
            case None => WalkSegments(d, base, segments) == None
            case Some(t) => WalkSegments(d, base, segments) == Some(Target(t.field, base + t.address))
    decreases |segments|
  {
    if segments != [] && FindField(d.fields, segments[0].name).Some? {
      var f := FindField(d.fields, segments[0].name).value;
      var a := SegmentAddress(f, 0, segments[0].index);
      if a.Some? {
        assert SegmentAddress(f, base, segments[0].index) == Some(base + a.value);
        var hasIndex, rest := segments[0].index.Some?, segments[1..];
        assert WalkSegments(d, 0, segments) == WalkRest(f, a.value, hasIndex, rest);
        assert WalkSegments(d, base, segments) == WalkRest(f, base + a.value, hasIndex, rest);
        if |segments| > 1 && Descends(f, hasIndex) {
          TargetIsRelative(f.kind.nested, a.value, rest);
          TargetIsRelative(f.kind.nested, base + a.value, rest);
        }
      } else {
        assert SegmentAddress(f, base, segments[0].index) == None;
      }
    }
  }

  // ---- The resolver ----

  /** `size_t` and `uintptr_t` arithmetic wraps. */
  function Wrap(n: nat): Size {
    n % (SIZE_MAX + 1)
  }

  lemma WrapExact(n: nat)
    requires n <= SIZE_MAX
    ensures Wrap(n) == n
  {
  }

  /** The wrapping address arithmetic of one step is exact inside a validated instance. */
  lemma StepExact(f: Field, size: Size, base: nat, i: nat)
    requires FieldLayout(f, size) && base + size <= SIZE_MAX + 1 && i < f.elementCount
    ensures Wrap(base + f.offset) == base + f.offset
    ensures Wrap(Wrap(base + f.offset) + Wrap(i * f.elementSize)) == base + ElementOffset(f, i)
    ensures f.kind.StructKind? ==> base + ElementOffset(f, i) + f.kind.nested.size <= SIZE_MAX + 1
    ensures f.kind.StructKind? ==> Layout(f.kind.nested)
  {
    ElementInside(f, size, i);
    WrapExact(base + f.offset);
    WrapExact(i * f.elementSize);
    WrapExact(base + ElementOffset(f, i));
  }

  lemma {:induction false} PrefixValueSmaller(s: string, k: nat)
    requires (forall i :: 0 <= i < |s| ==> IsDigit(s[i])) && k <= |s|
    ensures DecimalValue(s[..k]) <= DecimalValue(s)
    decreases |s| - k
  {
    if k < |s| {
      assert s[..k + 1][..k] == s[..k];
      PrefixValueSmaller(s, k + 1);
    } else {
      assert s[..k] == s;
    }
  }

  /** The division test refuses exactly the digits that would not fit. */
  lemma GuardExact(index: Size, digit: nat)
    requires digit < 10
    ensures index > (SIZE_MAX - digit) / 10 <==> index * 10 + digit > SIZE_MAX
  {
  }

  lemma NextDigit(s: string, k: nat)
    requires (forall i :: 0 <= i < |s| ==> IsDigit(s[i])) && k < |s|
    ensures DecimalValue(s[..k + 1]) == DecimalValue(s[..k]) * 10 + Digit(s[k])
  {
    assert s[..k + 1][..k] == s[..k];
  }

  /** The digit loop of `parse_index`, from the first digit on. */
  method ScanDigits(path: string, start: nat) returns (ret: Status, cursor: nat, index: Size)
    requires start <= |path|
    ensures ret == Ok || ret == OutOfRange
    ensures ret == Ok ==> cursor == DigitsEnd(path, start) && index == DecimalValue(path[start..cursor])
    ensures ret == OutOfRange ==> DecimalValue(path[start..DigitsEnd(path, start)]) > SIZE_MAX
  {
    cursor, index := start, 0;
    ghost var end := DigitsEnd(path, start);
    ghost var digits := path[start..end];
    assert digits[..0] == "";
    while cursor < |path| && IsDigit(path[cursor])
      invariant start <= cursor <= end
      invariant index == DecimalValue(digits[..cursor - start])
    {
      var digit := Digit(path[cursor]);
      ghost var k := cursor - start;
      assert digits[k] == path[cursor];
      NextDigit(digits, k);
      GuardExact(index, digit);
      if index > (SIZE_MAX - digit) / 10 {
        PrefixValueSmaller(digits, k + 1);
        return OutOfRange, cursor, index;
      }
      WrapExact(index * 10 + digit);
      index := Wrap(index * 10 + digit);
      cursor := cursor + 1;
    }
    assert digits[..cursor - start] == digits;
    return Ok, cursor, index;
  }

  /** `parse_index`: the exact value of the digits, with no wrap-around on the way. */
  method ParseIndex(path: string, start: nat) returns (ret: Status, next: nat, index: Size)
    requires start <= |path|
    ensures match IndexAt(path, start)
            case NoIndex => ret == Skipped
            case BadIndex(status) => ret == status
            case Index(v, n) => ret == Ok && index == v && next == n
  {
    next, index := start, 0;
    if start == |path| || path[start] != '[' {
      return Skipped, next, index;
    }
    if start + 1 == |path| || !IsDigit(path[start + 1]) {
      return InvalidArgument, next, index;
    }
    var cursor;
    ret, cursor, index := ScanDigits(path, start + 1);
    if ret != Ok {
      return;
    }
    if cursor == |path| || path[cursor] != ']' {
      return InvalidArgument, next, index;
    }
    return Ok, cursor + 1, index;
  }

  /** `find_field_segment`: the first field with exactly this name. */
  method FindFieldSegment(d: Descriptor, name: string) returns (r: Option<Field>)
    ensures r == FindField(d.fields, name)
  {
    for i := 0 to |d.fields|
      invariant FindField(d.fields, name) == FindField(d.fields[i..], name)
    {
      if d.fields[i].name == name {
        return Some(d.fields[i]);
      }
      assert d.fields[i..][1..] == d.fields[i + 1..];
    }
    return None;
  }

  /** The name scan of `resolve_path`. */
  method ScanName(path: string, start: nat) returns (cursor: nat)
    requires start < |path| && IsNameStart(path[start])
    ensures cursor == NameEnd(path, start)
  {
    cursor := start + 1;
    while cursor < |path| && IsNameChar(path[cursor])
      invariant start < cursor <= |path| && NameEnd(path, start) == NameEnd(path, cursor)
    {
      cursor := cursor + 1;
    }
  }

  method FieldAddress(f: Field, ghost size: Size, base: nat) returns (address: Size)
    requires FieldLayout(f, size) && base + size <= SIZE_MAX + 1
    ensures address == base + f.offset
    ensures f.kind.StructKind? && f.elementCount <= 1 ==>
              Layout(f.kind.nested) && address + f.kind.nested.size <= SIZE_MAX + 1
  {
    StepExact(f, size, base, 0);
    address := Wrap(base + f.offset);
  }

  method IndexedAddress(f: Field, ghost size: Size, base: nat, start: Size, i: Size) returns (address: Size)
    requires FieldLayout(f, size) && base + size <= SIZE_MAX + 1 && i < f.elementCount && start == base + f.offset
    ensures address == base + ElementOffset(f, i)
    ensures f.kind.StructKind? ==> Layout(f.kind.nested) && address + f.kind.nested.size <= SIZE_MAX + 1
  {
    StepExact(f, size, base, i);
    address := Wrap(start + Wrap(i * f.elementSize));
  }

  /** The address computation of `resolve_path` for one segment of a structure of `size` bytes at `base`. */
  method SelectElement(f: Field, ghost size: Size, base: nat, path: string, i: nat)
      returns (ret: Status, address: nat, hasIndex: bool, next: nat)
    requires i <= |path| && FieldLayout(f, size) && base + size <= SIZE_MAX + 1
    ensures ret == Ok ==>
              i <= next <= |path| && SelectAt(f, base, path, i) == ResolveRest(f, address, hasIndex, path, next)
    ensures ret == Ok && Descends(f, hasIndex) ==>
              Layout(f.kind.nested) && address + f.kind.nested.size <= SIZE_MAX + 1
    ensures ret != Ok ==> SelectAt(f, base, path, i) == Failed(ret)
  {
    address := FieldAddress(f, size, base);
    hasIndex, next := false, i;
    var after, index;
    ret, after, index := ParseIndex(path, i);
    if ret == Ok {
      if f.kind.CharArrayKind? || index >= f.elementCount {
        ret := OutOfRange;
        return;
      }
      address := IndexedAddress(f, size, base, address, index);
      hasIndex, next := true, after;
    } else if ret == Skipped {
      ret := Ok;
    }
  }

  /** `resolve_path`: a cursor over the path, the current descriptor and the current address. */
  method ResolvePath(d: Descriptor, base: nat, path: string) returns (ret: Status, target: Option<Target>)
    requires Layout(d) && base + d.size <= SIZE_MAX + 1
    ensures Resolve(d, base, path, 0) == if target.Some? then Resolved(target.value) else Failed(ret)
    ensures ret == Ok <==> target.Some?
  {
    var cursor, current := 0, d;
    var address: nat := base;
    while cursor < |path|
      invariant cursor <= |path| && Layout(current) && address + current.size <= SIZE_MAX + 1
      invariant Resolve(d, base, path, 0) == Resolve(current, address, path, cursor)
      decreases |path| - cursor
    {
      if !IsNameStart(path[cursor]) {
        return InvalidArgument, None;
      }
      var name := cursor;
      cursor := ScanName(path, name);
      var found := FindFieldSegment(current, path[name..cursor]);
      if found.None? {
        return NotFound, None;
      }
      var f := found.value;
      assert Resolve(d, base, path, 0) == SelectAt(f, address, path, cursor);
      var hasIndex;
      ret, address, hasIndex, cursor := SelectElement(f, current.size, address, path, cursor);
      if ret != Ok {
        return ret, None;
      }
      if cursor == |path| {
        return Ok, Some(Target(f, address));
      }
      if path[cursor] != '.' {
        return InvalidArgument, None;
      }
      if !f.kind.StructKind? || (f.elementCount > 1 && !hasIndex) {
        return InvalidArgument, None;
      }
      cursor := cursor + 1;
      if cursor == |path| {
        return InvalidArgument, None;
      }
      current := f.kind.nested;
    }
    return InvalidArgument, None;
  }

  // ---- Extending a path, as the menus do ----

  function Decimal(n: nat): string {
    if n < 10 then [(n as char) + '0'] else Decimal(n / 10) + [(n % 10) as char + '0']
  }

  /** `%zu` prints digits that denote the number. */
  lemma {:induction false} DecimalDenotes(n: nat)
    ensures Decimal(n) != "" && forall i :: 0 <= i < |Decimal(n)| ==> IsDigit(Decimal(n)[i])
    ensures DecimalValue(Decimal(n)) == n
  {
    if n < 10 {
      assert Decimal(n)[..0] == "";
    } else {
      DecimalDenotes(n / 10);
      var s := Decimal(n);
      assert s[..|s| - 1] == Decimal(n / 10);
    }
  }

  function IndexText(n: nat): string {
    "[" + Decimal(n) + "]"
  }

  /** Text that can follow an accepted path without changing how the path is read. */
  predicate Continues(suffix: string) {
    suffix != "" && (suffix[0] == '.' || suffix[0] == '[')
  }

  lemma {:induction false} NameEndStable(path: string, suffix: string, i: nat)
    requires i <= |path| && Continues(suffix)
    ensures NameEnd(path + suffix, i) == NameEnd(path, i)
    decreases |path| - i
  {
    if i < |path| && IsNameChar(path[i]) {
      NameEndStable(path, suffix, i + 1);
    }
  }

  lemma {:induction false} DigitsEndStable(path: string, suffix: string, i: nat)
    requires i <= |path| && DigitsEnd(path, i) < |path|
    ensures DigitsEnd(path + suffix, i) == DigitsEnd(path, i)
    decreases |path| - i
  {
    if i < |path| && IsDigit(path[i]) {
      DigitsEndStable(path, suffix, i + 1);
    }
  }

  lemma IndexStable(path: string, suffix: string, i: nat)
    requires i < |path| && !IndexAt(path, i).BadIndex?
    ensures IndexAt(path + suffix, i) == IndexAt(path, i)
  {
    if path[i] == '[' {
      DigitsEndStable(path, suffix, i + 1);
      var e := DigitsEnd(path, i + 1);
      assert (path + suffix)[i + 1..e] == path[i + 1..e];
    }
  }

  /** An identifier after a dot adds one segment. */
  lemma {:induction false} ParseField(path: string, name: string, i: nat)
    requires i <= |path| && Parse(path, i).Some? && IsIdentifier(name)
    ensures Parse(path + "." + name, i) == Some(Parse(path, i).value + [Segment(name, None)])
    decreases |path| - i
  {
    var suffix := "." + name;
    assert path + "." + name == path + suffix;
    var e := NameEnd(path, i);
    NameEndStable(path, suffix, i);
    assert (path + suffix)[i..e] == path[i..e];
    if e < |path| {
      IndexStable(path, suffix, e);
    }
    match IndexAt(path, e)
    case NoIndex => ParseFieldRest(path, name, e, Segment(path[i..e], None));
    case Index(v, next) => ParseFieldRest(path, name, next, Segment(path[i..e], Some(v)));
  }

  lemma {:induction false} ParseFieldRest(path: string, name: string, i: nat, segment: Segment)
    requires i <= |path| && ParseRest(path, i, segment).Some? && IsIdentifier(name)
    ensures ParseRest(path + "." + name, i, segment) == Some(ParseRest(path, i, segment).value + [Segment(name, None)])
    decreases |path| - i, 0
  {
    if i == |path| {
      var longer := path + "." + name;
      assert longer[i + 1..] == name;
      ParseName(longer, i + 1);
    } else {
      ParseField(path, name, i + 1);
      var rest := Parse(path, i + 1).value;
      assert [segment] + (rest + [Segment(name, None)]) == [segment] + rest + [Segment(name, None)];
    }
  }

  /** A lone identifier is one segment. */
  lemma ParseName(path: string, i: nat)
    requires i < |path| && IsIdentifier(path[i..])
    ensures Parse(path, i) == Some([Segment(path[i..], None)])
  {
    assert path[i] == path[i..][0];
    forall j | i <= j < |path| ensures IsNameChar(path[j]) {
      assert path[j] == path[i..][j - i];
    }
    NameToEnd(path, i);
    assert path[i..|path|] == path[i..];
    assert ParseRest(path, |path|, Segment(path[i..], None)) == Some([Segment(path[i..], None)]);
  }

  lemma NameToEnd(path: string, i: nat)
    requires i <= |path| && forall j :: i <= j < |path| ==> IsNameChar(path[j])
    ensures NameEnd(path, i) == |path|
  {
  }

  /** The segments with the last one indexed by `n`. */
  function Reindexed(segments: seq<Segment>, n: nat): seq<Segment>
    requires segments != []
  {
    segments[..|segments| - 1] + [Segment(segments[|segments| - 1].name, Some(n))]
  }

  predicate LastUnindexed(segments: seq<Segment>) {
    segments != [] && segments[|segments| - 1].index.None?
  }

  /** A bracketed decimal after an unindexed last segment becomes its index. */
  lemma {:induction false} ParseIndexed(path: string, n: nat, i: nat)
    requires i <= |path| && Parse(path, i).Some? && n <= SIZE_MAX
    requires LastUnindexed(Parse(path, i).value)
    ensures Parse(path + IndexText(n), i) == Some(Reindexed(Parse(path, i).value, n))
    decreases |path| - i
  {
    var suffix := IndexText(n);
    var longer := path + suffix;
    var e := NameEnd(path, i);
    NameEndStable(path, suffix, i);
    assert longer[i..e] == path[i..e];
    if e == |path| {
      IndexTextReads(path, n);
      assert Reindexed([Segment(path[i..e], None)], n) == [Segment(path[i..e], Some(n))];
    } else {
      IndexStable(path, suffix, e);
      match IndexAt(path, e)
      case NoIndex => ParseIndexedRest(path, n, e, Segment(path[i..e], None));
      case Index(v, next) => ParseIndexedRest(path, n, next, Segment(path[i..e], Some(v)));
    }
  }

  lemma {:induction false} ParseIndexedRest(path: string, n: nat, i: nat, segment: Segment)
    requires i <= |path| && ParseRest(path, i, segment).Some? && n <= SIZE_MAX
    requires LastUnindexed(ParseRest(path, i, segment).value) && (i == |path| ==> segment.index.Some?)
    ensures ParseRest(path + IndexText(n), i, segment) == Some(Reindexed(ParseRest(path, i, segment).value, n))
    decreases |path| - i, 0
  {
    if i == |path| {
      assert false;
    } else {
      var rest := Parse(path, i + 1).value;
      var segments := [segment] + rest;
      assert segments[|segments| - 1] == rest[|rest| - 1];
      ParseIndexed(path, n, i + 1);
      assert [segment] + Reindexed(rest, n) == Reindexed(segments, n);
    }
  }

  lemma IndexTextReads(path: string, n: nat)
    requires n <= SIZE_MAX
    ensures IndexAt(path + IndexText(n), |path|) == Index(n, |path + IndexText(n)|)
  {
    var longer, digits := path + IndexText(n), Decimal(n);
    DecimalDenotes(n);
    var start := |path| + 1;
    assert longer[start..start + |digits|] == digits;
    forall j | start <= j < start + |digits| ensures IsDigit(longer[j]) {
      assert longer[j] == digits[j - start];
    }
    DigitsRun(longer, start, start + |digits|);
  }

  lemma DigitsRun(path: string, i: nat, e: nat)
    requires i <= e < |path| && !IsDigit(path[e]) && forall j :: i <= j < e ==> IsDigit(path[j])
    ensures DigitsEnd(path, i) == e
  {
  }

  lemma {:induction false} WalkField(d: Descriptor, base: nat, segments: seq<Segment>, f: Field)
    requires WalkSegments(d, base, segments).Some?
    requires var t := WalkSegments(d, base, segments).value;
             && Descends(t.field, segments[|segments| - 1].index.Some?)
             && FindField(t.field.kind.nested.fields, f.name) == Some(f)
    ensures WalkSegments(d, base, segments + [Segment(f.name, None)])
            == Some(Target(f, WalkSegments(d, base, segments).value.address + f.offset))
    decreases |segments|
  {
    var more := segments + [Segment(f.name, None)];
    var g := FindField(d.fields, segments[0].name).value;
    var a := SegmentAddress(g, base, segments[0].index).value;
    var h := segments[0].index.Some?;
    assert WalkSegments(d, base, more) == WalkRest(g, a, h, more[1..]);
    if |segments| > 1 {
      assert more[1..] == segments[1..] + [Segment(f.name, None)];
      WalkField(g.kind.nested, a, segments[1..], f);
    } else {
      assert more[1..] == [Segment(f.name, None)];
      assert WalkSegments(g.kind.nested, a, more[1..]) == WalkRest(f, a + f.offset, false, more[1..][1..]);
    }
  }

  lemma {:induction false} WalkIndexed(d: Descriptor, base: nat, segments: seq<Segment>, n: nat)
    requires WalkSegments(d, base, segments).Some? && segments[|segments| - 1].index.None?
    requires var f := WalkSegments(d, base, segments).value.field; !f.kind.CharArrayKind? && n < f.elementCount
    ensures var t := WalkSegments(d, base, segments).value;
            WalkSegments(d, base, Reindexed(segments, n)) == Some(Target(t.field, t.address + n * t.field.elementSize))
    decreases |segments|
  {
    var more := Reindexed(segments, n);
    var g := FindField(d.fields, segments[0].name).value;
    var a := SegmentAddress(g, base, segments[0].index).value;
    if |segments| > 1 {
      assert more[0] == segments[0] && more[1..] == Reindexed(segments[1..], n);
      assert WalkSegments(d, base, more) == WalkRest(g, a, segments[0].index.Some?, more[1..]);
      WalkIndexed(g.kind.nested, a, segments[1..], n);
    } else {
      assert more == [Segment(segments[0].name, Some(n))];
    }
  }

  /** `path` leads from an instance of `root` at `base` to this field and address. */
  ghost predicate Leads(root: Descriptor, base: nat, path: string, f: Field, address: nat, hasIndex: bool) {
    && Parse(path, 0).Some?
    && WalkSegments(root, base, Parse(path, 0).value) == Some(Target(f, address))
    && hasIndex == (var segments := Parse(path, 0).value; segments[|segments| - 1].index.Some?)
  }

  /** The path of a root menu entry resolves to the field the menu would edit. */
  lemma RootEntryResolves(root: Descriptor, base: nat, f: Field)
    requires FindField(root.fields, f.name) == Some(f) && IsIdentifier(f.name)
    ensures Leads(root, base, f.name, f, base + f.offset, false)
  {
    assert f.name[0..] == f.name;
    ParseName(f.name, 0);
  }

  /** The path of a nested menu entry resolves to the field the menu would edit. */
  lemma FieldEntryResolves(root: Descriptor, base: nat, path: string, g: Field, address: nat, hasIndex: bool, f: Field)
    requires Leads(root, base, path, g, address, hasIndex) && Descends(g, hasIndex)
    requires FindField(g.kind.nested.fields, f.name) == Some(f) && IsIdentifier(f.name)
    ensures Leads(root, base, path + "." + f.name, f, address + f.offset, false)
  {
    ParseField(path, f.name, 0);
    var segments := Parse(path, 0).value;
    WalkField(root, base, segments, f);
    var more := segments + [Segment(f.name, None)];
    assert more[|more| - 1].index.None?;
  }

  /** The path of an array menu entry resolves to the element the menu would edit. */
  lemma ElementEntryResolves(root: Descriptor, base: nat, path: string, f: Field, address: nat, n: nat, element: nat)
    requires Leads(root, base, path, f, address, false) && !f.kind.CharArrayKind? && n < f.elementCount
    requires element == address + n * f.elementSize
    ensures Leads(root, base, path + IndexText(n), f, element, true)
  {
    ParseIndexed(path, n, 0);
    WalkIndexed(root, base, Parse(path, 0).value, n);
  }

  // ---- The terminal index ----

  predicate Without(path: string, i: nat, c: char) {
    forall j :: i <= j < |path| ==> path[j] != c
  }

  /** `strrchr(path, '.')` over the first `n` characters. */
  function LastDot(path: string, n: nat): (r: Option<nat>)
    requires n <= |path|
    ensures match r
            case None => forall j :: 0 <= j < n ==> path[j] != '.'
            case Some(k) => k < n && path[k] == '.' && forall j :: k < j < n ==> path[j] != '.'
  {
    if n == 0 then None else if path[n - 1] == '.' then Some(n - 1) else LastDot(path, n - 1)
  }

  /** `path_has_terminal_index`: a bracket after the last dot. */
  predicate HasTerminalIndex(path: string) {
    match LastDot(path, |path|)
    case None => !Without(path, 0, '[')
    case Some(k) => !Without(path, k + 1, '[')
  }

  /** The last segment starts after a dot or at `i`, holds no dot, and holds a bracket exactly if indexed. */
  ghost predicate LastSegmentAt(path: string, i: nat, segments: seq<Segment>, start: nat) {
    && i <= start <= |path| && (start > i ==> path[start - 1] == '.') && Without(path, start, '.')
    && (LastUnindexed(segments) <==> Without(path, start, '['))
  }

  lemma {:induction false} LastSegment(path: string, i: nat) returns (start: nat)
    requires i <= |path| && Parse(path, i).Some?
    ensures LastSegmentAt(path, i, Parse(path, i).value, start)
    decreases |path| - i
  {
    var e := NameEnd(path, i);
    match IndexAt(path, e)
    case NoIndex =>
      start := LastSegmentRest(path, i, e, Segment(path[i..e], None));
    case Index(v, next) =>
      start := LastSegmentRest(path, i, next, Segment(path[i..e], Some(v)));
  }

  lemma {:induction false} LastSegmentRest(path: string, i: nat, at: nat, segment: Segment) returns (start: nat)
    requires i < at <= |path| && ParseRest(path, at, segment).Some?
    requires forall j :: i <= j < at ==> path[j] != '.'
    requires segment.index.Some? <==> exists j :: i <= j < at && path[j] == '['
    ensures LastSegmentAt(path, i, ParseRest(path, at, segment).value, start)
    decreases |path| - at, 0
  {
    if at == |path| {
      start := i;
    } else {
      start := LastSegment(path, at + 1);
      var rest := Parse(path, at + 1).value;
      var segments := [segment] + rest;
      assert segments[|segments| - 1] == rest[|rest| - 1];
    }
  }

  /** On an accepted path the test is true exactly when the last segment carries an index. */
  lemma TerminalIndexIsLastIndex(path: string)
    requires Parse(path, 0).Some?
    ensures HasTerminalIndex(path) <==> !LastUnindexed(Parse(path, 0).value)
  {
    var start := LastSegment(path, 0);
  }
}
