# Verified models of struct-meta, fix-if-comments and the service sample

This project models four parts of the repository in Dafny 4.11 and proves what they
promise each other. `dafny verify dfyconfig.toml` checks everything.

**The struct-meta runtime.** A descriptor graph says where each field of a structure lives
in raw memory, and five components interpret it: the validator, the path resolver, the JSON
encoder, the JSON decoder and the interactive editor. `Validate.dfy` works on the raw graph
as C sees it (pointers that may be NULL, shared or cyclic) and shows that an accepted graph
is exactly one that reads as a finite tree; the other modules interpret that tree.
`Path.dfy` and `Access.dfy` resolve paths, and `PathRules.dfy` says what each form of a
segment is answered. `JsonCodec.dfy`, `JsonFrame.dfy` and
`JsonContent.dfy` say what encoding and decoding do to the bytes of an instance,
`JsonShape.dfy` what the JSON looks like, `JsonRoundTrip.dfy` proves the round trip, and
`JsonMemory.dfy` is the code as it runs, in place in a byte array.
`Patch.dfy` says which edits a menu session makes for given replies and proves that it is
the same as editing by path; `PatchRules.dfy` says what each reply does, and
`PatchMemory.dfy` is the prompt loops in place.

**The generator's emission pass.** `Emit.dfy` is the pass, with a limit on the depth of its
recursion in place of the C stack; `EmitOrder.dfy` proves that it ends exactly on headers
where no struct contains itself, and then in a topological order; `EmitRuntime.dfy` proves
that the validator accepts what is generated, and `EmitCodec.dfy` which generated types can
be saved and loaded.

**bin/fix-if-comments.py.** `FixComments.dfy` specifies one pass and proves that the third
changes nothing; `FixWritten.dfy` says what a pass leaves on every line, and
`FixConverge.dfy` exactly what the second still changes.
`FixMeaning.dfy` proves when conditional inclusion (section 6.10.1 of ISO/IEC 9899:2018)
selects the same lines, and `FixAnalyze.dfy` is the script's stack machine with its shared
mutable frames.

**The service sample.** `StopLatch.dfy` is the stop latch as interleaved steps of any number
of threads, `LinuxEvents.dfy` the start and stop of the Linux event monitor under arbitrary
failures, and `InhibitLocks.dfy` the inhibitor-lock ledger over whole runs.

## Conventions and assumptions

- The target is 64-bit with 8-bit bytes and the C locale: `int`, `unsigned` and `float`
  occupy 4 bytes, `double` and pointers 8. `size_t` arithmetic is written with its
  wrap-around in `Path.dfy` and `Validate.dfy`, where it matters.
- A C pointer to a descriptor is an index into a finite table; a NULL argument is `None`.
  An instance is a region of a byte array, and an address an index into it.
- A scalar is its object bytes. Conversions between `double` and the narrower types are
  parameters (`Numerics`); the round trip assumes only that widening is exact. Number
  parsing (`Parsers`) is an abstract partial function that includes the checks for a
  leading minus sign and for trailing text.
- What validation does not look at is stated as an explicit assumption where a theorem
  needs it: fields that do not overlap (`Apart`, which C layouts give, `EmitCodec.FieldsApart`), distinct JSON keys (`KeysDistinct`), element
  sizes that match kinds (`Sized`, `FieldEditable`), identifier field names that are distinct
  (`Editable`), and NUL-terminated char arrays (`Terminated`). None of these is assumed where
  the theorem does not need it: exactness and framing of decoding hold for every validated
  descriptor.
- Lines given to fix-if-comments are already classified. An opener in an unrecognised form
  (for example with a trailing line comment) is ordinary text for the script; the theorems
  on meaning speak of files of recognised directives. Lines are whole lines: an `#else` or
  `#endif` whose tail opens a block comment that runs on, or ends in a backslash, is outside
  the model, because there rewriting the line would change the lines after it.
- `app/general/docs/fix-if-comments.md` lists a chain with other conditions in an `#elif` as left
  unchanged, and shows a two-way platform branch ending in `/* PLATFORM_ */`. The code
  removes block comments from the `#else` and `#endif` of such a chain
  (`FixComments.ComplexChainLosesComments`), and needs a second pass for the platform
  comment of a branch it has just turned (`FixConverge.SecondPassChangesExactly`). The
  models follow the code.
- Array bounds of a header are nonzero and written in decimal: the generator reads them in
  base ten, and takes a bound of 0 for a member without brackets.
- A property that does not hold of every input is stated with its exact condition, and with
  an input that fails: `FixMeaning.PassKeepsMeaning` (`UnknownPlatformLosesFallback`),
  `JsonRoundTrip.RoundTrip` (`LongArrayNotLoadable`), `InhibitLocks.LedgerExactIff`
  (`StrayResumeLeaks`), `EmitOrder.TerminatesIffNoCycle` (`SelfContainingNeverEnds`),
  `EmitCodec.GeneratedIsEncodable` (`BareCharNotEncodable`), and
  `FixConverge.OnePassIsEnough` (`FallbackNeedsTwoPasses`).

## Model

| member | source | states |
|---|---|---|
| Validate.DescriptorValidate | app/struct-meta/prod/libsrc/struct_meta/meta/validate.c:171-183 | For every finite pointer graph, cyclic ones included, the check terminates; NULL is refused; unless memory runs short the answer is OK exactly when every containment chain from the descriptor is repetition-free and meets only well-formed descriptors, and otherwise the corrupt-descriptor code; memory shortage is the only other answer |
| Validate.RecursionDecidesValidity | app/struct-meta/prod/libsrc/struct_meta/meta/validate.c:88-167 | The recursion with a stack of descriptors in progress decides exactly the stack-free definition by containment chains; shared sub-descriptors are accepted |
| Validate.ValidFromCoversWalks | app/struct-meta/prod/libsrc/struct_meta/meta/validate.c:96-100 | If the recursion accepts under a stack, no chain from there repeats a descriptor of the stack or of itself, and every descriptor on it is well formed |
| Validate.WalksGiveValidFrom | app/struct-meta/prod/libsrc/struct_meta/meta/validate.c:133-146 | Conversely, if all chains are clean, the recursion accepts |
| Types.DistinctBound | app/struct-meta/prod/libsrc/struct_meta/meta/validate.c:28-36 | Descriptors in progress are distinct, so there are never more of them than descriptors: the termination measure |
| Validate.ContainedIsSmaller | app/struct-meta/prod/libsrc/struct_meta/meta/validate.c:119-146 | A nested structure is never larger than its container; equally large only as a single element at offset 0 |
| Validate.SizesShrink | app/struct-meta/prod/libsrc/struct_meta/meta/validate.c:119-146 | Along any containment chain of well-formed descriptors sizes never grow |
| Validate.CyclesAreDegenerate | app/struct-meta/prod/libsrc/struct_meta/meta/validate.c:28-36 | A containment cycle that passes every layout rule has all sizes equal and every field on it at offset 0 with count 1, so only the stack search can reject it |
| Validate.ValidateAttributes | app/struct-meta/prod/libsrc/struct_meta/meta/validate.c:58-86 | Accepts exactly a table with non-empty, pairwise distinct keys (a NULL table only with count 0) |
| Validate.QuotientGuardsProduct | app/struct-meta/prod/libsrc/struct_meta/meta/validate.c:119-125 | The division test rejects exactly the products that do not fit a `size_t` |
| Validate.ValidateShape | app/struct-meta/prod/libsrc/struct_meta/meta/validate.c:102-146 | Accepts a field exactly when name, kind, sizes, char-buffer rules, extent inside the parent and nested size all hold |
| Validate.ValidationContext.Push | app/struct-meta/prod/libsrc/struct_meta/meta/validate.c:26-56 | Refuses exactly a descriptor already in progress; otherwise appends it, keeping the earlier entries across reallocation; out of memory only when a full stack cannot be doubled, and then nothing changes |
| Validate.ValidationContext.ValidateDescriptor | app/struct-meta/prod/libsrc/struct_meta/meta/validate.c:88-167 | Answers as the recursive definition does, and leaves the descriptors in progress exactly as they were on every exit |
| Validate.ValidationContext.ValidateFields | app/struct-meta/prod/libsrc/struct_meta/meta/validate.c:102-163 | The field loop accepts exactly when every field passes on its own and below; the stack is as before |
| Validate.Unfold | app/struct-meta/prod/libsrc/struct_meta/meta/validate.c:88-167 | An accepted descriptor reads as a finite tree that mirrors the graph field by field and obeys every layout rule |
| Validate.UnfoldField | app/struct-meta/prod/libsrc/struct_meta/meta/validate.c:102-163 | The same for one field |
| Validate.DepictionUnique | app/struct-meta/prod/libsrc/struct_meta/meta/validate.c:88-167 | A graph node has at most one tree reading |
| Validate.DepictedIsValidFrom | app/struct-meta/prod/libsrc/struct_meta/meta/validate.c:88-167 | Whatever reads as a finite well-laid-out tree is accepted under any stack of its enclosing descriptors |
| Validate.ValidIffUnfolds | app/struct-meta/prod/libsrc/struct_meta/meta/validate.c:88-167 | Accepted descriptors are exactly those that read as a finite, well-laid-out tree |
| Types.ElementInside | app/struct-meta/prod/libsrc/struct_meta/access/access.c:94-107 | Every element of a validated field lies inside the field and the parent structure |
| Types.ElementsApart | app/struct-meta/prod/libsrc/struct_meta/access/access.c:94-107 | Two elements of one field share no byte |
| Access.FieldFindAttribute | app/struct-meta/prod/libsrc/struct_meta/access/access.c:72-90 | Finds the first attribute with the key, or reports not-found |
| Access.FoundAttributeIsUnique | app/struct-meta/prod/libsrc/struct_meta/access/access.c:72-90 | In a validated field that is the only one with its key, and none is missed |
| Access.FieldGetElement | app/struct-meta/prod/libsrc/struct_meta/access/access.c:94-107 | Out of range exactly past the count, for any field; otherwise the element address, which for a validated field lies, with its whole element, inside the instance |
| Path.ParseIndex | app/struct-meta/prod/libsrc/struct_meta/access/path.c:33-65 | Exact decimal value of a closed digit run up to SIZE_MAX, out-of-range exactly when a non-empty run exceeds it, with wrapping arithmetic that never wraps; leading zeros allowed |
| Path.ScanDigits | app/struct-meta/prod/libsrc/struct_meta/access/path.c:46-55 | The digit loop stops at the end of the run with its exact value, or exactly when the value of the whole run exceeds SIZE_MAX |
| Path.IndexAt | app/struct-meta/prod/libsrc/struct_meta/access/path.c:33-65 | What an accepted index is: a bracketed digit run that denotes the value, which fits a `size_t`; the only errors are invalid-argument and out-of-range |
| Path.PrefixValueSmaller | app/struct-meta/prod/libsrc/struct_meta/access/path.c:45-56 | A prefix of a digit run denotes no larger number, so stopping early at an overflow is right |
| Path.FindFieldSegment | app/struct-meta/prod/libsrc/struct_meta/access/path.c:19-31 | The first field with exactly this name |
| Path.ScanName | app/struct-meta/prod/libsrc/struct_meta/access/path.c:81-93 | The name scan stops at the end of the run of identifier characters |
| Path.SelectElement | app/struct-meta/prod/libsrc/struct_meta/access/path.c:97-111 | One segment: the right address or the right error, with wrapping arithmetic exact inside a validated instance |
| Path.IndexedAddress | app/struct-meta/prod/libsrc/struct_meta/access/path.c:108-111 | The wrapping address of an indexed element is the exact one |
| Path.StepExact | app/struct-meta/prod/libsrc/struct_meta/access/path.c:97-111 | Adding an offset and an index times the element size never wraps inside a validated instance |
| Path.ResolvePath | app/struct-meta/prod/libsrc/struct_meta/access/path.c:67-138 | The cursor loop answers what the recursive resolution answers, error codes included |
| Path.ResolveIsParseThenWalk | app/struct-meta/prod/libsrc/struct_meta/access/path.c:67-138 | Resolution succeeds exactly when parsing to segments and walking the descriptors both do, and then with the same target |
| Path.RestIsParseThenWalk | app/struct-meta/prod/libsrc/struct_meta/access/path.c:119-135 | The same from the middle of a path |
| Path.TargetInside | app/struct-meta/prod/libsrc/struct_meta/access/path.c:67-138 | The resolved extent (one element if indexed, else the field) lies inside the instance |
| Path.TargetIsRelative | app/struct-meta/prod/libsrc/struct_meta/access/path.c:67-138 | The address is base plus a sum of offsets that does not depend on the base |
| PathRules.NameCharacters | app/struct-meta/prod/libsrc/struct_meta/access/path.c:81-89 | The characters that may start and continue a name, by their ASCII codes |
| PathRules.NoName | app/struct-meta/prod/libsrc/struct_meta/access/path.c:81-84 | Where no name starts, the path is malformed |
| PathRules.UnknownName | app/struct-meta/prod/libsrc/struct_meta/access/path.c:91-95 | A name no field has is not found, whatever follows it |
| PathRules.PlainSegment | app/struct-meta/prod/libsrc/struct_meta/access/path.c:85-135 | A segment without an index: the end gives the field itself, a dot leads on from a single structure, a trailing dot or any other character is malformed |
| PathRules.IndexedSegment | app/struct-meta/prod/libsrc/struct_meta/access/path.c:97-135 | A segment with a bracket, case by case: no digits, too large a number, no closing bracket, a char array, an index past the count, the end, a dot after a structure, anything else; each with its address or its code |
| PathRules.BracketRead | app/struct-meta/prod/libsrc/struct_meta/access/path.c:33-65 | The same cases for the bracket alone |
| Access.PathResolve | app/struct-meta/prod/libsrc/struct_meta/access/path.c:142-196 | Argument, descriptor and path errors in that order; outputs are NULL on every failure; on success exactly the target of the two-stage specification |
| JsonCodec.DecodesIffConforms | app/struct-meta/prod/libsrc/struct_meta/json/decode.c:196-213 | Decoding succeeds exactly on trees that conform to the descriptor, whatever the instance held |
| JsonCodec.FieldsDecodeIffConform | app/struct-meta/prod/libsrc/struct_meta/json/decode.c:203-210 | A prefix of the fields decodes exactly when each of them conforms |
| JsonCodec.FieldDecodesIffConforms | app/struct-meta/prod/libsrc/struct_meta/json/decode.c:133-191 | One field: ignored, absent and optional, or present with the right shape and length |
| JsonCodec.ElementsDecodeIffConform | app/struct-meta/prod/libsrc/struct_meta/json/decode.c:175-188 | A prefix of an array decodes exactly when each item conforms |
| JsonCodec.ElementDecodesIffConforms | app/struct-meta/prod/libsrc/struct_meta/json/decode.c:110-117 | One element, scalar or nested |
| JsonCodec.LengthMatchesMeans | app/struct-meta/prod/libsrc/struct_meta/json/decode.c:169-173 | The `int` length test, exactly: the count is at most INT_MAX and is the length modulo 2^32; for a length an `int` can hold, it passes exactly when length and count are equal |
| JsonCodec.LookupIsFirst | app/struct-meta/prod/libsrc/struct_meta/json/decode.c:143-151 | The item looked at is that of the first member with the key, and it is absent exactly when no member has the key |
| JsonShape.OneValueWritten | app/struct-meta/prod/libsrc/struct_meta/json/encode.c:119-132 | A char array, or a field of one element, is written as the value itself, not as an array |
| JsonShape.ArrayWritten | app/struct-meta/prod/libsrc/struct_meta/json/encode.c:134-158 | Any other field is written as an array of exactly as many items as elements, item `i` being the encoding of element `i`; it fails only if some element does |
| JsonShape.ItemsWritten | app/struct-meta/prod/libsrc/struct_meta/json/encode.c:141-156 | The same for a prefix of the elements |
| JsonShape.MembersWritten | app/struct-meta/prod/libsrc/struct_meta/json/encode.c:184-208 | An encoded object has one member for each field that is not ignored, in declaration order, under its key and with its encoding |
| JsonShape.EncodeFailsAsUnsupported | app/struct-meta/prod/libsrc/struct_meta/json/encode.c:176-212 | At every depth the only error of encoding is the unsupported code |
| JsonShape.OneValueRead | app/struct-meta/prod/libsrc/struct_meta/json/decode.c:153-162 | A char array, or a field of one element, is read from the item itself, and succeeds exactly if the item conforms |
| JsonShape.ArrayRead | app/struct-meta/prod/libsrc/struct_meta/json/decode.c:163-191 | Any other field succeeds exactly on an array of exactly as many items (modulo 2^32 beyond INT_MAX) that all conform; another length or another kind of item is refused as an invalid argument and writes nothing |
| JsonShape.OtherLengthsRefused | app/struct-meta/prod/libsrc/struct_meta/json/decode.c:169-173 | Four items and two items are refused for `int v[3]`, and three are accepted |
| JsonShape.AttributesDecide | app/struct-meta/prod/libsrc/struct_meta/json/encode.c:165-174 | A field is ignored or required exactly when it has that attribute, and its key is the non-empty renaming if there is one, else its name |
| JsonShape.AbsentField | app/struct-meta/prod/libsrc/struct_meta/json/decode.c:137-151 | An ignored field reads nothing, and an absent one fails, with its own code, exactly if it is required |
| JsonShape.ScalarCode | app/struct-meta/prod/libsrc/struct_meta/json/decode.c:27-105 | A text that does not fit has a code of its own, every other unsuitable scalar the same one; neither writes |
| JsonShape.NotAnObject | app/struct-meta/prod/libsrc/struct_meta/json/decode.c:198-201 | Anything but an object is refused |
| JsonShape.FirstFault | app/struct-meta/prod/libsrc/struct_meta/json/decode.c:203-210 | The answer of a failed decode is that of the first field that fails, and nothing after it is read |
| JsonFrame.DecodeFrame | app/struct-meta/prod/libsrc/struct_meta/json/decode.c:196-213 | On success and on error alike, a byte outside the leaves that have an item keeps its value; a string writes only its text and terminator |
| JsonFrame.FieldFrame | app/struct-meta/prod/libsrc/struct_meta/json/decode.c:133-191 | The same for one field: ignored and absent fields write nothing |
| JsonFrame.TouchedInsideField | app/struct-meta/prod/libsrc/struct_meta/json/decode.c:133-191 | Every byte a decode may write lies in a non-ignored field whose key is present, inside the instance |
| JsonFrame.FieldTouchedInside | app/struct-meta/prod/libsrc/struct_meta/json/decode.c:133-191 | The same for one field and its extent |
| JsonFrame.IgnoredNeverTouched | app/struct-meta/prod/libsrc/struct_meta/json/decode.c:137-141 | With fields apart, no tree reaches a byte of an ignored field at any depth |
| JsonContent.DecodeCarries | app/struct-meta/prod/libsrc/struct_meta/json/decode.c:196-213 | After a successful decode every leaf that has an item holds exactly that item: converted numbers, text with its terminator, nested objects and array elements each in their own place |
| JsonContent.FieldsCarry | app/struct-meta/prod/libsrc/struct_meta/json/decode.c:203-210 | The same after a prefix of the fields: later fields do not disturb earlier ones |
| JsonContent.ElementsCarry | app/struct-meta/prod/libsrc/struct_meta/json/decode.c:175-188 | Array item `i` lands in element `i` |
| JsonContent.LeafCarried | app/struct-meta/prod/libsrc/struct_meta/json/decode.c:27-117 | The same for one element written in place |
| JsonContent.TouchedDetermined | app/struct-meta/prod/libsrc/struct_meta/json/decode.c:196-213 | Two instances that carry the same tree agree on every byte the tree reaches |
| JsonContent.DecodeIsTheCarrier | app/struct-meta/prod/libsrc/struct_meta/json/decode.c:196-213 | For a conforming tree the result is the one and only instance that carries the tree and keeps every byte the tree does not reach |
| JsonContent.EncodedCarried | app/struct-meta/prod/libsrc/struct_meta/json/encode.c:176-212 | The encoding of an instance says exactly what the instance holds, leaf by leaf |
| JsonContent.EncodedLeafCarried | app/struct-meta/prod/libsrc/struct_meta/json/encode.c:27-99 | The same for one element |
| JsonContent.OwnEncodingIsNeutral | app/struct-meta/prod/libsrc/struct_meta/json/decode.c:196-230 | Encoding an instance and decoding it back into itself changes no byte |
| JsonRoundTrip.EncodesIffSized | app/struct-meta/prod/libsrc/struct_meta/json/encode.c:176-212 | Encoding succeeds exactly when every non-ignored scalar has the size its kind demands |
| JsonRoundTrip.SameTreeIffSameLeaves | app/struct-meta/prod/libsrc/struct_meta/json/encode.c:176-212 | Two instances give the same tree exactly when they agree on every non-ignored leaf (strings up to NUL) |
| JsonRoundTrip.LookupEncoded | app/struct-meta/prod/libsrc/struct_meta/json/encode.c:184-208 | With distinct keys each encoded field is found under its key, and no other key is found |
| JsonRoundTrip.EncodedConforms | app/struct-meta/prod/libsrc/struct_meta/json/decode.c:133-191 | An encoded tree conforms to its descriptor exactly when every array length fits an `int` |
| JsonRoundTrip.ReencodesSame | app/struct-meta/prod/libsrc/struct_meta/json/decode.c:196-213 | If the encoding of `x` decodes into `y`, then `y` encodes to the same tree |
| JsonRoundTrip.LeafReencodes | app/struct-meta/prod/libsrc/struct_meta/json/decode.c:110-117 | Decoding the item of one element in place makes that element encode to the same item |
| JsonRoundTrip.CStringWritten | app/struct-meta/prod/libsrc/struct_meta/json/decode.c:83-95 | A stored text is read back as itself, whatever stands after its terminator |
| JsonRoundTrip.RoundTrip | app/struct-meta/prod/libsrc/struct_meta/json/decode.c:196-230 | Main round trip: decoding `encode(x)` into any `y` succeeds exactly when array lengths fit an `int`; then `y` agrees with `x` on every leaf and re-encodes to the same tree; ignored, untouched and tail bytes of `y` are kept either way |
| JsonRoundTrip.LongArrayNotLoadable | app/struct-meta/prod/libsrc/struct_meta/json/decode.c:169-173 | Counterexample: an array of INT_MAX + 1 integers encodes, but can never be loaded again |
| JsonMemory.ReadCString | app/struct-meta/prod/libsrc/struct_meta/json/encode.c:82-85 | The string copy stays inside a terminated buffer and stops at the terminator |
| JsonMemory.ScalarToJson | app/struct-meta/prod/libsrc/struct_meta/json/encode.c:27-99 | Reads one scalar in memory: the specified item or error |
| JsonMemory.ElementToJson | app/struct-meta/prod/libsrc/struct_meta/json/encode.c:104-111 | Reads one element, scalar or nested |
| JsonMemory.FieldToJson | app/struct-meta/prod/libsrc/struct_meta/json/encode.c:116-160 | Reads one field, an array element by element, stopping at the first error |
| JsonMemory.FieldJsonKey | app/struct-meta/prod/libsrc/struct_meta/json/encode.c:165-174 | The renaming attribute if it is there and not empty, else the field name |
| JsonMemory.StructToJson | app/struct-meta/prod/libsrc/struct_meta/json/encode.c:176-212 | The member loop builds the specified object or answers the first error |
| JsonMemory.JsonEncode | app/struct-meta/prod/libsrc/struct_meta/json/encode.c:216-230 | Arguments, then validation, then the encoding of exactly the instance bytes |
| JsonMemory.Store | app/struct-meta/prod/libsrc/struct_meta/json/decode.c:38-40 | `memcpy` into the instance: those bytes and no others |
| JsonMemory.ScalarFromJson | app/struct-meta/prod/libsrc/struct_meta/json/decode.c:27-105 | Checks and writes one scalar in place: specified status and memory |
| JsonMemory.ElementFromJson | app/struct-meta/prod/libsrc/struct_meta/json/decode.c:110-117 | The same for an element, scalar or nested |
| JsonMemory.ElementFromJsonAt | app/struct-meta/prod/libsrc/struct_meta/json/decode.c:175-188 | The same for element `i` of a structure in memory; the rest of memory is unchanged |
| JsonMemory.FieldFromJson | app/struct-meta/prod/libsrc/struct_meta/json/decode.c:133-191 | Ignore, required, single and array cases in place: specified status and memory |
| JsonMemory.ElementsFromJson | app/struct-meta/prod/libsrc/struct_meta/json/decode.c:175-188 | The element loop, with the writes made before an error left in place |
| JsonMemory.StructFromJson | app/struct-meta/prod/libsrc/struct_meta/json/decode.c:196-213 | The whole structure in place: specified status and memory, nothing outside it changes |
| JsonMemory.FieldsFromJson | app/struct-meta/prod/libsrc/struct_meta/json/decode.c:203-212 | The field loop: stops at the first error and keeps the earlier writes |
| JsonMemory.NextFieldFromJson | app/struct-meta/prod/libsrc/struct_meta/json/decode.c:203-210 | One turn of the field loop |
| JsonMemory.JsonDecode | app/struct-meta/prod/libsrc/struct_meta/json/decode.c:217-230 | A NULL argument or a corrupt descriptor gives its own code and nothing is written; then the specified status and memory; running out of memory is the only other end, and writes nothing |
| Path.DecimalDenotes | app/struct-meta/prod/libsrc/struct_meta/patch/patch.c:80-89 | The printed decimal of a number consists of digits that denote it |
| Path.IndexTextReads | app/struct-meta/prod/libsrc/struct_meta/patch/patch.c:80-89 | A printed index is read back as the same number |
| Path.ParseName | app/struct-meta/prod/libsrc/struct_meta/patch/patch.c:71-75 | A lone identifier parses as one segment |
| Path.ParseField | app/struct-meta/prod/libsrc/struct_meta/patch/patch.c:71-75 | Appending a dot and an identifier to any accepted path adds exactly one segment |
| Path.ParseIndexed | app/struct-meta/prod/libsrc/struct_meta/patch/patch.c:80-89 | Appending a printed index to an accepted path gives its last segment that index |
| Path.WalkField | app/struct-meta/prod/libsrc/struct_meta/access/path.c:67-138 | Walking one more field segment adds the field offset |
| Path.WalkIndexed | app/struct-meta/prod/libsrc/struct_meta/access/path.c:67-138 | Indexing the last segment adds index times element size |
| Path.RootEntryResolves | app/struct-meta/prod/libsrc/struct_meta/patch/patch.c:377-402 | A path shown in the root menu resolves to the field and address the menu would edit |
| Path.FieldEntryResolves | app/struct-meta/prod/libsrc/struct_meta/patch/patch.c:377-402 | The same below any structure, at any depth |
| Path.ElementEntryResolves | app/struct-meta/prod/libsrc/struct_meta/patch/patch.c:319-334 | A path shown in an element menu resolves to the element the menu would edit |
| Path.LastSegment | app/struct-meta/prod/libsrc/struct_meta/patch/patch.c:487-499 | Where the last segment of an accepted path starts, and that it holds a bracket exactly if indexed |
| Path.TerminalIndexIsLastIndex | app/struct-meta/prod/libsrc/struct_meta/patch/patch.c:487-499 | On an accepted path the terminal-index test is true exactly when the last segment carries an index |
| Patch.ScalarEditAddressed | app/struct-meta/prod/libsrc/struct_meta/patch/patch.c:200-290 | Every value an edit stores is what its field stores for some line (the stored integer, the parsed word or double, the narrowed float, or the text with its NUL), written inside the leaf its displayed path resolves to |
| Patch.AcceptStores | app/struct-meta/prod/libsrc/struct_meta/patch/patch.c:222-288 | The bytes a line is accepted as are exactly those the field stores for it, kind by kind: a char array takes the text and its NUL, and only if both fit |
| Patch.WriteStands | app/struct-meta/prod/libsrc/struct_meta/patch/patch.c:200-290 | In the memory after any list of edits, a byte of an edit that no later edit covers is the one it wrote |
| Patch.AddressedWritesStand | app/struct-meta/prod/libsrc/struct_meta/patch/patch.c:369-482 | The same for every edit of a list of path-addressed edits |
| Patch.ElementEditsAddressed | app/struct-meta/prod/libsrc/struct_meta/patch/patch.c:295-309 | The same for everything done below one element |
| Patch.ArrayEditsAddressed | app/struct-meta/prod/libsrc/struct_meta/patch/patch.c:314-364 | The same for everything done in an element menu |
| Patch.FieldChosen | app/struct-meta/prod/libsrc/struct_meta/patch/patch.c:377-425 | Choosing a menu entry keeps displayed path and address in step |
| Patch.StructEditsAddressed | app/struct-meta/prod/libsrc/struct_meta/patch/patch.c:369-482 | Every edit of a menu session is addressed by its own displayed path |
| Patch.ApplyAgrees | app/struct-meta/prod/libsrc/struct_meta/patch/patch.c:200-290 | Writing each edit at its address and writing it wherever its path resolves give the same memory |
| Patch.ApplyFrame | app/struct-meta/prod/libsrc/struct_meta/patch/patch.c:200-290 | A byte outside every edited leaf keeps its value |
| Patch.OutsideUntouched | app/struct-meta/prod/libsrc/struct_meta/patch/patch.c:200-290 | Path-addressed edits change no byte outside the instance |
| Patch.ApplyAppend | app/struct-meta/prod/libsrc/struct_meta/patch/patch.c:314-364 | Edits of consecutive parts of a session compose |
| Patch.SessionIsPathEdits | app/struct-meta/prod/libsrc/struct_meta/patch/patch.c:369-482 | Main editor theorem: for every finite list of replies the session is a sequence of path-addressed edits, each of a value its field stores; its final memory is their fold, in which the last edit of every byte stands, and no byte outside the instance changes |
| Patch.TargetEditable | app/struct-meta/prod/libsrc/struct_meta/patch/patch.c:504-528 | What a path leads to is as editable as the descriptor it starts from |
| Patch.PathSessionIsPathEdits | app/struct-meta/prod/libsrc/struct_meta/patch/patch.c:563-582 | The same theorem, frame included, for a session started from an accepted path |
| Patch.MenusReach | app/struct-meta/prod/libsrc/struct_meta/patch/patch.c:369-482 | Conversely, any leaf a path addresses can be edited from the menus: explicit keystrokes make exactly that edit, under the path the menus print on the way, and return to where the session was |
| Patch.ReachedPathResolves | app/struct-meta/prod/libsrc/struct_meta/patch/patch.c:532-559 | From the root, that printed path resolves to the very leaf the walk addresses |
| Patch.FieldPicked | app/struct-meta/prod/libsrc/struct_meta/patch/patch.c:434-480 | One choice in a field menu: that field is opened, then the menu goes on |
| Patch.FieldReach | app/struct-meta/prod/libsrc/struct_meta/patch/patch.c:403-475 | The part of that walk inside one chosen field |
| Patch.ChoiceOpensElement | app/struct-meta/prod/libsrc/struct_meta/patch/patch.c:336-362 | One choice in an element menu: that element is opened, then the menu goes on |
| Patch.ArrayReach | app/struct-meta/prod/libsrc/struct_meta/patch/patch.c:314-364 | The part of the walk through an element menu |
| Patch.ElementReach | app/struct-meta/prod/libsrc/struct_meta/patch/patch.c:295-309 | The part of the walk below one element |
| PatchRules.FirstRead | app/struct-meta/prod/libsrc/struct_meta/patch/patch.c:210-215 | A read takes the first reply: a line, the end of input, or a cancel |
| PatchRules.LineTakenOrRefused | app/struct-meta/prod/libsrc/struct_meta/patch/patch.c:222-289 | A line its field stores something for ends the prompt with exactly that edit; any other non-empty line asks again and edits nothing |
| PatchRules.TakenLines | app/struct-meta/prod/libsrc/struct_meta/patch/patch.c:222-288 | A line is taken exactly if the parser of the kind takes it, or it is shorter than the char buffer |
| PatchRules.NoChange | app/struct-meta/prod/libsrc/struct_meta/patch/patch.c:210-220 | At a value prompt a blank line and the end of input mean no change and no error; a cancel ends the session |
| PatchRules.FieldMenuLeft | app/struct-meta/prod/libsrc/struct_meta/patch/patch.c:434-442 | A field menu is left by a blank line, and ended by the end of input or a cancel |
| PatchRules.ElementMenuLeft | app/struct-meta/prod/libsrc/struct_meta/patch/patch.c:334-342 | The same for an element menu |
| PatchRules.FieldMenuAsksAgain | app/struct-meta/prod/libsrc/struct_meta/patch/patch.c:444-449 | A line that is no number from 1 to the number of fields asks again |
| PatchRules.ElementMenuAsksAgain | app/struct-meta/prod/libsrc/struct_meta/patch/patch.c:344-349 | A line that is no number from 0 up to the last element asks again |
| PatchRules.UnshownMenu | app/struct-meta/prod/libsrc/struct_meta/patch/patch.c:384-392 | A field menu with a path that cannot be shown ends out of range and reads nothing |
| PatchRules.FieldOpens | app/struct-meta/prod/libsrc/struct_meta/patch/patch.c:458-475 | A char array or a single element is edited directly, anything else through an element menu |
| PatchRules.TargetOpens | app/struct-meta/prod/libsrc/struct_meta/patch/patch.c:504-521 | From a path, the element menu opens exactly for an array whose last segment has no index |
| PatchRules.EndOfInputIsSuccess | app/struct-meta/prod/libsrc/struct_meta/patch/patch.c:554-558 | For the caller the end of input is success; every other end is passed on |
| PatchMemory.Prompt.ReadLine | app/struct-meta/prod/libsrc/struct_meta/patch/patch.c:204-214 | Hands out the replies in order, then end of input for ever |
| PatchMemory.PatchScalar | app/struct-meta/prod/libsrc/struct_meta/patch/patch.c:200-290 | The value loop terminates; specified result, replies left and memory |
| PatchMemory.PatchElement | app/struct-meta/prod/libsrc/struct_meta/patch/patch.c:295-309 | Dispatch to scalar or nested; for a scalar, end of input counts as no change |
| PatchMemory.ShowElements | app/struct-meta/prod/libsrc/struct_meta/patch/patch.c:319-330 | The listing fails exactly when some displayed path does not fit |
| PatchMemory.ShowFields | app/struct-meta/prod/libsrc/struct_meta/patch/patch.c:377-402 | The same for a field menu |
| PatchMemory.ArrayTurn | app/struct-meta/prod/libsrc/struct_meta/patch/patch.c:319-362 | One turn of the element menu makes the first part of the specified session and consumes a reply if it goes on |
| PatchMemory.PatchArrayField | app/struct-meta/prod/libsrc/struct_meta/patch/patch.c:314-364 | The element menu loop terminates with the specified result, replies and memory |
| PatchMemory.PatchField | app/struct-meta/prod/libsrc/struct_meta/patch/patch.c:425-475 | Opening a field as an array menu or directly |
| PatchMemory.StructTurn | app/struct-meta/prod/libsrc/struct_meta/patch/patch.c:374-480 | One turn of the field menu |
| PatchMemory.PatchStruct | app/struct-meta/prod/libsrc/struct_meta/patch/patch.c:369-482 | The field menu loop terminates with the specified result, replies and memory |
| PatchMemory.PatchTarget | app/struct-meta/prod/libsrc/struct_meta/patch/patch.c:504-528 | A whole array opens its menu, anything else is edited directly |
| PatchMemory.PatchInteractive | app/struct-meta/prod/libsrc/struct_meta/patch/patch.c:532-559 | A NULL argument or a corrupt descriptor gives its own code and nothing is written; otherwise final memory is the fold of the path-addressed edits, and end of input is success |
| PatchMemory.PatchPathInteractive | app/struct-meta/prod/libsrc/struct_meta/patch/patch.c:563-582 | The same from a path; a path that does not resolve gives the resolver error and writes nothing |
| Emit.Find | app/struct-meta/prod/src/cmd/struct-meta-gen/struct_meta_gen_ast.c:95-110 | The first struct with the name, and none exactly when no struct has it |
| Emit.Emitter.HasEmitted | app/struct-meta/prod/src/cmd/struct-meta-gen/struct_meta_gen_emit.c:44-54 | True exactly when a struct of this name has been written |
| Emit.FieldEntry | app/struct-meta/prod/src/cmd/struct-meta-gen/struct_meta_gen_emit.c:341-391 | The initializer and attribute table of one member are the described ones |
| Emit.Emitter.WriteStruct | app/struct-meta/prod/src/cmd/struct-meta-gen/struct_meta_gen_emit.c:337-396 | Appends exactly the described field table and records the name |
| Emit.Emitter.Emit | app/struct-meta/prod/src/cmd/struct-meta-gen/struct_meta_gen_emit.c:315-397 | On any header: writes the specified order, stops at an unknown type, or needs more nested calls than there is room for |
| Emit.Emitter.EmitMemberStructs | app/struct-meta/prod/src/cmd/struct-meta-gen/struct_meta_gen_emit.c:322-335 | The member loop in place |
| Emit.EmitHeader | app/struct-meta/prod/src/cmd/struct-meta-gen/struct_meta_gen_emit.c:536-541 | The whole loop on any header: the specified descriptors in the specified order, the exit on an unknown type, or too deep a recursion |
| EmitOrder.FinishedStruct | app/struct-meta/prod/src/cmd/struct-meta-gen/struct_meta_gen_emit.c:315-343 | A call that comes to an end has written the struct, keeps what was there, and keeps every struct after what it contains |
| EmitOrder.FinishedMembers | app/struct-meta/prod/src/cmd/struct-meta-gen/struct_meta_gen_emit.c:322-335 | The member loop has written everything contained |
| EmitOrder.FinishedHeader | app/struct-meta/prod/src/cmd/struct-meta-gen/struct_meta_gen_emit.c:536-541 | The same for the whole loop |
| EmitOrder.PlacesGoDown | app/struct-meta/prod/src/cmd/struct-meta-gen/struct_meta_gen_emit.c:315-343 | In a complete order of that kind, places go down along every containment chain |
| EmitOrder.RunningStruct | app/struct-meta/prod/src/cmd/struct-meta-gen/struct_meta_gen_emit.c:315-343 | A call that is not over at some depth has gone down a containment chain of that length |
| EmitOrder.LongChainCycles | app/struct-meta/prod/src/cmd/struct-meta-gen/struct_meta_gen_emit.c:315-343 | A containment chain with more entries than the header has structs passes through a cycle |
| EmitOrder.HeaderEnds | app/struct-meta/prod/src/cmd/struct-meta-gen/struct_meta_gen_emit.c:536-541 | Without a containment cycle no call is ever deeper than the number of structs |
| EmitOrder.TerminatesIffNoCycle | app/struct-meta/prod/src/cmd/struct-meta-gen/struct_meta_gen_emit.c:315-343 | For a header with distinct names and known types, emission comes to an end if and only if no struct contains itself, directly or through others |
| EmitOrder.SelfContainingNeverEnds | app/struct-meta/prod/src/cmd/struct-meta-gen/struct_meta_gen_emit.c:315-343 | Counterexample: a struct with a member of its own type |
| EmitOrder.HeaderDeeper | app/struct-meta/prod/src/cmd/struct-meta-gen/struct_meta_gen_emit.c:536-541 | An emission that comes to an end gives the same result with any more room |
| EmitOrder.StructAvoids | app/struct-meta/prod/src/cmd/struct-meta-gen/struct_meta_gen_emit.c:315-343 | A call writes nothing it does not reach by containment |
| EmitOrder.DistinctHeader | app/struct-meta/prod/src/cmd/struct-meta-gen/struct_meta_gen_emit.c:44-54 | Without a cycle nothing is written twice |
| EmitOrder.EmissionIsTopological | app/struct-meta/prod/src/cmd/struct-meta-gen/struct_meta_gen_emit.c:536-541 | A header without containment cycle, with distinct names and known types, is written completely, each struct exactly once and after all structs it contains |
| EmitOrder.DeclarationOrderKept | app/struct-meta/prod/src/cmd/struct-meta-gen/struct_meta_gen_emit.c:536-541 | When types are declared before use the emission order is the declaration order |
| EmitOrder.DeclaredBeforeUseHasNoCycle | app/struct-meta/prod/src/cmd/struct-meta-gen/struct_meta_gen_emit.c:315-343 | Such a header has no containment cycle |
| EmitRuntime.NestedIsEarlier | app/struct-meta/prod/src/cmd/struct-meta-gen/struct_meta_gen_emit.c:362-366 | A nested descriptor is defined before the table that points to it |
| EmitRuntime.GeneratedFieldOk | app/struct-meta/prod/src/cmd/struct-meta-gen/struct_meta_gen_emit.c:341-391 | Every generated field obeys every rule of the validator under a legal C layout |
| EmitRuntime.GeneratedNodes | app/struct-meta/prod/src/cmd/struct-meta-gen/struct_meta_gen_emit.c:341-396 | Every generated descriptor is well formed and points only to earlier ones |
| EmitRuntime.GeneratedIsValid | app/struct-meta/prod/libsrc/struct_meta/meta/validate.c:171-183 | The validator accepts every generated descriptor |
| EmitCodec.GeneratedFieldSized | app/struct-meta/prod/src/cmd/struct-meta-gen/struct_meta_gen_emit.c:59-102 | A generated field has the element size the codec demands exactly when it is not a bare `char` |
| EmitCodec.AttributesRead | app/struct-meta/prod/src/cmd/struct-meta-gen/struct_meta_gen_emit.c:265-306 | The generated attributes say exactly what the header says: renamed, ignored, required |
| EmitCodec.MemberRead | app/struct-meta/prod/src/cmd/struct-meta-gen/struct_meta_gen_emit.c:341-391 | What the runtime reads of a generated member: its name, attributes, place and extent, its exact count, and its kind and element size by its type name: `int`, `unsigned`, `float`, `double`, `char[N]` as a char array of N, a bare `char` as a `double` of one byte |
| EmitCodec.NestedRead | app/struct-meta/prod/src/cmd/struct-meta-gen/struct_meta_gen_emit.c:361-366 | A struct member of a generated type leads to the generated type of that very struct, which was written earlier |
| EmitCodec.TypeReadsHeader | app/struct-meta/prod/src/cmd/struct-meta-gen/struct_meta_gen_emit.c:342-391 | A generated type is its struct in the header: its name and size, and every member in order, each read as its declaration says |
| EmitCodec.SizedTree | app/struct-meta/prod/libsrc/struct_meta/json/encode.c:27-99 | Without bare `char` members in JSON, every size at every depth is the one the codec demands |
| EmitCodec.GeneratedTree | app/struct-meta/prod/libsrc/struct_meta/json/decode.c:133-213 | With keys that differ and members in storage of their own, a generated type satisfies everything the round trip asks |
| EmitCodec.GeneratedIsEncodable | app/struct-meta/prod/libsrc/struct_meta/json/encode.c:216-230 | The encoder accepts every instance of every generated type if and only if no bare `char` member takes part in JSON |
| EmitCodec.BareCharRefused | app/struct-meta/prod/libsrc/struct_meta/json/encode.c:27-99 | A bare `char` member that takes part gives a type with a refused instance |
| EmitCodec.GeneratedRoundTrips | app/struct-meta/prod/libsrc/struct_meta/json/decode.c:196-230 | From header to JSON and back: every terminated instance of every such type loads into any other, which then agrees on every leaf and encodes to the same tree |
| EmitCodec.CounterQualifies | app/struct-meta/prod/src/cmd/struct-meta-gen/struct_meta_gen_emit.c:315-397 | A header that meets every condition of that round trip |
| EmitCodec.BareCharNotEncodable | app/struct-meta/prod/libsrc/struct_meta/json/encode.c:27-99 | Counterexample: a struct with a bare `char` member is accepted by the validator and refused by the encoder |
| FixComments.PassKeepsOtherLines | bin/fix-if-comments.py:81-228 | A pass keeps the number of lines, leaves all but `#else`/`#endif` lines alone, and turns an `#else` at most into the Windows `#elif` |
| FixComments.OwnerIsBalanced | bin/fix-if-comments.py:87-170 | A line is attributed to exactly the opener after which everything opened has been closed and nothing more, stated without the stack, on any input |
| FixComments.TurnsExactly | bin/fix-if-comments.py:191-193 | The guard on the input under which an `#else` becomes the Windows `#elif` |
| FixComments.ComplexChainLosesComments | bin/fix-if-comments.py:186-189 | In a chain with another kind of condition a line changes exactly when it has a block comment, and loses it |
| FixComments.ChainCommentIsLongest | bin/fix-if-comments.py:58-78 | The chain comment is the longest common prefix ending in an underscore, omitted exactly when none has another character |
| FixComments.PlatformPrefix | bin/fix-if-comments.py:58-78 | A Linux/Windows chain has the comment `PLATFORM_` |
| FixWritten.EndifWritten | bin/fix-if-comments.py:199-226 | What any pass leaves on any owned `#endif`, on the input lines: the macro of an `#ifdef` or `#ifndef` or of a `defined` chain without `#elif`; in a plain chain the longest prefix of all its macros that ends in an underscore, or no comment if there is none; no comment beside other conditions; another opener leaves the line unchanged |
| FixWritten.ElseWritten | bin/fix-if-comments.py:174-197 | The same for any owned `#else`: the macro or its negation, all macros negated in the order of their lines, no comment, the Windows `#elif`, or the line unchanged |
| FixWritten.WrittenForm | bin/fix-if-comments.py:174-226 | A line of no conditional stays; a changed line keeps its indentation and differs in its tail, which is then a comment, or nothing where a comment was taken away |
| FixWritten.MacrosInOrder | bin/fix-if-comments.py:103-136 | The macros of a chain are those on its opener and its own `#elif defined` lines, in the order of these lines |
| FixWritten.TestLineListed | bin/fix-if-comments.py:131-136 | Every line that tests a macro of the chain is among them |
| FixWritten.NoneDefinedGrows | bin/fix-if-comments.py:195 | The comment of an `#else` grows by one negated macro for each macro, joined by the logical and |
| FixWritten.ElifsRecorded | bin/fix-if-comments.py:131-144 | The two flags of a chain say whether it has an `#elif`, and one of another kind, before the line |
| FixWritten.ChainCommentOnLines | bin/fix-if-comments.py:58-78 | The common prefix of a chain, said of the macros on its lines |
| FixWritten.SeveralMacros | bin/fix-if-comments.py:103-136 | A chain has several macros exactly if it has an `#elif` that tests one |
| FixComments.SameStack | bin/fix-if-comments.py:87-170 | A later pass attributes every line to the same opener |
| FixComments.SameRecord | bin/fix-if-comments.py:87-170 | Where nothing was turned a later pass records the same facts |
| FixComments.TurnedChain | bin/fix-if-comments.py:191-193 | A turned conditional reads as a Linux test followed by Windows tests |
| FixComments.TurnedMeansLinuxOnly | bin/fix-if-comments.py:191-193 | Only a chain that tests nothing but the Linux macro has an `#else` turned |
| FixComments.UnturnedLineIsFinal | bin/fix-if-comments.py:174-226 | A line whose conditional was not turned is final after one pass |
| FixComments.SecondPassTurnsNothing | bin/fix-if-comments.py:191-193 | The second pass turns nothing |
| FixComments.SecondPassChanges | bin/fix-if-comments.py:174-226 | The second pass changes only an `#endif`, to the common prefix, or a further `#else`, to the chain form, of a conditional the first pass turned |
| FixComments.ThirdPassChangesNothing | bin/fix-if-comments.py:81-228 | The third pass never changes anything, on any input |
| FixConverge.SecondPassChangesExactly | bin/fix-if-comments.py:174-226 | On any input the second pass changes a line if and only if it is an `#endif`, or an `#else` that is not turned, of a conditional with an earlier turned `#else` and no other kind of condition before it |
| FixConverge.OnePassIsEnough | bin/fix-if-comments.py:81-228 | On any input one pass settles a file if and only if it leaves no such line |
| FixConverge.ClosedFileNeedsOnePass | bin/fix-if-comments.py:81-228 | A well-nested file that closes all its conditionals is settled by one pass if and only if no `#else` is turned |
| FixConverge.FallbackNeedsTwoPasses | bin/fix-if-comments.py:191-193 | Counterexample: a file that one pass does not settle |
| FixConverge.ElifsAreTurned | bin/fix-if-comments.py:131-144 | What the second pass takes for an `#elif` of such a conditional is what the first one turned |
| FixConverge.LineWrittenTwice | bin/fix-if-comments.py:174-226 | Which lines are written differently from the records of the two passes |
| FixConverge.ClosingLine | bin/fix-if-comments.py:159-170 | A conditional that is open somewhere and not at the end has an `#endif` of its own |
| FixMeaning.GroupsFollowStack | bin/fix-if-comments.py:87-170 | As many conditionals are open in the preprocessor as are on the stack of the script, and what is inside an excluded group is excluded |
| FixMeaning.UnchosenKeepsEnv | bin/fix-if-comments.py:174-197 | Until a group is chosen the macro environment is the one at the opener |
| FixMeaning.LineAgrees | bin/fix-if-comments.py:174-226 | What a pass leaves on one line moves two agreeing preprocessors alike; a branch taken away stays empty for the second one |
| FixMeaning.LineKeepsAgreement | bin/fix-if-comments.py:174-226 | One line keeps that agreement, unless it is an included line of a branch taken away |
| FixMeaning.KeptAgrees | bin/fix-if-comments.py:174-226 | So does any prefix |
| FixMeaning.PassKeepsMeaning | bin/fix-if-comments.py:81-228 | On a well-nested file, in any environment, a pass keeps every line that is not a conditional directive as included or excluded as it was if and only if no included one stands in a branch whose `#else` was turned while PLATFORM_WINDOWS was not defined; then the selected lines are equal |
| FixMeaning.PassKeepsInclusion | bin/fix-if-comments.py:81-228 | Counting the position right after every directive too, inclusion is kept if and only if PLATFORM_WINDOWS is defined wherever a turned `#else` would be included |
| FixMeaning.LostStep | bin/fix-if-comments.py:87-170 | How being inside a branch taken away is passed on from line to line |
| FixMeaning.KnownPlatformCovers | bin/fix-if-comments.py:191-193 | Every turned `#else` that would be included is the Windows branch whenever one of the platform macros is defined and none is undefined, so no branch is taken away |
| FixMeaning.PassKeepsMeaningOnPlatforms | bin/fix-if-comments.py:81-228 | On a known platform a pass selects the same lines |
| FixMeaning.ElseCommentWritten | bin/fix-if-comments.py:174-197 | What the comment on an `#else` that stays one says |
| FixMeaning.FallbackIsTurned | bin/fix-if-comments.py:191-193 | The concrete file of the counterexample is rewritten |
| FixMeaning.UnknownPlatformLosesFallback | bin/fix-if-comments.py:191-193 | Counterexample: on neither platform that rewrite drops the fallback branch |
| FixMeaning.UnchosenChainFails | bin/fix-if-comments.py:176-196 | Where no group was chosen, the opener condition and every plain macro tested so far were false |
| FixMeaning.FailingChainUnchosen | bin/fix-if-comments.py:176-196 | Conversely in a conditional that tests only plain macros |
| FixMeaning.MacrosFinalAtElse | bin/fix-if-comments.py:87-170 | The shared macro list is complete at the `#else` |
| FixMeaning.ElseClaimMeans | bin/fix-if-comments.py:181-197 | The comment claims exactly that the opener condition and all chain macros failed |
| FixMeaning.ElseCommentIsTrue | bin/fix-if-comments.py:174-197 | The comment written on an `#else` is true wherever the branch is included, and in a plain conditional true exactly there |
| FixAnalyze.Open | bin/fix-if-comments.py:88-129 | An opener pushes a frame that records its conditional |
| FixAnalyze.Continue | bin/fix-if-comments.py:131-144 | An `#elif` updates the innermost frame only, and only a `defined` chain |
| FixAnalyze.NoteElse | bin/fix-if-comments.py:146-157 | An `#else` marks the innermost frame, which is noted with it |
| FixAnalyze.NoteEndif | bin/fix-if-comments.py:159-170 | An `#endif` is noted with the frame it pops |
| FixAnalyze.InnerLine | bin/fix-if-comments.py:131-170 | Any line of an open conditional keeps stack, frames and notes as they must be |
| FixAnalyze.Scan | bin/fix-if-comments.py:82-170 | Exactly the owned `#else`/`#endif` lines are noted, each with its own opener, the flags at that line, and the macros of the whole chain: later ones still reach earlier notes through the shared list |
| FixAnalyze.FindCommonMacroPrefix | bin/fix-if-comments.py:58-78 | The prefix loop computes the specified prefix |
| FixAnalyze.NoteGivesFix | bin/fix-if-comments.py:174-226 | The frame a note refers to, as it is after the whole pass, gives the specified new text of its line |
| FixAnalyze.ElseFix | bin/fix-if-comments.py:174-197 | The replacement for one `#else`, or none when it is already right |
| FixAnalyze.EndifFix | bin/fix-if-comments.py:199-226 | The same for one `#endif` |
| FixAnalyze.CollectFixes | bin/fix-if-comments.py:172-226 | Exactly the lines of one kind that change, each with its new text |
| FixAnalyze.Analyze | bin/fix-if-comments.py:81-228 | Exactly the lines a pass changes, as the pass writes them |
| FixAnalyze.ProcessLines | bin/fix-if-comments.py:240-266 | The rewritten file is the specified pass, and the count is the number of lines it changes |
| FixAnalyze.NoneChanged | bin/fix-if-comments.py:240-242 | No line is counted exactly when the file is unchanged |
| StopLatch.StepKeepsLock | app/service-sample/prod/src/cmd/service-sample/service-sample.c:114-157 | Every step keeps the lock held by exactly the thread inside |
| StopLatch.StepKeepsFlag | app/service-sample/prod/src/cmd/service-sample/service-sample.c:114-157 | Every step keeps: a completed or broadcasting request means the flag is set, and late queries see it |
| StopLatch.StepKeepsStops | app/service-sample/prod/src/cmd/service-sample/service-sample.c:114-157 | Every step keeps: a waiter blocked under a set flag has a broadcast coming |
| StopLatch.RunsKeepInvariant | app/service-sample/prod/src/cmd/service-sample/service-sample.c:114-157 | All three hold in every state of every interleaving of any number of threads |
| StopLatch.FlagIsSticky | app/service-sample/prod/src/cmd/service-sample/service-sample.c:114-124 | The flag never clears |
| StopLatch.NoWaiterIsForgotten | app/service-sample/prod/src/cmd/service-sample/service-sample.c:140-157 | In every reachable state a waiter blocked under a set flag has a requester that still has to broadcast |
| StopLatch.BroadcastWakesEveryone | app/service-sample/prod/src/cmd/service-sample/service-sample.c:120-123 | That requester can always step, and its broadcast leaves nobody blocked |
| StopLatch.LateCallsAnswerOne | app/service-sample/prod/src/cmd/service-sample/service-sample.c:126-157 | A query or wait begun after a completed request never blocks and answers 1 |
| StopLatch.MutualExclusion | app/service-sample/prod/src/cmd/service-sample/service-sample.c:114-157 | Two threads are never inside the lock together |
| StopLatch.AnswerIsTheFlagRead | app/service-sample/prod/src/cmd/service-sample/service-sample.c:126-157 | The answer of every query and wait is the value of the flag at one moment within that call, while the thread held the lock |
| StopLatch.FlagMeansRequested | app/service-sample/prod/src/cmd/service-sample/service-sample.c:114-124 | In every reachable state the flag is set if and only if some request has completed or is about to broadcast |
| StopLatch.NoRequestNoAnswer | app/service-sample/prod/src/cmd/service-sample/service-sample.c:126-157 | As long as no stop has been requested, every query and every wait that returns answers 0 |
| StopLatch.RequestRemains | app/service-sample/prod/src/cmd/service-sample/service-sample.c:114-124 | Every step keeps: a set flag has such a request |
| LinuxEvents.EventMonitor.Eventfd | app/service-sample/prod/src/cmd/service-sample/service-sample_linux_events.c:573-585 | A new descriptor that was not open, or -1 |
| LinuxEvents.EventMonitor.ReleaseLocalResources | app/service-sample/prod/src/cmd/service-sample/service-sample_linux_events.c:534-552 | From any intermediate state of a start or stop: handler back, then all descriptors closed, with every moment on the way safe for a SIGHUP |
| LinuxEvents.EventMonitor.InstallReload | app/service-sample/prod/src/cmd/service-sample/service-sample_linux_events.c:583-609 | The reload half of a start under any failures: installed exactly when both calls succeed, otherwise no descriptor is left |
| LinuxEvents.EventMonitor.StartMonitor | app/service-sample/prod/src/cmd/service-sample/service-sample_linux_events.c:556-621 | Succeeds exactly as the calls do; on failure everything is released; a second start or a NULL definition changes nothing |
| LinuxEvents.EventMonitor.StopMonitor | app/service-sample/prod/src/cmd/service-sample/service-sample_linux_events.c:623-646 | Everything is released and the handler is restored |
| LinuxEvents.EventMonitor.Serve | app/service-sample/prod/src/cmd/service-sample/service-sample_linux_events.c:101-113 | Over any sequence of starts and stops with any failures: open descriptors are exactly the fields between calls, nothing is left without a thread, and at every moment a delivered SIGHUP meets no descriptor or an open one |
| InhibitLocks.HandleExact | app/service-sample/prod/src/cmd/service-sample/service-sample_linux_events.c:199-279 | One signal keeps the ledger exact if and only if it is not a resume that arrives while the sleep lock is held |
| InhibitLocks.LostStaysLost | app/service-sample/prod/src/cmd/service-sample/service-sample_linux_events.c:226-230 | A descriptor dropped from the fields stays open for ever |
| InhibitLocks.LedgerExactIff | app/service-sample/prod/src/cmd/service-sample/service-sample_linux_events.c:199-279 | Over any run with any failures: the open locks are exactly the fields, and thread exit leaves none open, if and only if no resume ever found the sleep lock held |
| InhibitLocks.ExitLeavesTheLost | app/service-sample/prod/src/cmd/service-sample/service-sample_linux_events.c:171-183 | What the release at thread exit leaves open is exactly what had dropped out of the fields |
| InhibitLocks.NoLockWhileSuspended | app/service-sample/prod/src/cmd/service-sample/service-sample_linux_events.c:199-232 | With alternating signals no sleep lock is held between suspend and resume |
| InhibitLocks.AlternationKeepsLedger | app/service-sample/prod/src/cmd/service-sample/service-sample_linux_events.c:391-514 | With alternating suspend signals the ledger is exact throughout and empty at exit; shutdown signals may come in any order |
| InhibitLocks.StrayResumeLeaks | app/service-sample/prod/src/cmd/service-sample/service-sample_linux_events.c:199-232 | Counterexample: one resume while the first lock is held leaves that lock open for ever |
| InhibitLocks.ReleaseFollowsDispatch | app/service-sample/prod/src/cmd/service-sample/service-sample_linux_events.c:211-221 | While signals are handled, a lock is released only right after its event was dispatched |
| InhibitLocks.EventsFollowSignals | app/service-sample/prod/src/cmd/service-sample/service-sample_linux_events.c:199-279 | Over any run the application is told of every suspend, every resume and every shutdown, once each and in order, and of nothing else |
| InhibitLocks.LockHeldWhileAwake | app/service-sample/prod/src/cmd/service-sample/service-sample_linux_events.c:226-231 | A lock taken again at a resume is in its field and open until the next signal about sleep |
| InhibitLocks.FieldsStayBacked | app/service-sample/prod/src/cmd/service-sample/service-sample_linux_events.c:199-279 | Over any run no field holds a closed descriptor, and the two fields never hold the same one |
| InhibitLocks.SleepSignals | app/service-sample/prod/src/cmd/service-sample/service-sample_linux_events.c:199-232 | What an observer sees of a sleep signal: the suspend, then the release if a lock was held; or the resume, then the new lock if one was given |
| InhibitLocks.ShutdownSignals | app/service-sample/prod/src/cmd/service-sample/service-sample_linux_events.c:245-279 | What an observer sees of a shutdown signal: the event, then the release; a cancelled one only takes a lock where none is held; an unreadable signal changes nothing |
| InhibitLocks.SetupTakes | app/service-sample/prod/src/cmd/service-sample/service-sample_linux_events.c:434-436 | Setup fills each field with the lock it got, and opens nothing else |
| InhibitLocks.LockFields.Acquire | app/service-sample/prod/src/cmd/service-sample/service-sample_linux_events.c:128-166 | The descriptor the system answers, now open, or -1 with nothing opened |
| InhibitLocks.LockFields.ReleaseInhibitLocks | app/service-sample/prod/src/cmd/service-sample/service-sample_linux_events.c:171-183 | Both locks are released and the fields cleared |
| InhibitLocks.LockFields.OnPrepareForSleep | app/service-sample/prod/src/cmd/service-sample/service-sample_linux_events.c:199-232 | The handler makes exactly the specified change of fields, open locks and log |
| InhibitLocks.LockFields.OnPrepareForShutdown | app/service-sample/prod/src/cmd/service-sample/service-sample_linux_events.c:245-279 | The same for the shutdown half |
| InhibitLocks.LockFields.HandleSignals | app/service-sample/prod/src/cmd/service-sample/service-sample_linux_events.c:434-447 | The event loop over any signals is the fold of the handlers |
| InhibitLocks.LockFields.MonitorThread | app/service-sample/prod/src/cmd/service-sample/service-sample_linux_events.c:460-522 | Whatever the signals, both fields are cleared at thread exit, and no lock stays open if and only if no resume found the sleep lock held; alternating signals are enough |

## Left out

- JSON text and files (`struct_meta_json_file_save`, `struct_meta_json_file_load`), cJSON itself and its printing: the model stops at the tree in memory.
- Allocation failures of cJSON and of the editor's path buffers: only the validator's `realloc` can fail in the model.
- NULL output parameters, and the guards that reject them.
- Rounding of `float` and `double`, and converting an out-of-range `double` to an integer: scalars are opaque bytes with abstract conversions.
- `strtol`, `strtoul` and `strtod`: number parsing is an abstract partial function of the line.
- `format_scalar_value`, `print.c`, menu texts and field briefs: display only; the displayed path strings are modelled.
- The prompt's own line editing and line-length limit: a reply is a line, end of input, or a failed read, and every failed read other than end of input has one code.
- JsonRoundTrip.RoundTrip: bytes of a string buffer after its terminator are not restored, because the code does not copy them; they keep the value they had.
- JsonCodec.DecodesIffConforms: decoding is not atomic; after an error the earlier fields stay written, and JsonFrame.DecodeFrame bounds what may have been.
- Patch.MenusReach: assumes that every number a menu asks for can be typed, and that the menus along the path can be shown.
- The generator's lexer and parser, its comment scraping, the catalog tables and header, file names, and the truncation of its fixed text buffers.
- Emit.EmitHeader: the depth of the C stack is a parameter; what the code does when the stack overflows is not modelled.
- Regular expressions, encodings, diff output, file collection and writing in fix-if-comments.py.
- FixMeaning.PassKeepsMeaningOnPlatforms: assumes no line undefines a platform macro; FixMeaning.PassKeepsMeaning needs no such assumption.
- FixMeaning.PassKeepsMeaning: macro expansion and `#include` are not interpreted; `#define` and `#undef` change the environment and every other condition has an abstract value under it.
- The early returns of the stop latch before its lock and condition variable exist, and failing lock or wait calls.
- The detach path of `svc_linux_events_stop` after a join time-out: the detached thread outlives the released state.
- LinuxEvents.EventMonitor.Serve: assumes nobody else changes the SIGHUP disposition between the calls, and counts only descriptors, not the thread's event loop.
- InhibitLocks.LockFields.MonitorThread: assumes a new lock descriptor is never one that is still open; D-Bus, watchdog, session signals and the events' payload are not modelled.
- The Windows service, systemd installation, elevation, tracing, lifecycle ordering, and the other samples, makefiles and scripts of the repository.
