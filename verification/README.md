# A verified model of Forge's stream and object-model checks

Forge inspects audio deliverables. Its hard parts are hand-written recognisers of bit streams and
tables, state machines fed one frame at a time, and walks over graphs of objects that a file
defines. This project models those parts in Dafny and proves what each of them decides, for every
input and every run:

- **E-AC-3 access units** (`Eac3Stream`, `Eac3Spec`, `Eac3Recogniser`, `Eac3Locations`,
  `Eac3Audit`). The assembler that is fed one syncframe at a time is proved to accept exactly the
  streams described by a declarative specification that never mentions its state (section E2.3.1 of
  ATSC A/52, Annex E), and that specification is said again of the header fields of single frames.
- **AAF MetaDictionary types** (`AafTypes`, `AafTypeChecker`, `AafTypeLaws`, `AafTypeCrashes`,
  `AafForms`, `AafText`, `AafValues`). Two recursive interpreters of one user-defined type graph,
  layout and value validation, are proved to agree, and each is proved to mean what the definitions
  say: which graphs can be laid out in which form, and which bytes are values.
- **AAF stored objects** (`AafProperties`, `AafIndexes`, `AafOwnership`, `AafVarying`,
  `AafComponents`, `AafTimeline`, `AafSourceCycles`). Binary tables that are exact codes, strong
  references that form a tree, a guarded component walk and an exhaustive simple-path cycle search,
  over the graphs of `Graph`.
- **MPEG-4 bit syntax** (`BitSyntax`, `EscapedValues`, `LatmSyntax`, `LatmReader`,
  `LatmRoundTrip`, `LatmBytes`, `LatmCanonical`, `LatmStandard`, `LatmElements`, `LoasScan`,
  `AdtsScan`). A bounded bit reader, escaped integers (section 5.2 of ISO/IEC 23003-3),
  AudioSpecificConfig (section 1.6.2.1 of ISO/IEC 14496-3), the LATM multiplex (section 1.7.3 of
  ISO/IEC 14496-3), the LOAS scan (section 1.7.2) and the ADTS scan (Annex 1.A of ISO/IEC 14496-3),
  each against a writer.
- **AES31** (`Aes31Time`, `Aes31Lexer`, `Aes31Document`). Drop-frame time labels, the lexer of
  markers and quoted text, and the tag and section parser.
- **ADM** (`AdmObjects`, `IdOrder`, `AdmInventory`, `AdmProgrammes`, `AdmEnumeration`,
  `AdmImportance`). Nesting depth, reachability, the enumeration of presentations and the importance
  plan (sections 3.12.3 and 3.12.4 of Report ITU-R BS.2388-7).

Code that changes state is modelled by classes, loops and recursive methods, each proved equal to a
specification function or to a property of its inputs; the lemmas beside them say what the
specification means. Findings are counts or abstract values.

## What the proofs show about the code

- The E-AC-3 machine needs no second look: its deferred checks, saturating block counters and
  per-presentation maps together decide the declarative specification. A group that fills
  presentation 0 but not the others is only ever seen in a stream that is already invalid.
- An integer definition of a size other than 1, 2, 4 or 8 is only reported when read
  (`src/aaf_meta_qc.rs:445-450`), so it stays in the type graph. Validating a value can then run
  over the eight-byte buffer; `AafTypeLaws.AbortsIff` says for exactly which type graphs, and
  `AafTypeCrashes.TypeAbortsIff` for exactly which single types.
- The LATM parser accepts exactly the elements that can be written, each with one outcome
  (`LatmCanonical.AcceptedIff`). An AudioSpecificConfig written before other bits reads back exactly
  when those bits do not look like the synchronisation extension it looks ahead for
  (`LatmRoundTrip.AscMisread` shows some that do). Inside a LATM configuration they never do.
- The LATM parser departs from section 1.7.3 of ISO/IEC 14496-3 in three ways. It takes a length
  and then its payload, stream by stream, where the standard, with the same time framing for all
  streams, lists all lengths of a subframe first: that order is read rightly exactly when only
  streams of fixed length zero stand before a variable-length stream
  (`LatmStandard.StandardOrderIff`). It takes a frame length of type 1 as a plain byte count, where
  the standard adds twenty bytes (`LatmStandard.FixedLengthIff`). And it does not look at the flag
  for the same time framing, without which a subframe comes in chunks that name their streams
  (`LatmElements.ChunkMisread`). Altogether it reads the elements of a configuration rightly,
  whatever they carry, exactly when the flag is set and there is one stream, of variable length
  (`LatmElements.ParsedElementsIff`, `LatmElements.RepeatedElementsIff`).
- The LATM parser reads the announced length of other data but never skips that data. An element
  that carries it is accepted exactly when the data is all zero and, with the padding to whole
  bytes, at most seven bits long (`LatmBytes.OtherDataOutcome`).
- The ADL lexer reports text outside records by what follows the last `>` or `)` before a marker.
  All such text is reported exactly when each piece of it has a marker after it and does not end in
  one of them but for blank space (`Aes31Lexer.AllStrayTextReported`).
- Whatever the index stream of a strong reference holds, no target is met twice when it is
  resolved: a bad index is skipped, and a good one names distinct children. The check for repeated
  targets never fires (`AafIndexes.ResolveStored`).
- Control points of a varying value are compared by cross products with denominators that are only
  known not to be zero. Two times are compared rightly exactly when their denominators have the same
  sign or they are equal (`AafVarying.ComparesRightly`), and a list of points is judged rightly,
  whatever the numerators, exactly when all denominators of known times have one sign
  (`AafVarying.JudgedRightlyIff`).
- The AAF component walk's recursion guard cannot fire on references that resolution made.
- A timeline segment passes exactly when every component that can be reached from it is sound, and
  so for the findings about the timeline and for those about effects each by itself.
- The ADM presentation limit is enforced on the true number of presentations in spite of checked
  machine arithmetic and early exits, and enumeration under the same limit cannot fail.

## Model

| member | source | states |
|---|---|---|
| `Eac3Stream.AccessUnits.UpdateGroup` | src/ac3_qc.rs:507-565 | taking one frame moves the fields as the transition function does: an independent id 0 closes the open group, other frames must continue it |
| `Eac3Stream.AccessUnits.FinalizeCurrent` | src/ac3_qc.rs:567-649 | closing a group compares its signature, absorbs every substream and completes a unit at six blocks |
| `Eac3Stream.AccessUnits.AbsorbOne` | src/ac3_qc.rs:599-627 | one independent substream's compression check, mask comparison and saturating block count |
| `Eac3Stream.AccessUnits.FinishUnits` | src/ac3_qc.rs:651-660 | the end of the stream closes the open group and rejects blocks left over |
| `Eac3Stream.CompressionInPlace` | src/ac3_qc.rs:599-610 | the loop finds whether exactly the last dependent carries a compression word |
| `Eac3Spec.ChunksCut` | src/ac3_qc.rs:507-520 | cutting before each independent id 0 loses nothing and gives pieces that begin with the only such frame in them |
| `Eac3Spec.ChunksUnique` | src/ac3_qc.rs:507-520 | and there is only one such cut |
| `Eac3Recogniser.RunState` | src/ac3_qc.rs:507-565 | at any moment the machine's state is what the finished groups leave, with the last piece as the open group |
| `Eac3Recogniser.MaskMirrors` | src/ac3_qc.rs:617-625 | the incrementally merged channel mask is the union over that presentation's frames |
| `Eac3Recogniser.CompressionAgrees` | src/ac3_qc.rs:599-610 | the check per substream is the specification's condition on frames |
| `Eac3Recogniser.SignatureAgrees` | src/ac3_qc.rs:577-598 | two groups have one signature exactly when their frames have the same roles in order |
| `Eac3Recogniser.NoUnitStraddledStep` | src/ac3_qc.rs:611-649 | block sums hit every multiple of six they reach exactly when no group crosses one |
| `Eac3Recogniser.SealStep` | src/ac3_qc.rs:567-649 | closing a group keeps the invariant between accumulators, masks, signature, verdict and the groups so far |
| `Eac3Recogniser.SealedSettled` | src/ac3_qc.rs:567-649 | that invariant holds after any sequence of groups |
| `Eac3Recogniser.OrphansRejected` | src/ac3_qc.rs:507-565 | a stream that does not begin with independent id 0 is invalid for good |
| `Eac3Recogniser.ExactRecogniser` | src/ac3_qc.rs:507-660 | after the end of any stream the verdict is valid if and only if the stream meets the specification |
| `Eac3Recogniser.AccumulatorsAgree` | src/ac3_qc.rs:611-649 | while valid, all block accumulators are equal and below six between groups |
| `Eac3Recogniser.UnitsCloseTogether` | src/ac3_qc.rs:628-649 | when presentation 0 reaches six in a valid stream all others have, so the other branch needs an invalid stream |
| `Eac3Recogniser.BlocksConserved` | src/ac3_qc.rs:567-660 | in a valid finished stream every independent id carries exactly six blocks per completed unit |
| `Eac3Recogniser.GroupsCounted` | src/ac3_qc.rs:567-572 | the group count is the number of independent id 0 frames |
| `Eac3Locations.FrameLocations` | src/ac3_qc.rs:734-756 | a dependent frame with a channel map brings the locations of the map, any other those of its mode: a centre in odd modes, left and right but in mono, one or two surrounds from mode 4 or 6 on |
| `Eac3Locations.LocationsAre` | src/ac3_qc.rs:541-561 | a location is in a presentation's mask if and only if one of its frames brings it |
| `Eac3Locations.OrderedIff` | src/ac3_qc.rs:507-565 | the numbering of a group, said of neighbouring frames: each begins the next presentation or follows on the frame before it |
| `Eac3Locations.SameShapeIff` | src/ac3_qc.rs:577-625 | two groups match if and only if their frames have the same stream types and their presentations carry the same locations |
| `Eac3Locations.AcceptedIff` | src/ac3_qc.rs:507-660 | the verdict at the end of any stream is valid if and only if the stream is well made, read field by field |
| `Eac3Locations.LocationsAgree` | src/ac3_qc.rs:611-625 | no location of a presentation comes or goes between the groups of an accepted stream |
| `Eac3Locations.ReportedMasks` | src/ac3_qc.rs:611-625 | the masks of an accepted stream are one for each presentation, of the locations it carries |
| `Eac3Audit.State.UpdateState` | src/ac3_qc.rs:465-473 | the running verdict follows the assembler and never recovers; samples count primary frames only |
| `Eac3Audit.Audit` | src/ac3_qc.rs:230-243 | the loop's verdict on its frames is that of both specifications, and a valid stream decodes to 1536 samples per completed unit and reports the masks of what its presentations carry |
| `AafTypeChecker.DefinitionStack.LayOut` | src/aaf_meta_qc.rs:1122-1239 | the stack-pushing recursion computes the layout function and restores the stack on success |
| `AafTypeChecker.DefinitionStack.LayOutRecord` | src/aaf_meta_qc.rs:1215-1232 | a record's loop adds up member sizes and takes the greatest depth |
| `AafTypeChecker.Measure` | src/aaf_meta_qc.rs:1241-1247 | a size is answered exactly for types laid out as a fixed, nonzero number of bytes |
| `AafTypeChecker.Decode` | src/aaf_meta_qc.rs:1249-1264 | copying into the eight-byte buffer and filling it up in place decodes the value, and runs out of range exactly on more than eight bytes, or on none when signed |
| `AafTypeChecker.Validate` | src/aaf_meta_qc.rs:975-1120 | the recursive validator computes the validation function, crash outcomes included |
| `AafTypeChecker.ValidateEach` | src/aaf_meta_qc.rs:1040-1046 | the loop over elements stops at the first bad or, in sets, repeated one |
| `AafTypeChecker.ValidateRecord` | src/aaf_meta_qc.rs:1064-1085 | members are taken one after another and must use up all the data |
| `AafTypeLaws.LayoutAgrees` | src/aaf_meta_qc.rs:975-1239 | a type laid out as n bytes accepts only values of n bytes, and a reference, vector, set or stream accepts none |
| `AafTypeLaws.MembersSum` | src/aaf_meta_qc.rs:1064-1232 | the size added up by layout is the number of bytes validation walks through |
| `AafTypeLaws.LayoutIndependent` | src/aaf_meta_qc.rs:1122-1239 | storage and relative depth do not depend on the stack or the starting depth |
| `AafTypeLaws.LaidOutIsFinite` | src/aaf_meta_qc.rs:1122-1145 | success means no cycle can be reached and everything reached is defined |
| `AafTypeLaws.WalkFresh` | src/aaf_meta_qc.rs:1122-1145 | no chain of definitions below a laid-out type repeats, meets the stack or exceeds the depth limit |
| `AafTypeLaws.DepthIsLongestChain` | src/aaf_meta_qc.rs:1122-1239 | the returned depth is the starting depth plus the longest chain of definitions |
| `AafTypeLaws.BlameIsDeserved` | src/aaf_meta_qc.rs:1122-1145 | a cycle, a missing definition or excess depth is reported only where there is one |
| `AafTypeLaws.FiniteGraphsLayOut` | src/aaf_meta_qc.rs:1122-1239 | an acyclic, resolved, shallow graph is laid out unless a storage form or a size is wrong |
| `AafTypeLaws.LayoutTransfers` | src/aaf_meta_qc.rs:1122-1239 | a layout succeeds again from any stack and depth that leave room for it |
| `AafTypeLaws.MeasuringRepeatsLayout` | src/aaf_meta_qc.rs:1241-1247 | after a type is laid out, measuring any part at its depth in validation cannot fail |
| `AafTypeLaws.IntegerMeaning` | src/aaf_meta_qc.rs:1249-1264 | a value of one to eight bytes decodes to two's complement of that width |
| `AafTypeLaws.DecodingCrashes` | src/aaf_meta_qc.rs:1249-1264 | the index-by-index decoder leaves its buffer or its data exactly then, and otherwise gives the sign-extended word |
| `AafTypeLaws.AbortsIff` | src/aaf_meta_qc.rs:975-1264 | some value makes validation crash if and only if an enumeration is over an integer of such a width |
| `AafTypeLaws.AbortIsReached` | src/aaf_meta_qc.rs:975-1264 | a value of one type makes validation crash only through such an enumeration among the definitions the type reaches, or a type that the value names itself |
| `AafTypeCrashes.TypeAbortsIff` | src/aaf_meta_qc.rs:975-1264 | a type has a value that makes validation crash if and only if its definition says so: an undecodable enumeration stands where accepted parts lead to it, and parts are accepted by their definitions too |
| `AafTypeCrashes.TypeAcceptsIff` | src/aaf_meta_qc.rs:975-1120 | a type has an accepted value if and only if its definition says so; an enumeration needs a declared number in the range of its integer type |
| `AafTypeCrashes.SomeInRangeIff` | src/aaf_meta_qc.rs:1000-1013 | some declared number is in that range if and only if some bytes decode into the declared numbers |
| `AafTypeLaws.RepresentableIff` | src/aaf_meta_qc.rs:1249-1264 | a number is what some bytes of a width decode to if and only if the width can be decoded and the number is in its range |
| `AafTypeLaws.OversizedIntegerAborts` | src/aaf_meta_qc.rs:445-450 | a nine-byte integer is kept, laid out and then crashes under an enumeration |
| `AafForms.FormsIff` | src/aaf_meta_qc.rs:1122-1239 | each storage form belongs to exactly the definitions that, looked at through renames, are that reference, stream, or collection of that reference |
| `AafForms.SizeMeans` | src/aaf_meta_qc.rs:1122-1239 | the size of a type, definition by definition, wherever the layout is made |
| `AafForms.LaidOutIff` | src/aaf_meta_qc.rs:1122-1239 | a type can be laid out if and only if what it is built from is acyclic, shallow, all there, and every definition in it can use its parts: sizes where they are needed, no overflow, characters of one, two or four bytes |
| `AafForms.MeasuredIff` | src/aaf_meta_qc.rs:1241-1247 | a size is answered exactly for such a type that has a size, and not zero |
| `AafForms.BaselineIntegers` | src/aaf_meta_qc.rs:1695-1707 | the predefined integers are unsigned and then signed, of one, two, four and eight bytes |
| `AafForms.NoOtherIntegers` | src/aaf_meta_qc.rs:1695-1707 | and no other identifier is one of them |
| `AafValues.AcceptedIff` | src/aaf_meta_qc.rs:975-1120 | the validator accepts exactly the values of a type: an array, its elements one after another; a set, different ones; a record, its members; a string, its characters and one more of zeros; an indirect value, a type and a value of it |
| `AafValues.SetMeans` | src/aaf_meta_qc.rs:1031-1048 | a set is accepted if and only if it is accepted elements one after another, no two the same |
| `AafValues.VariableMeans` | src/aaf_meta_qc.rs:1031-1048 | a variable array, whether or not two are the same |
| `AafValues.ArrayMeans` | src/aaf_meta_qc.rs:1013-1030 | a fixed array, exactly as many as it declares |
| `AafValues.RecordMeans` | src/aaf_meta_qc.rs:1064-1085 | a record is accepted if and only if it is accepted members one after another, all of fixed size |
| `AafText.TextIff` | src/aaf_meta_qc.rs:1611-1623 | the units of a two-byte string pass if and only if they are the UTF-16 of Unicode scalar values, none of them zero |
| `AafProperties.ParsePropertyStream` | src/aaf_qc.rs:583-641 | a stream is accepted if and only if it encodes a property list with distinct PIDs, known formats and 16-bit sizes, and then that list is returned |
| `AafProperties.ReadTable` | src/aaf_qc.rs:604-628 | the table loop checks PIDs and formats and adds up the declared sizes |
| `AafProperties.SplitPayload` | src/aaf_qc.rs:629-640 | the payload is cut at the declared sizes with nothing lost |
| `AafProperties.EncodeInjective` | src/aaf_qc.rs:583-641 | no stream encodes two lists |
| `AafIndexes.ParseVectorIndex` | src/aaf_object_qc.rs:573-606 | accepts exactly the encodings of lists of distinct keys and returns the keys |
| `AafIndexes.ParseSetIndex` | src/aaf_object_qc.rs:608-656 | accepts exactly the encodings of entries with distinct local and unique keys and a reference count of one |
| `AafIndexes.VectorInjective` | src/aaf_object_qc.rs:573-606 | no stream encodes two vectors |
| `AafIndexes.SetInjective` | src/aaf_object_qc.rs:608-656 | no stream encodes two sets |
| `AafIndexes.KeysNameDistinctChildren` | src/aaf_object_qc.rs:526-533 | distinct keys, written in hexadecimal, name distinct children of any owner |
| `AafIndexes.HexReadsBack` | src/aaf_object_qc.rs:526-530 | a key stands in a child's name in lower-case hexadecimal, without leading zeros |
| `AafIndexes.ReadKeys` | src/aaf_object_qc.rs:511-525 | keys are read exactly when the index stream is an encoding of the format's kind, and are those of every vector or set that it encodes, in order; they are distinct |
| `AafIndexes.ResolveStored` | src/aaf_object_qc.rs:495-556 | from name and index stream to targets: the list is the child paths of the encoded keys, without a repeated target, and there are no findings exactly when name, index and all targets are good |
| `AafOwnership.ResolveOne` | src/aaf_object_qc.rs:495-571 | one reference resolves to the child paths of its keys, without findings exactly when all exist once; repeats are found exactly when there are any |
| `AafOwnership.ResolveStrongReferences` | src/aaf_object_qc.rs:480-559 | every resolved target is a direct child of its owner, and there are no findings exactly when all references resolve |
| `AafOwnership.CountOwners` | src/aaf_object_qc.rs:164-169 | the map counts every place in every list where a path is named |
| `AafOwnership.OwnershipErrors` | src/aaf_object_qc.rs:170-186 | no errors exactly when each object but the root has one owner |
| `AafOwnership.RootedAtTop` | src/aaf_object_qc.rs:164-186 | then the path components of every object are objects that own each other from the root down |
| `AafOwnership.ObjectsFormATree` | src/aaf_object_qc.rs:164-559 | and that chain of ownership from the root is the only one: the objects form one tree |
| `AafComponents.Walker.Visit` | src/aaf_object_qc.rs:965-1171 | the walk restores the visited set and adds exactly the findings of the specification |
| `AafComponents.Walker.VisitChildren` | src/aaf_object_qc.rs:1009-1068 | a Sequence's running length and transition checks |
| `AafComponents.Walker.VisitSlots` | src/aaf_object_qc.rs:1097-1112 | the lengths that a scope's slots report |
| `AafVarying.ValidateVaryingValue` | src/aaf_object_qc.rs:1217-1251 | the loop counts the known times that do not come after the last known one |
| `AafVarying.CountRepeats` | src/aaf_object_qc.rs:1200-1210 | the set counts the parameters whose definition was there before |
| `AafVarying.VaryingMeans` | src/aaf_object_qc.rs:1217-1251 | there are no findings exactly when there are points and each known time is, by cross products, greater than the known one before it |
| `AafVarying.ComparesRightly` | src/aaf_object_qc.rs:62-76 | the cross products order two numbers rightly exactly when the denominators have the same sign or the numbers are equal |
| `AafVarying.NegativeDenominatorMisjudged` | src/aaf_object_qc.rs:2000-2010 | -1 stored as 1/-1, followed by 0, is reported |
| `AafVarying.VaryingSound` | src/aaf_object_qc.rs:1217-1251 | with denominators of one sign there are no findings exactly when there are points and all known times increase |
| `AafVarying.JudgedRightlyIff` | src/aaf_object_qc.rs:1217-1251 | for given denominators all lists of numerators are judged rightly if and only if the denominators of known times have one sign |
| `AafComponents.RecursionIffCycle` | src/aaf_object_qc.rs:965-981 | on arbitrary references recursion is reported if and only if a cycle of components can be reached |
| `AafComponents.ResolvedNeverRecurses` | src/aaf_object_qc.rs:480-559 | on references that resolution made it never is |
| `AafTimeline.CleanWalk` | src/aaf_object_qc.rs:965-1171 | unless it runs into its own path, a walk finds nothing in either list of findings if and only if every component it can reach is sound by itself and against its children, class by class |
| `AafTimeline.CleanSegment` | src/aaf_object_qc.rs:965-1171 | on acyclic references a segment passes exactly when all below it is sound, for each list of findings |
| `AafTimeline.ResolvedSegment` | src/aaf_object_qc.rs:480-1171 | and so on all references that resolution made |
| `AafTimeline.EdgesAre` | src/aaf_object_qc.rs:998-1164 | the walk leads to the parts of a Sequence, the operands of a group, the slots of a scope, both lists of a selector and the first operation of a transition, if they are there |
| `AafTimeline.ClassSoundIff` | src/aaf_object_qc.rs:996-1215 | a component's parts give no finding of a list exactly when they are sound for its class in that respect |
| `AafTimeline.OperationSound` | src/aaf_object_qc.rs:1141-1156 | a transition gives no finding exactly when its operation, if it is there, names no operands |
| `AafTimeline.TransitionEndsWalk` | src/aaf_object_qc.rs:1141-1164 | from the operation group of a sound transition the walk leads nowhere |
| `AafTimeline.SumMeans` | src/aaf_object_qc.rs:1009-1068 | the running sum: transition findings, whether all was measured, and the exact extent unless it leaves 64 bits |
| `AafTimeline.SequenceSound` | src/aaf_object_qc.rs:998-1076 | a Sequence passes exactly when it is not empty, its transitions lie between components that cover them, and its length is segments minus transitions, saturation apart |
| `AafTimeline.ScopeSound` | src/aaf_object_qc.rs:1086-1119 | a scope passes exactly when it has slots and no two of their known lengths differ |
| `AafTimeline.GroupSound` | src/aaf_object_qc.rs:1174-1215 | an OperationGroup passes exactly when its parameter definitions are distinct and its varying values have none of these findings |
| `AafSourceCycles.ValidateSourceCycles` | src/aaf_object_qc.rs:1335-1362 | a mob is reported if and only if a chain of derivation pairs leads from it back to it, the early exit notwithstanding |
| `AafSourceCycles.CyclesFrom` | src/aaf_object_qc.rs:1344-1361 | the search from one mob ends and finds something exactly when the mob is on a cycle |
| `AafSourceCycles.FollowTop` | src/aaf_object_qc.rs:1346-1360 | each round replaces one stack entry, losing no simple cycle and always losing weight |
| `AafSourceCycles.Expand` | src/aaf_object_qc.rs:1349-1359 | a successor list is followed up to the first that closes a cycle |
| `AafSourceCycles.BuildAdjacency` | src/aaf_object_qc.rs:1336-1342 | successor lists keep every edge, in order and with repeats |
| `AafSourceCycles.CyclesAreChains` | src/aaf_object_qc.rs:1336-1342 | cycles of the successor lists are the closed chains of the given pairs |
| `AafSourceCycles.WeightFalls` | src/aaf_object_qc.rs:1346-1360 | the weight, a sum of (degree+1) to the number of mobs unseen, falls in every round |
| `AafSourceCycles.TrackingMovesOn` | src/aaf_object_qc.rs:1346-1360 | a simple cycle through the start stays represented on the stack until it is closed |
| `Graph.SimpleCycle` | src/aaf_object_qc.rs:1335-1362 | a node on a closed walk is on a simple cycle |
| `Graph.RevisitsIffCycle` | src/adm.rs:1428-1454 | a recursion guarded by a path set meets its own path if and only if a cycle can be reached |
| `BitSyntax.BitReader.ReadBits` | src/aac_qc.rs:1268-1280 | reads most significant bit first, within bounds, or fails and stays |
| `BitSyntax.BitReader.SkipBits` | src/aac_qc.rs:1282-1288 | passes over bits within bounds, or fails and stays |
| `BitSyntax.BitReader.SubReader` | src/aac_qc.rs:1290-1301 | splits the remaining bits into two readers |
| `BitSyntax.BitReader.RemainingBitsAreZero` | src/aac_qc.rs:1319-1327 | answers for all bits left, without moving |
| `BitSyntax.BitOfByte` | src/aac_qc.rs:1273-1278 | bit i of the data is bit 7-i%8 of byte i/8 |
| `BitSyntax.ReadWritten` | src/aac_qc.rs:1341-1351 | reading what was written gives the value back |
| `BitSyntax.WrittenRead` | src/aac_qc.rs:1268-1280 | and what was read is what writing it gives |
| `BitSyntax.PackPads` | src/aac_qc.rs:1341-1355 | whole bytes hold the bits written, then fewer than eight zeros |
| `EscapedValues.ReadEscapeValue` | src/aac_qc.rs:1060-1081 | the reader computes the three-stage decoding |
| `EscapedValues.EscapeRoundTrip` | src/aac_qc.rs:1357-1370 | decoding inverts the writer for every representable value and any widths |
| `EscapedValues.EscapeCanonical` | src/aac_qc.rs:1060-1081 | every decodable string is the writer's output for its value |
| `EscapedValues.EscapePrefixFree` | src/aac_qc.rs:1060-1081 | no bit string decodes two ways |
| `EscapedValues.ReadPayloadLength` | src/aac_qc.rs:500-512 | the loop over 255s computes the length decoding |
| `EscapedValues.LengthRoundTrip` | src/aac_qc.rs:500-512 | decoding inverts the writer of payload lengths |
| `EscapedValues.LengthCanonical` | src/aac_qc.rs:500-512 | every decodable length is the writer's output |
| `EscapedValues.LengthShape` | src/aac_qc.rs:500-512 | that is n/255 bytes of 255 and then n%255 |
| `EscapedValues.LatmGetValue` | src/aac_qc.rs:1224-1234 | reads a byte count and that many bytes, most significant first |
| `EscapedValues.ValueRoundTrip` | src/aac_qc.rs:1224-1234 | a value written in any sufficient number of bytes reads back |
| `LatmReader.NextAsc` | src/aac_qc.rs:1083-1180 | the AudioSpecificConfig reader computes its parse function |
| `LatmReader.NextSync` | src/aac_qc.rs:1131-1152 | eleven bits are looked at and given back when they are not the sync word |
| `LatmReader.NextConfig` | src/aac_qc.rs:538-613 | the StreamMuxConfig reader computes its parse function |
| `LatmReader.PassSubframes` | src/aac_qc.rs:495-526 | payloads are skipped within bounds and counted: subframes times streams, and their samples |
| `LatmReader.ParseAudioMuxElement` | src/aac_qc.rs:479-536 | the element reader computes its parse function on the payload's bits |
| `LatmRoundTrip.AscRoundTrip` | src/aac_qc.rs:1083-1180 | a written configuration reads back if and only if what follows does not look like a sync extension |
| `LatmRoundTrip.AscMisread` | src/aac_qc.rs:1131-1152 | stereo AAC LC ahead of the sync word and any five bits is not read back |
| `LatmRoundTrip.FramingIsNoSync` | src/aac_qc.rs:575-583 | bits that begin with a legal frameLengthType are not a sync word |
| `LatmRoundTrip.FramedMeansNoFalseSync` | src/aac_qc.rs:573-583 | so inside a multiplex configuration the look-ahead never goes wrong |
| `LatmRoundTrip.GetExtension` | src/aac_qc.rs:1119-1130 | the extension of the general-audio fields, written flag by flag for each object type, is passed over to its end |
| `LatmRoundTrip.ConfigRoundTrip` | src/aac_qc.rs:538-613 | any configuration of either version, with any programs and layers, reads back from what is written |
| `LatmRoundTrip.ElementRoundTrip` | src/aac_qc.rs:479-536 | an element with its payloads is accepted exactly when at most seven zero bits are left, with the counts the configuration implies |
| `LatmRoundTrip.CountsArePayloads` | src/aac_qc.rs:495-526 | the counts reported for an element are the number of payloads written and their samples |
| `LatmRoundTrip.RepeatRoundTrip` | src/aac_qc.rs:484-491 | the same for an element that repeats the previous configuration |
| `LatmBytes.BytesRoundTrip` | src/aac_qc.rs:1399-1422 | an element packed into whole bytes is accepted and gives back configuration, access units and samples |
| `LatmBytes.BytesOutcome` | src/aac_qc.rs:527-529 | packed with any bits after its payloads, it is judged by those bits and the padding |
| `LatmBytes.OtherDataOutcome` | src/aac_qc.rs:591-604 | an element that carries the other data it announces is accepted if and only if data and padding are at most seven zero bits |
| `LatmBytes.OtherDataRefused` | src/aac_qc.rs:591-604 | one with eight bits of other data is refused, whatever they are |
| `LatmCanonical.CanonAsc` | src/aac_qc.rs:1083-1180 | every AudioSpecificConfig that is read was written, with the meaning it is given |
| `LatmCanonical.CanonConfig` | src/aac_qc.rs:538-613 | and so every configuration |
| `LatmCanonical.CanonSubframes` | src/aac_qc.rs:495-526 | and all payloads that are passed over |
| `LatmCanonical.AcceptedIff` | src/aac_qc.rs:479-536 | an element is accepted with an outcome if and only if it was written with that meaning and padded with at most seven zeros, by itself or repeating the configuration before |
| `LatmStandard.ParsedStreamsLegal` | src/aac_qc.rs:575-588 | every stream that is parsed is variable-length or has a fixed length, and there is one |
| `LatmStandard.StandardOrderIff` | src/aac_qc.rs:497-526 | with the same time framing, a subframe of all lengths first and then all payloads is read rightly, for all payloads, if and only if only streams of fixed length zero stand before a variable-length one |
| `LatmStandard.StandardOrderMisread` | src/aac_qc.rs:497-526 | two variable-length streams with payloads 0xff and nothing are not read |
| `LatmStandard.FixedLengthIff` | src/aac_qc.rs:513-522 | a fixed payload is passed over rightly if and only if its field is its length in bytes |
| `LatmStandard.StandardIff` | src/aac_qc.rs:497-526 | with the same time framing and fixed payloads of twenty bytes more as well, subframes of only one variable-length stream, or none, are read rightly for all payloads |
| `LatmElements.StandardElementsIff` | src/aac_qc.rs:495-530 | the subframes of an element, in the layout of either time framing, are passed over rightly, whatever they carry, if and only if the streams have the same time framing and there is one, of variable length |
| `LatmElements.ParsedElementsIff` | src/aac_qc.rs:479-536 | and exactly then all elements that bring such a configuration are parsed with the outcome that the bits after the payloads deserve |
| `LatmElements.RepeatedElementsIff` | src/aac_qc.rs:484-536 | and all that repeat it |
| `LatmElements.ChunkMisread` | src/aac_qc.rs:495-526 | one stream of variable length without the same time framing, with an empty payload in one chunk, is refused |
| `LoasScan.Audit` | src/aac_qc.rs:326-397 | the scan passes if and only if all of the file is read as elements that parse in turn, within the limit; whatever happens, every count is that of all elements up to the limit, and the one flag cleared says what stands where it stopped |
| `LoasScan.NextPayload` | src/aac_qc.rs:340-367 | the header checks find exactly the payload framed at the front, or what is wrong there |
| `LoasScan.FrameIsFront` | src/aac_qc.rs:1422-1429 | a written frame of legal size is found, with its payload |
| `LoasScan.AcceptedFiles` | src/aac_qc.rs:326-397 | a file is read to its end if and only if it is payloads framed one after another that parse in turn, and then in one way only |
| `AdtsScan.Audit` | src/aac_qc.rs:144-240 | the scan passes if and only if the file is a sequence of at most the limit of well-formed frames; every count is that sequence's; a stopped scan counted all frames up to the limit or to where none begins, and the one flag cleared says what stands there |
| `AdtsScan.NextFrame` | src/aac_qc.rs:153-205 | the header checks find exactly the frame at the front, or what is wrong there |
| `AdtsScan.StreamUnique` | src/aac_qc.rs:144-240 | a file is a sequence of frames in at most one way |
| `AdtsScan.TalliesStep` | src/aac_qc.rs:206-239 | each frame moves bytes, samples, fullness and configuration counts in step |
| `AdtsScan.FrameRoundTrip` | src/aac_qc.rs:1373-1396 | a written frame, whatever its header fields, is well formed if and only if rate and length fit, and MPEG id, profile, rate, channels, fullness, raw blocks and payload read back |
| `Aes31Time.AcceptedLabelIff` | src/aes31_qc.rs:1155-1195 | a label is accepted exactly when its parts are in range, the remainder being less than a frame takes, and in drop mode the rate can drop and the label is none that it drops |
| `Aes31Time.NeverUnderflows` | src/aes31_qc.rs:1173-1199 | the checked subtraction of dropped labels never fails |
| `Aes31Time.FrameNumbersIncrease` | src/aes31_qc.rs:1155-1201 | later accepted labels have greater frame numbers |
| `Aes31Time.EveryNumberHasALabel` | src/aes31_qc.rs:1155-1201 | every frame number is some accepted label's: no number is skipped |
| `Aes31Time.LabelsAreNumbers` | src/aes31_qc.rs:1155-1201 | and it is only that label's: no number is hit twice |
| `Aes31Time.PositionIsExact` | src/aes31_qc.rs:1172-1199 | a position is the number of frames times the samples of one, and the remainder |
| `Aes31Time.PositionsIncrease` | src/aes31_qc.rs:1173-1199 | with the remainder in samples, exact positions increase strictly at every rate and mode |
| `Aes31Lexer.Lex` | src/aes31_qc.rs:640-746 | the loop with its quote state computes the lexing function, limits included |
| `Aes31Lexer.WrittenIsLexed` | src/aes31_qc.rs:640-746 | lexemes written with names in any case, any blank space and any quoted text in values are read back, in capitals, without errors |
| `Aes31Lexer.SpelledUpper` | src/aes31_qc.rs:701-726 | a name in any case stands for the one in capitals |
| `Aes31Lexer.QuotedIsQuiet` | src/aes31_qc.rs:655-672 | any text in quotes, with a backslash before each quote and backslash, opens no marker and leaves no quote open |
| `Aes31Lexer.QuotedRecordIsRead` | src/aes31_qc.rs:640-746 | a record whose value is any such text is read back |
| `Aes31Lexer.WrittenDocumentIsRead` | src/aes31_qc.rs:640-841 | from text to document: the sections written come back, without errors |
| `Aes31Lexer.CutTextIsLexed` | src/aes31_qc.rs:640-746 | a text cut into markers and gaps gives the lexemes of its well-named markers and exactly its stray gaps and bad names as errors, unless it breaks a limit |
| `Aes31Lexer.CleanTextsExactly` | src/aes31_qc.rs:640-746 | a text is lexed without errors if and only if it can be cut into well-named markers and gaps without visible stray text, within the limits |
| `Aes31Lexer.ErrorFreeDocuments` | src/aes31_qc.rs:640-841 | neither lexer nor parser reports an error if and only if it can be so cut and its markers follow the grammar of documents |
| `Aes31Lexer.UncutFails` | src/aes31_qc.rs:694-743 | a text with an unfinished marker or quote has an error |
| `Aes31Lexer.AllStrayTextReported` | src/aes31_qc.rs:671-692 | the lexer reports all text outside records if and only if each piece of it has a marker after it and something but blank space after its last closing character |
| `Aes31Lexer.StrayTextReported` | src/aes31_qc.rs:684-692 | and otherwise fewer pieces of it than there are |
| `Aes31Lexer.StrayMissed` | src/aes31_qc.rs:684-692 | an input with two pieces of stray text and no error |
| `Aes31Document.ParseDocument` | src/aes31_qc.rs:748-841 | the loop reports no error if and only if the lexemes are in the grammar, and counts every record |
| `Aes31Document.ExactGrammar` | src/aes31_qc.rs:748-841 | the grammar: nothing at all, or one root around matched, unnested sections of records |
| `Aes31Document.TextIsRead` | src/aes31_qc.rs:748-841 | the text of any sections parses to those sections |
| `Aes31Document.CleanRunSpells` | src/aes31_qc.rs:748-841 | while there are no errors the state spells out the lexemes read |
| `Aes31Document.RecordsAccountedFor` | src/aes31_qc.rs:748-841 | in every run each record is in one section, in order, or reported, in order |
| `AdmObjects.Visiting.ObjectDepth` | src/adm.rs:1428-1454 | the guarded recursion computes the depth function and restores its path set |
| `AdmObjects.DepthFailsIffCycle` | src/adm.rs:1428-1454 | an error if and only if a cycle can be reached |
| `AdmObjects.DepthIsLongestPath` | src/adm.rs:1428-1454 | otherwise the number of nodes on the longest path |
| `AdmObjects.NestingRule` | src/adm.rs:1391-1426 | all depths within the limit means no walk of references is longer |
| `AdmObjects.ValidateObjectGraph` | src/adm.rs:1391-1426 | the rule passes if and only if no path of declared objects, each named by the one before, is longer than six; then none is closed and the longest has the reported depth |
| `AdmObjects.DeclaredPathsAreWalks` | src/adm.rs:1441-1447 | leaving out undeclared references leaves exactly those paths |
| `AdmObjects.ReachableObjects` | src/adm_presentation_qc.rs:947-962 | the worklist ends with exactly the objects reachable from the roots, on cyclic references too |
| `AdmInventory.CollectGroups` | src/adm_presentation_qc.rs:405-438 | groups are accepted exactly when references are known and no object is in two places of any groups |
| `AdmInventory.EnterMembers` | src/adm_presentation_qc.rs:424-433 | the membership map detects exactly repeated members |
| `AdmInventory.ProgrammeItem` | src/adm_presentation_qc.rs:443-480 | a programme's reachable objects, the groups they touch and the checked product of choices |
| `AdmInventory.CountChoices` | src/adm_presentation_qc.rs:476-480 | overflow is reported exactly when the true product does not fit |
| `AdmInventory.InventoryFrom` | src/adm_presentation_qc.rs:391-514 | a document is accepted exactly when it is well formed, its loudness metadata can be read and its true number of presentations is within the limit |
| `AdmProgrammes.ObjectsAcceptableIff` | src/adm_presentation_qc.rs:405-438 | the objects are accepted exactly when their references are declared, complements are named once and are not the object itself, and no object is a candidate of two groups |
| `AdmProgrammes.PathsAreDeclared` | src/adm_presentation_qc.rs:405-464 | every object on a path of an accepted programme is declared |
| `AdmProgrammes.ObjectsAre` | src/adm_presentation_qc.rs:452-464 | the objects of a programme are exactly those to which a path of references leads from an object that one of its contents names |
| `AdmProgrammes.GroupsMet` | src/adm_presentation_qc.rs:465-475 | a group is the programme's exactly when such a path leads to any of its candidates |
| `AdmProgrammes.InventoryDescribes` | src/adm_presentation_qc.rs:440-514 | each item of the inventory has these objects and, each once, these groups: an object first and then its complements in order |
| `AdmEnumeration.EnumerateVariants` | src/adm_presentation_qc.rs:769-803 | the nested loops compute the enumeration, both error cases included |
| `AdmEnumeration.Expand` | src/adm_presentation_qc.rs:776-784 | one round extends every combination by every candidate, candidates fastest |
| `AdmEnumeration.EverySelectionChosen` | src/adm_presentation_qc.rs:769-803 | every choice of one candidate per group is listed |
| `AdmEnumeration.ChoicesOrdered` | src/adm_presentation_qc.rs:769-803 | choices stand in lexicographic order of candidate positions |
| `AdmEnumeration.ChoicesCounted` | src/adm_presentation_qc.rs:769-803 | there are as many as the inventory's product |
| `AdmEnumeration.EnumerationExact` | src/adm_presentation_qc.rs:391-803 | for every accepted document the same limit never fails, and the list is complete, ordered, without repeats and of the promised length |
| `AdmEnumeration.PresentationsDiffer` | src/adm_presentation_qc.rs:405-803 | two presentations of a programme that switch on the same objects are one |
| `AdmImportance.AuditImportance` | src/adm_semantics_qc.rs:967-1050 | one pass counts stated, unstated and invalid values by kind of element; the objects' ranks are sorted by id |
| `AdmImportance.AuditedObjects` | src/adm_semantics_qc.rs:999-1049 | every object is there once, in the order of ids, equal ids as they stand, and a value is kept only when valid and at most ten |
| `AdmImportance.RanksAreStated` | src/adm_semantics_qc.rs:1031-1049 | for each id as many ranks have a value as objects state it, and as many have none as state no number from 0 to 10 |
| `AdmImportance.BuildPlan` | src/adm_semantics_qc.rs:1080-1164 | the least threshold in 0..10 that meets the target is selected, with the step table and discards of that threshold |
| `AdmImportance.RetainedFalls` | src/adm_semantics_qc.rs:1088-1110 | a higher threshold never retains more |
| `AdmImportance.DiscardsAreTheRest` | src/adm_semantics_qc.rs:1088-1124 | discards are exactly the objects not retained, and never protected ones |
| `AdmImportance.LeastThresholdDiscardsLeast` | src/adm_semantics_qc.rs:1105-1124 | the selected threshold's discards are among those of any higher one |
| `AdmImportance.AchievableIff` | src/adm_semantics_qc.rs:999-1164 | the target can be met if and only if the protected objects are at most that many |
| `AdmImportance.PlanFromDocument` | src/adm_semantics_qc.rs:943-1164 | from the elements as they stand: the plan of their sorted ranks, with everything that a plan promises, and the discards in the order of their ids |

## Left out

- Files, processes, hashing, temporary directories, report assembly, message texts and the cap on
  reported findings; a finding is a count or an abstract value.
- Libraries that the code calls: XML, compound-file and URL parsing. The models start from parsed
  definitions, stored objects and text.
- Eac3Audit.State.UpdateState: the configuration, JOC and inventory fields are left out, because
  each is one comparison with the first frame's value or one count.
- Eac3Audit.Audit: starts from parsed frames; header parsing, frame sizes, byte order and the exits
  they lead to are not modelled.
- Numeric limits of counters that only bound the size of a stream: hours in AES31 labels, sample
  totals and payload lengths are unbounded where the code uses 64-bit arithmetic.
- Aes31Time.PositionsIncrease: positions are exact fractions, so the rounding of the code's doubles
  is not modelled.
- AafVarying.JudgedRightlyIff: numerators and denominators are unbounded where the file's are of 32
  bits, because a long list of small denominators may have no increasing numerators of that width.
- Aes31Lexer.Lex: line numbers are not modelled.
- Reading digits and separators of a time label: a label is its five numbers and whether a
  semicolon was seen. `split_fields` and the meaning of records are not modelled.
- The USAC configuration apart from escaped values, and channel layouts of ADTS and LATM reports.
- Weak references, unique identifiers, essence checks and source clips of AAF files.
- UTF-16 decoding of reference names and the text form of identifiers: names are given as decoded
  text, or as absent when they are not text.
- The choice between storage forms and stored formats of properties: forms are what layout answers.
- The order of hash-map iteration: owners are counted in an arbitrary order.
- AdmInventory.InventoryFrom: which of several errors is returned first is not stated, because the
  caller only distinguishes success from failure; names, languages and the values of loudness
  metadata are left out of the inventory, and whether that metadata can be read is given.
- AdmImportance.AuditImportance: the list of single entries for the report is left out.
- AdmInventory.CollectGroups: the final sort of groups by root is not modelled, because objects are
  taken in the order of their ids and the groups are in that order already.
- Profile, bitrate and range tables in other files: single-branch checks that would add only easy
  members.
