# Verified model of wire-repr

`wire-repr` reads and writes binary formats without building an object tree, so its
correctness is that byte ranges, offsets and counts always agree. This project models, in
Dafny 4.11, the parts where that agreement is hard and proves it for all inputs: compact
geometry of recursive arrays, recursive body grammars, fragmented selections, progressive
output, counted arrays, the sequential schema compiler, bitfields and variable integers.

`dafny verify dfyconfig.toml` checks everything.

## Layout

| part | files |
|---|---|
| shared arithmetic, words and results | `Base`, `Arith`, `Bits`, `Errors`, `Widths` |
| compact geometry: storage, lookup, construction | `GeometryStorage`, `GeometryLookup`, `RecursiveGeometry`, `GeometryRuns`, `GeometryRanked`, `GeometryFactor`, `GeometryShape`, `GeometryPasses`, `GeometryBuild` |
| recursive grammars: reference reading, step machine, signatures, direct framing, views, writer, writing back, cases | `Grammar`, `RecursiveSteps`, `RecursiveSignature`, `RecursiveMeaning`, `RecursiveMachine`, `RecursiveFrames`, `Locality`, `RecursiveArrays`, `RecursiveExtent`, `RecursiveCases`, `RecursiveWriter`, `RecursiveRewriting` |
| fragmented selections | `Selection` |
| progressive output | `Output`, `Writers`, `OutputRuns`, `ArrayWriters` |
| counted arrays | `Arrays` |
| sequential schemas: embedding, framing, detached builder, building back | `SequentialSchema`, `SequentialFrame`, `SequentialWriter`, `SequentialRebuild` |
| bit-level arithmetic | `Bitfield`, `Integers` |

Generated code is modelled as an interpreter of the schema that generates it: a recursive
root is a `Grammar`, a sequential schema a list of `Field`. Ordinary child schemas appear as
framing functions under the contract the library asks of them (bounded, deterministic, blind
to the bytes after the item). Objects the library updates in place are classes; loops are
methods with invariants.

## How the results connect

* Recursive roots have one reference reading, `Grammar.ParseRoot`. The stack driver
  (`RecursiveMachine.Skip`) succeeds exactly when it does, with its extent; so does the direct
  form (`RecursiveExtent.FrameRoot`), except on a root whose body is an array on which the
  geometry builder panics (below). The driver also reports a signature and a nesting depth;
  both are functions of the tree that was read (`RecursiveSignature.RootTrace`). The staged
  writer is proved to emit `RecursiveWriter.Encode`, and `RootReads` says that the reference
  reading of an encoding, whatever follows it, gives the tree back exactly when the depth
  budget covers it. Conversely whatever is read can be written: a tree has an encoding
  exactly when some bytes read as it (`RecursiveRewriting.EncodesExactly`). Where the parts of
  a root lie is stated by their positions (`Grammar.RootLies`, `ArrayLies`, `FieldsLie`,
  `DemandLies`), and the signature as a fold (`RecursiveSignature.SignatureIsFold`).
* Each geometry encoding has a predicate saying which widths its 356 bytes describe. Lookup
  is proved against the predicate, and the builder to establish it, with two exceptions that
  are stated exactly on what the items measure (below). `RecursiveExtent.FrameArray` joins the
  driver, the builder and the choice. `RecursiveArrays.FramedView` says that lookup in the view
  that results finds the items that iteration yields if and only if no shape was kept wrongly;
  if none was, random access and iteration yield the same items, up to the first one that
  panics (`RecursiveArrays.WalkBoth`).
* Output operations refine appending and splicing on a sequence. `OutputRuns.Run` lifts this
  to whole runs on any output. An output is obliging when it is fixed, when its growable
  target, limited or not, accepts what it is offered, or when its callback exposes the minimum
  it is asked for. On an obliging output every operation, up to whole builders, succeeds
  exactly when its result fits the capacity: the exposed bytes of a fixed output, the limit of
  a bounded one, and `usize` otherwise.
* What a sequential format says of its fields is stated without the functions that compute
  it: a field starts at the first position that leaves room for its padding and is aligned, at
  its static position or where its controller says (`SequentialSchema.StartsAt`). The layout
  `SequentialSchema.Emit` is exactly that, with zeros between the fields (`LayoutIs`). The
  detached builder leaves the layout of the build's values in its region, count patches
  included, and can write exactly the regions in which consistent values lie
  (`SequentialRebuild.BuildsExactly`). Exact framing accepts an input exactly when its fields
  lie in it (`SequentialFrame.FrameAccepts`), and otherwise names the first field that does not
  and what is wrong with it (`FrameRefuses`).

## Where the code does not meet a property

* Recursive-shape summaries. While walking, an item whose 16-bit signature matches a class of
  another width ends the candidate, but for items after the first 64 the next assignment
  overwrites that (wire-repr/src/recursive/geometry/build.rs:254-259 and 293-296), so a summary
  can be kept that does not describe the widths. `RecursiveExtent.FrameRecursiveArrayExtent`
  states exactly when: `GeometryBuild.WrongShape` of the measures, that is, more than 256
  items, all below 2^16 bytes and the first one nested; widths neither equal nor in arithmetic
  progression; among the first 64 items one width for each signature; every later item of the
  signature that the shortest period of the first 64 gives it; and some item wider or narrower
  than the item it repeats. Lookup then first misses the first such item
  (`RecursiveArrays.FramedView`). No hash collision is needed: the kept 16 bits of a signature
  do not depend on the width of the last leaf below 2^28 bytes
  (`RecursiveSignature.LastLeafForgotten`), and payload and demand lengths are not mixed in at
  all (`RootSkeleton`). `RecursiveCases.LookUpColliding` frames such bytes: an array of 256
  one-leaf arrays and a last one whose leaf is a byte longer, which iteration yields and lookup
  and random access do not find.
* A remainder by zero. An item wider than 32 bits is passed over, but the shape candidate stays
  alive. If the 64th item is passed over, the period is never set, and the first later item
  below 2^16 bytes divides by it (wire-repr/src/recursive/geometry/build.rs:103-107 and
  293-295). `GeometryBuild.PanicsAt` is the exact condition on the measures: more than 256
  items, the first one nested and at most 32 bits wide; of the first 63, those at most 32 bits
  wide below 2^16 bytes and of one width for each signature; a wider 64th item, and a first
  later item that is not wider and is below 2^16 bytes. The direct form of a root whose body is
  such an array panics (`RecursiveExtent.RootPanics`), although the driver skips it, and so do
  random access and iteration at an item that is such a root.
  `RecursiveCases.FramePanicking` and `GetPanicking` are inputs.
* Fixed-width array items. Iteration cuts each item to its width, the walk offers the whole
  suffix. For schemas whose representations have the declared width
  (wire-repr/src/schema.rs:64-65), the two agree on every array if and only if framing an item
  cut to its width and framing it before any items that iterate cleanly succeed alike
  (`Arrays.WalkFixedExactly`). `Arrays.CutAndWholeDiffer` is a schema on which they differ: it
  declares a width, overrides the leading extent a declared width has by default
  (wire-repr/src/schema.rs:68), and rejects longer spans.
* Sequential schemas with an array that other fields follow. The builder writes any items;
  framing needs items with a leading extent unless the array is empty.
  `SequentialFrame.FrameInvertsLayout` has this as its exact condition, and
  `SequentialWriter.InnerTailsRefused` is a layout that is written and refused.
* Final arrays of items that take the whole span. They are written and framed with their count,
  but only a single item reads back (`ArrayWriters.SpanItemsReadBack`);
  `SequentialWriter.FinalTailsMerge` shows two items written and one read.

## Model

| member | source | states |
|---|---|---|
| GeometryStorage.SetCode | wire-repr/src/recursive/geometry/storage.rs:76-90 | read-back gives the code, every other code of the region is kept, and only the one or two bytes under the six bits change |
| GeometryStorage.OthersKept | wire-repr/src/recursive/geometry/storage.rs:67-90 | replacing the six bits of one code leaves every other code of the packed region as it was |
| GeometryStorage.CodesStayInRegion | wire-repr/src/recursive/geometry/storage.rs:25-31 | no code of the ranked or packed region reaches the palette before it or the block prefixes after it |
| GeometryLookup.AxisExact | wire-repr/src/recursive/geometry/lookup.rs:121-149 | the cycles/before/tail closed form of one axis is the sum of that axis's components over all earlier items |
| GeometryLookup.FactorSumByAxes | wire-repr/src/recursive/geometry/lookup.rs:121-149 | the sum of the item widths predicted by base and four components equals the base share plus the four axis sums, for every item count |
| GeometryLookup.FactorPrefix | wire-repr/src/recursive/geometry/lookup.rs:121-149 | the loop over axes returns the start of item `n` on every described tiling; every sum and every product it computes on the way fits `i128` |
| GeometryLookup.FixedSpanExact | wire-repr/src/recursive/geometry/lookup.rs:9-66 | the fixed arm gives exactly the item's range and never overflows on a tiled span |
| GeometryLookup.FormulaSpanExact | wire-repr/src/recursive/geometry/lookup.rs:9-66 | the quadratic start formula and the linear width give exactly the item's range, products included in `i128` |
| GeometryLookup.IntervalSpan | wire-repr/src/recursive/geometry/lookup.rs:69-95 | the scan over interval events finds the item's range |
| GeometryLookup.RankedSpan | wire-repr/src/recursive/geometry/lookup.rs:97-118 | block prefix plus palette widths of the codes in the block give the item's range |
| GeometryLookup.FactorizedSpan | wire-repr/src/recursive/geometry/lookup.rs:9-66 | consecutive factor prefixes delimit the item |
| GeometryLookup.ShapeSpan | wire-repr/src/recursive/geometry/lookup.rs:152-181 | whole cycles plus the classes before the item give the range that the table of shapes says, for any table |
| GeometryLookup.ShapeRangeExact | wire-repr/src/recursive/geometry/lookup.rs:152-181 | that range is the item's, for every item, if and only if the table describes all widths |
| GeometryLookup.PeriodicSpan | wire-repr/src/recursive/geometry/lookup.rs:184-211 | whole cycles of runs, whole runs and items of the last run give the item's range; the products stay at or below the input length |
| GeometryLookup.PackedSpan | wire-repr/src/recursive/geometry/lookup.rs:214-259 | block prefix of packed runs plus whole runs and items give the item's range |
| GeometryRuns.PushKeeps | wire-repr/src/recursive/geometry/build.rs:306-334 | after every item the ended runs, their common length and the periods still possible are those of the widths seen |
| GeometryRuns.CompleteKeeps | wire-repr/src/recursive/geometry/build.rs:299-334 | ending the last run keeps them, and the run count is the number of maximal runs |
| GeometryRanked.PushRanked | wire-repr/src/recursive/geometry/build.rs:126-174 | recording one item extends a palette, class and block-start summary of all items before it |
| GeometryFactor.SetFactorComponent | wire-repr/src/recursive/geometry/storage.rs:56-65 | the component gets its value and flag, all 119 others keep both |
| GeometryFactor.PushFactor | wire-repr/src/recursive/geometry/build.rs:205-235 | while valid, every item seen is predicted by components that will not change again |
| GeometryShape.NextPrefix | wire-repr/src/recursive/geometry/build.rs:262-273 | following borders of borders gives the longest border of one more code, if it was given the longest ones |
| GeometryShape.PeriodIsShortest | wire-repr/src/recursive/geometry/build.rs:275-292 | the period at the 64th code is the shortest period of the first 64 signatures |
| GeometryShape.PushShape | wire-repr/src/recursive/geometry/build.rs:237-297 | a candidate survives one of the first 64 items exactly when it has a class and its width, and a later item exactly when it is narrow and repeats the signature, whatever its width; it divides by zero exactly when the 64th item was passed over and this one has a class |
| GeometryShape.ShapeDescribesExactly | wire-repr/src/recursive/geometry/build.rs:237-297 | a kept summary describes the widths if and only if every item has the width of the item its place in the period repeats |
| GeometryPasses.BuildIntervals | wire-repr/src/recursive/geometry/build.rs:591-633 | a built interval summary describes the widths, and one is built whenever at most 24 runs fit 32-bit starts |
| GeometryPasses.BuildRecursiveShape | wire-repr/src/recursive/geometry/build.rs:501-589 | a shape is built by the second walk if and only if the widths fit 16 bits, signatures tell them apart, there are at most 64 and they repeat with a period up to 64; it describes the widths |
| GeometryPasses.BuildPackedRuns | wire-repr/src/recursive/geometry/build.rs:635-734 | packed runs are built if and only if runs end exactly at multiples of the run length, are few enough, have few 16-bit widths and start below 2^32 at every block; they describe the widths |
| GeometryPasses.BuildFactorized | wire-repr/src/recursive/geometry/build.rs:736-764 | a factorisation is built if and only if every width is the first one plus what each of its digits adds on its own, within 16 bits, and some digit beyond the first axis adds something; it describes the widths |
| GeometryBuild.GeometryBuilder.Push | wire-repr/src/recursive/geometry/build.rs:94-203 | one observation keeps what every encoding in play has established, says exactly whether the shape candidate is alive, passes over an item wider than 32 bits and goes on, and panics exactly when there is no period to divide by |
| GeometryBuild.Choose | wire-repr/src/recursive/geometry/build.rs:374-499 | whichever encoding is selected describes the widths if and only if the walk did not keep a shape it should not have, a condition on the measures alone |
| Base.ByteOrder | wire-repr-macros/src/derive/schema/mod.rs:238-244 | one more byte is the most significant digit of a little-endian string when it comes last, and the least significant one of a big-endian string; no bytes are zero |
| Grammar.ScalarMeans | wire-repr-macros/src/derive/schema/mod.rs:238-244 | an unsigned scalar is the number its bytes spell, a signed one is that number or the one a whole range below it, whichever lies in the signed range |
| Grammar.RepresentableExactly | wire-repr-macros/src/derive/schema/mod.rs:246-252 | the values a scalar can store are exactly those some bytes of its width decode to |
| Grammar.CheckedAlignIsFirst | wire-repr/src/schema.rs:260-270 | alignment gives the first multiple at or after the position, exactly when the alignment is not zero and some multiple fits `usize` |
| Grammar.ScalarPositionIsFirst | wire-repr-macros/src/derive/schema/recursive_demand.rs:306-346 | a placed scalar starts at the first position that leaves room for the padding and is a multiple of the alignment, and has none exactly when there is no such position |
| Grammar.RootLies | wire-repr-macros/src/derive/schema/enumeration/recursive/skip.rs:309-399 | a root that reads is a selector in the declared byte order that names a variant, then the body of that variant one level deeper; a unit is empty and a leaf is what its schema frames there |
| Grammar.ArrayLies | wire-repr-macros/src/derive/schema/recursive.rs:447-498 | an array body that reads is a stored count of at most 32 bits and that many roots, each where the one before it ends |
| Grammar.FieldsLie | wire-repr-macros/src/derive/schema/recursive_object.rs:249-293 | the fields of an object that reads lie one after the other, each a root, an integer or bytes of its width |
| Grammar.DemandLies | wire-repr-macros/src/derive/schema/recursive_demand.rs:282-346 | a demand body that reads is its stored length, the left child, that many bytes, the scalar at the first allowed position counted from the body start, and the right child |
| RecursiveSteps.PackedRoundTrip | wire-repr-macros/src/derive/schema/recursive_demand.rs:77-152 | what a demand continuation packs after the left child is what it unpacks |
| RecursiveMeaning.TransitionAgrees | wire-repr-macros/src/derive/schema/recursive_object.rs:249-293 | an object transition advances over the fields up to the next recursive one exactly as reading them does |
| RecursiveMeaning.StartAgrees | wire-repr-macros/src/derive/schema/recursive_demand.rs:282-304 | starting any recursive body is done, a child with a continuation, or an error just as the reference reading goes |
| RecursiveMeaning.ResumeAgrees | wire-repr-macros/src/derive/schema/recursive_demand.rs:306-346 | resuming any continuation agrees with what its body still has to read |
| RecursiveMeaning.ArrayResumeAgrees | wire-repr-macros/src/derive/schema/recursive.rs:447-498 | the remaining-count continuation agrees with reading the remaining items |
| RecursiveMeaning.ObjectResumeAgrees | wire-repr-macros/src/derive/schema/recursive_object.rs:118-142 | resuming an object at a recursive field agrees with reading the fields after it |
| RecursiveMachine.EnterMoves | wire-repr-macros/src/derive/schema/enumeration/recursive/skip.rs:100-343 | entering a root keeps the invariant of the driver: what is open still adds up to the extent and the trace of the outermost root |
| RecursiveMachine.ResumeMoves | wire-repr-macros/src/derive/schema/enumeration/recursive/skip.rs:345-396 | resuming the innermost body keeps it |
| RecursiveMachine.Skip | wire-repr-macros/src/derive/schema/enumeration/recursive/skip.rs:309-399 | the stack driver terminates and returns the extent, signature and nesting depth of the tree that the reference reading reads, or fails exactly when that fails, for any mix of bodies at any depth |
| RecursiveSignature.SignatureIsFold | wire-repr-macros/src/derive/schema/enumeration/recursive/skip.rs:100-230 | the signature of a recursive root folds the selectors, unit ends and leaf widths below it, in reading order, into the seed; a unit or leaf root has none |
| RecursiveSignature.MixApart | wire-repr-macros/src/derive/schema/enumeration/recursive/skip.rs:110-114 | one mixing step keeps states that differ, and words that differ, apart |
| RecursiveSignature.PassesApart | wire-repr-macros/src/derive/schema/enumeration/recursive/skip.rs:100-230 | a kept signature tells roots of different selectors and leaves of different widths apart; a unit counts as an empty leaf |
| RecursiveSignature.LastLeafForgotten | wire-repr-macros/src/derive/schema/enumeration/recursive/skip.rs:207-230 | the low 16 bits of a signature do not depend on the width of the last leaf mixed in, below 2^28 bytes |
| RecursiveSignature.RootSkeleton | wire-repr-macros/src/derive/schema/enumeration/recursive/skip.rs:100-230 | signature and nesting depend on selectors, children and leaf widths only |
| RecursiveWriter.NestedIsHeight | wire-repr-macros/src/derive/schema/enumeration/recursive/skip.rs:180-185 | the nesting depth is the height of the tree below its root, saturating at 32 bits |
| Locality.RootLocal | wire-repr/src/schema/sequence.rs:19-26 | a reading depends only on the bytes it consumes |
| Locality.ExactSpan | wire-repr/src/recursive.rs:172-183 | the exact span of a framed root reads as that root, all of it |
| RecursiveFrames.FrameObject | wire-repr-macros/src/derive/schema/recursive_object.rs:295-368 | the direct form of an object succeeds exactly when the reference reading does and keeps the boundary of every field |
| RecursiveFrames.FrameDemand | wire-repr-macros/src/derive/schema/recursive_demand.rs:348-459 | the seven offsets of a demand body delimit its stored length, children, bytes and placed scalar, or both forms fail |
| RecursiveExtent.FrameArray | wire-repr-macros/src/derive/schema/recursive.rs:506-555 | framing a counted body panics exactly when its items make the builder panic; otherwise it succeeds exactly when count and items read, and keeps a fresh geometry that describes the items but for a shape kept wrongly |
| RecursiveExtent.FrameRoot | wire-repr-macros/src/derive/schema/enumeration/recursive.rs:188-246 | direct framing of a root panics exactly when its body is an array that does, and otherwise agrees with the reference reading at one more level |
| RecursiveFrames.MeasureAll | wire-repr/src/recursive/geometry/build.rs:766-815 | measuring consecutive roots succeeds exactly when they read, and reports the measures of the roots that tile them |
| RecursiveArrays.ReplaySpan | wire-repr/src/recursive/geometry/lookup.rs:262-312 | replay finds the range between reading `i` and `i + 1` items, or fails when they do not read |
| RecursiveArrays.Span | wire-repr/src/recursive/geometry/lookup.rs:9-66 | every encoding that describes the items, replay included, gives the range of the tiling, a table of shapes what it says, and None past the end |
| RecursiveArrays.LocatedExactly | wire-repr/src/recursive/geometry/lookup.rs:9-66 | lookup finds every item if and only if the geometry describes the widths |
| RecursiveArrays.Get | wire-repr/src/recursive.rs:542-589 | random access frames the range that lookup found: it panics exactly when that root does, and otherwise yields that range exactly when it reads as one root, all of it |
| RecursiveArrays.RootPanicsLocal | wire-repr/src/recursive.rs:542-589 | whether a root that reads panics depends on its own bytes, so random access and iteration panic on the same items |
| RecursiveArrays.ArrayIter.Next | wire-repr/src/recursive.rs:630-694 | the next root, the end, one trailing-bytes failure, one item failure after which nothing is yielded, or a panic exactly when framing the root panics |
| RecursiveArrays.WalkBoth | wire-repr/src/recursive.rs:542-694 | iteration and random access yield the same tiling of the input on a view whose geometry describes the items: all of it if and only if no item panics, and otherwise up to the first that does |
| RecursiveExtent.FrameRecursiveArrayExtent | wire-repr/src/recursive/geometry/build.rs:345-372 | on any bytes, framing a counted array panics exactly when an item that reads divides by a missing period, fails exactly when an item does not read, and otherwise leaves a geometry that describes the items if and only if no shape is kept wrongly |
| RecursiveArrays.FramedView | wire-repr-macros/src/derive/schema/recursive.rs:530-555 | lookup in the view over a framed array finds all items that iteration yields if and only if no shape is kept wrongly; a kept shape first misses the first item without the width of the one it repeats |
| RecursiveCases.LookUpColliding | wire-repr/src/recursive/geometry/build.rs:254-296 | a root of 257 items, count included, whose body frames with a geometry in which neither lookup nor random access finds the last item that iteration yields |
| RecursiveCases.FramePanicking | wire-repr/src/recursive/geometry/build.rs:103-107 | a root of 257 items, the 64th wider than 32 bits, that the driver measures and on which direct framing panics |
| RecursiveCases.GetPanicking | wire-repr/src/recursive.rs:542-694 | an array of one such root, which frames, and on which random access and iteration panic |
| RecursiveCases.OneShapeMany | wire-repr/src/recursive/geometry/build.rs:254-296 | many nested items of one signature, the first 64 of one width but not all, always keep a wrong shape |
| RecursiveWriter.WriteRoot | wire-repr-macros/src/derive/schema/enumeration/recursive/writer.rs:75-205 | writing a root appends its encoding, fails when some count or length does not fit, and on an obliging output succeeds exactly when the encoding fits |
| RecursiveWriter.WriteArray | wire-repr-macros/src/derive/schema/recursive_writer.rs:359-489 | the count reserved before the items is patched to their number, or the write fails when it fits neither `u32` nor the wire type |
| RecursiveWriter.WriteObject | wire-repr-macros/src/derive/schema/recursive_writer.rs:73-162 | object stages emit the fields in order |
| RecursiveWriter.WriteDemand | wire-repr-macros/src/derive/schema/recursive_demand_writer.rs:158-285 | the reserved length is patched to the byte count and the scalar is placed by zero fill counted from the body start |
| RecursiveWriter.RootReads | wire-repr-macros/src/derive/schema/recursive_writer.rs:359-489 | reading the emitted bytes, whatever follows, gives the tree back and consumes them all if the depth budget reaches its height, and nothing otherwise |
| RecursiveWriter.DemandReads | wire-repr-macros/src/derive/schema/recursive_demand_writer.rs:42-66 | the same for a demand body: stored length, children, bytes and placed scalar |
| RecursiveRewriting.RootRewrites | wire-repr-macros/src/derive/schema/enumeration/recursive/writer.rs:75-205 | whatever reads as a root has an encoding of the same length, and the same bytes when no body leaves a gap before its scalar |
| RecursiveRewriting.EncodesExactly | wire-repr-macros/src/derive/schema/enumeration/recursive/writer.rs:75-205 | a tree has an encoding if and only if some bytes read as it |
| Selection.SelectionChunks.Next | wire-repr/src/schema/selection.rs:481-503 | each chunk is the first maximal run of selected bytes not yielded yet, and then the iterator stays ended |
| Selection.SelectionChunks.NextIncluded | wire-repr/src/schema/selection.rs:420-444 | the fixpoint scan finds the next maximal run of the bytes that the expression names, for any unsorted, overlapping set of ranges |
| Selection.SelectionChunks.NextExcluded | wire-repr/src/schema/selection.rs:446-478 | the complement scan finds the next maximal run of the bytes that no field of the expression names |
| Selection.PathChunks | wire-repr/src/schema/selection.rs:144-158 | a path includes exactly the bytes of its range when that is not empty and ends within the view, and excludes all others; an absent field names no bytes |
| Selection.UnionChunks | wire-repr/src/schema/selection.rs:176-190 | a byte is in the chunks of an included union exactly when it is in those of either operand, and in the chunks of an excluded union exactly when it is in those of both |
| Selection.RunsCanonical | wire-repr/src/schema/selection.rs:340-347 | the chunks increase, are non-empty, are separated by real gaps and cover exactly the selected bytes |
| Selection.CanonicalUnique | wire-repr/src/schema/selection.rs:340-347 | no other list of ranges has that form |
| Selection.SameSelection | wire-repr/src/schema/selection.rs:176-190 | order, overlap, adjacency and repetition of the fields do not change the chunks |
| Selection.Partition | wire-repr/src/schema/selection.rs:280-302 | including and excluding an expression split the input, and the two lengths add up to its length |
| Selection.RunsKeep | wire-repr/src/schema/selection.rs:349-361 | the chunks joined are the input filtered by membership, in physical order |
| Selection.SelectionBytes.Next | wire-repr/src/schema/selection.rs:513-531 | the byte iterator yields those bytes one by one |
| Selection.Len | wire-repr/src/schema/selection.rs:359-361 | the summed chunk lengths are the number of selected bytes |
| Output.Output.Ensure | wire-repr/src/output.rs:171-189 | on success the requested length is exposed and the high-water prefix kept; an obliging output succeeds exactly up to its capacity; every adapter's growth and failure are named |
| Output.GrowthTargetIs | wire-repr/src/output.rs:916-921 | growth asks for the largest of the minimum, the suggestion and twice the current length |
| Output.OverlayBytes | wire-repr/src/output.rs:483-496 | an overlay has the patch where it lies and the bytes from before everywhere else |
| Writers.Writer.Ensure | wire-repr/src/output.rs:519-533 | the output is asked for the minimum with the cursor as high-water mark; it is exposed exactly when it fits an obliging output or the callback exposes it, and the represented bytes stay |
| Writers.Writer.Write | wire-repr/src/output.rs:470-480 | the represented bytes grow by exactly the written ones, exactly when the end fits an obliging output; a fixed output asks for more, a bounded one reports its limit, and on failure the represented bytes stay |
| Writers.Writer.WriteAt | wire-repr/src/output.rs:483-496 | the represented bytes are overlaid at the offset, whatever growth did above the high-water mark, exactly when the end fits an obliging output, with the same failures |
| Writers.Writer.ExpandSpan | wire-repr/src/output/integer.rs:15-49 | one reserved byte is replaced and only the bytes after it up to the span's end move |
| Writers.ChildWriter.Write | wire-repr/src/output.rs:784-798 | an unlimited child appends to its parent; a limited one fails past its region |
| Writers.ChildWriter.FillTo | wire-repr/src/output.rs:801-821 | zeros up to a position, refusing to go back |
| Writers.ChildWriter.PatchAt | wire-repr/src/output.rs:834-856 | only bytes the child already emitted can be rewritten |
| Writers.ChildWriter.ExpandIntegerAt | wire-repr/src/output/integer.rs:56-71 | expansion inside a child moves its own suffix and stays in its region |
| Writers.ChildWriter.Finish | wire-repr/src/output.rs:859-870 | accepts exactly a full region |
| OutputRuns.RunSteps | wire-repr/src/output.rs:723-870 | up to the first error a child changes nothing outside its region, and its whole run means one value |
| OutputRuns.Run | wire-repr/src/output.rs:443-583 | a run that never starts past the cursor represents bytes that do not depend on the output; on every obliging output it succeeds exactly when they fit |
| OutputRuns.GapExactly | wire-repr/src/output.rs:483-496 | a run leaves bytes to the output's discretion exactly when one of its calls, after those before it, starts past the represented bytes |
| OutputRuns.RunTwice | wire-repr/src/output.rs:171-189 | two successful runs on any two outputs represent the same bytes |
| OutputRuns.ExpandBelow | wire-repr-macros/src/derive/schema/integer/controller.rs:11-35 | expanding a reserved byte below those already expanded is replacing one more at once |
| OutputRuns.ExpandAll | wire-repr/src/output/integer.rs:6-49 | expansions from last to first equal replacing all reserved bytes at once, and an obliging output is enough exactly when the result fits |
| Arrays.TraversalIs | wire-repr/src/schema/array.rs:198-266 | a traversal has an extent exactly when that many items, each read where the one before it ends, not empty and of the fixed width, lie in front of the input; otherwise it names the first one that does not and why |
| Arrays.FailureIs | wire-repr/src/schema/array.rs:198-266 | besides a bad item only bytes after the last one end an iteration with a failure, which names their position and number |
| Arrays.ArrayIter.Next | wire-repr/src/schema/array.rs:198-266 | the next item, the single failure, or the end of the traversal |
| Arrays.WalkIsTraversal | wire-repr/src/schema/array.rs:297-335 | the walk tiles the input as the iterator does over items of no fixed width, or stops at the same item for the same reason |
| Arrays.FrameArrayItems | wire-repr/src/schema/array.rs:297-335 | the loop returns the extent of the walk or its first failure |
| Arrays.FrameArrayExtent | wire-repr/src/schema/array.rs:272-295 | a parent learns how far the items reach: for a fixed width exactly when their product fits the input, else exactly the missing bytes, an overflow or an empty width; otherwise the extent of the items that lie there or the first one that does not |
| Arrays.WalkFixed | wire-repr/src/schema/array.rs:144-163 | with items that succeed alike cut and before other items, the walk over a multiplied extent succeeds exactly when iteration is clean |
| Arrays.WalkFixedExactly | wire-repr/src/schema/array.rs:198-335 | walk and iteration agree on every array of fixed-width items if and only if the items are such |
| Arrays.ExactBytes | wire-repr/src/schema/array.rs:144-163 | for variable widths it succeeds exactly when iteration gives `count` good items and then ends; for fixed widths exactly when the multiplied extent fits and the walk succeeds, which is the same for exactly the schemas above |
| Arrays.CutAndWholeDiffer | wire-repr/src/schema/array.rs:198-266 | a fixed-width schema without a leading extent that looks past its width, on which walk and iteration differ |
| ArrayWriters.WritesThen | wire-repr/src/output.rs:723-760 | an item written inside another one, its positions counted from its own start, still writes its bytes |
| ArrayWriters.WritesPatched | wire-repr/src/output.rs:834-856 | an item that patches what it reserved writes the patched bytes, wherever it starts |
| ArrayWriters.WritesExpanded | wire-repr/src/output/integer.rs:56-71 | an item that expands a reserved byte needs no more room than its final bytes |
| ArrayWriters.CountedItemsWrite | wire-repr/src/output/array_source.rs:79-91 | an item that is itself a counted array of any items, its count patched in last, writes its count and their bytes |
| ArrayWriters.ArrayItem | wire-repr/src/output.rs:723-760 | one item through a nested child, which may patch, fill and expand its own bytes: they are overlaid at the cursor and counted; an empty item fails; an obliging output or a limit is enough exactly when they fit |
| ArrayWriters.ArrayWriter.AddItem | wire-repr/src/output.rs:608-621 | appends exactly the item's bytes and counts it, and on an obliging output fails only for an empty item, a full count or missing room |
| ArrayWriters.ArrayWriter.TryExtend | wire-repr/src/output.rs:624-638 | appends the items of all values in order, on an obliging output exactly when none is empty, the count does not overflow and they fit |
| ArrayWriters.ArrayWriter.ItemView | wire-repr/src/output.rs:641-659 | copies one exact item, refusing exactly an empty one, a full count or missing room |
| ArrayWriters.ArrayWriter.CopyFrom | wire-repr/src/output.rs:691-714 | appends exactly the bytes of the source array and adds its count; on an obliging output it succeeds exactly when the source can be copied and there is room; the bytes are the items the source yields when items frame again on their own and are blind to what follows |
| ArrayWriters.LeadingReframes | wire-repr/src/output.rs:691-714 | leading items frame again on their own |
| ArrayWriters.LeadingBlind | wire-repr/src/output.rs:691-714 | leading items of a declared width are blind to what follows |
| ArrayWriters.WriteSource | wire-repr/src/output/array_source.rs:79-91 | the deferred source emits the items of all values in order and returns their number, succeeding exactly when none is empty and they fit |
| ArrayWriters.EmittedReadsBack | wire-repr/src/schema/array.rs:198-266 | a region written by any mix of these calls, read with its count, yields the items back in order |
| ArrayWriters.ParentExtentOfItems | wire-repr/src/schema/array.rs:272-295 | a parent finds the end of the items whatever bytes follow |
| ArrayWriters.SpanItemsReadBack | wire-repr/src/schema/array.rs:198-266 | of items that take the whole span a written region reads back exactly when there is at most one |
| SequentialSchema.PlaceIs | wire-repr-macros/src/derive/schema/view.rs:1675-1702 | the computed start of a field is the one the format says, or there is none: the first position at or after the cursor and padding that is aligned, a static position counted from the schema start, the value of a controller, and the cursor for an absent field |
| SequentialSchema.LayoutIs | wire-repr-macros/src/derive/schema/builder.rs:1135-1218 | a region is the layout of its values exactly when every field lies in it where the format says, in order, with zeros between and nothing after |
| SequentialSchema.EmitCount | wire-repr-macros/src/derive/schema/builder.rs:803-870 | a count controls nothing but its array, so patching it changes its own bytes and no position |
| SequentialSchema.EmitAlike | wire-repr-macros/src/derive/schema/model/validation.rs:368-437 | layouts of values that differ in counts alone are both available, and equally long |
| SequentialFrame.FrameExact | wire-repr-macros/src/derive/schema/view.rs:1646-2137 | the cursor loop computes the reference reading of every field kind, placement and failure, which is characterised below |
| SequentialFrame.FrameAccepts | wire-repr-macros/src/derive/schema/view.rs:1646-2137 | exact framing accepts an input if and only if every field, in order, starts where the format says and holds a value of its kind that agrees with its controllers; it returns those values and the end of the last field |
| SequentialFrame.AcceptedSays | wire-repr-macros/src/derive/schema/view.rs:1725-2130 | an accepted scalar is what its bytes decode to, bytes are as long as their width or length says, a flag and its group are present exactly when the controller is one, and constants are met |
| SequentialFrame.AcceptedItems | wire-repr-macros/src/derive/schema/view.rs:1963-2008 | an accepted array that other fields follow holds exactly the counted items: count times the fixed width, or a span that iterates cleanly |
| SequentialFrame.AcceptedWrites | wire-repr-macros/src/derive/schema/view.rs:1646-2137 | writing accepted values again gives the same extent and, when the gaps are zero, the same bytes |
| SequentialFrame.FrameRefuses | wire-repr-macros/src/derive/schema/view.rs:1646-2137 | a refused input has all fields before the one the error names, which has no start or is refused there for the reason given: a shortage names exactly the bytes missing up to the end of the field |
| SequentialFrame.FrameFinds | wire-repr-macros/src/derive/schema/view.rs:1646-2137 | consistent values that lie in an input are recovered, whatever the gaps and trailing bytes hold, if and only if every non-empty array that other fields follow has a leading extent |
| SequentialFrame.FieldReads | wire-repr-macros/src/derive/schema/view.rs:1725-2130 | framing one field that lies in the input gives its value and stops where it ends |
| SequentialFrame.FrameInvertsLayout | wire-repr-macros/src/derive/schema/view.rs:1646-2137 | exact framing of a layout recovers all values and consumes all bytes, if and only if every non-empty array that other fields follow has a leading extent; otherwise it names the first such array |
| SequentialFrame.ArrayItemsReadBack | wire-repr-macros/src/derive/schema/view.rs:1963-2008 | a recovered array yields the items it was written from |
| SequentialWriter.SharedLength | wire-repr-macros/src/derive/schema/builder.rs:673-712 | succeeds exactly when all payloads of one length controller agree, and otherwise names two that differ |
| SequentialWriter.Source | wire-repr-macros/src/derive/schema/builder.rs:632-715 | a scalar's emitted value is its constant, presence, shared length, zero for a pending count, or what the caller gave; it fails exactly when a derived value does not exist |
| SequentialWriter.RolesOf | wire-repr-macros/src/derive/schema/model/validation.rs:308-437 | in an accepted schema a scalar has at most one derived role and a constant none |
| SequentialWriter.BuildableConsistent | wire-repr-macros/src/derive/schema/builder.rs:592-870 | when everything derived exists, the values of a complete build agree with one another |
| SequentialWriter.Locate | wire-repr-macros/src/derive/schema/builder.rs:1135-1218 | the field starts where the format says, with zeros before it, or fails when it has no start or no room |
| SequentialWriter.WriteArray | wire-repr-macros/src/derive/schema/builder.rs:803-870 | items are emitted in place and the count reserved earlier is patched to their number |
| SequentialWriter.WriteConditional | wire-repr-macros/src/derive/schema/builder.rs:227-311 | a group is written when its choice is present and absent otherwise |
| SequentialWriter.WriteDetached | wire-repr-macros/src/derive/schema/builder.rs:592-870 | on success every field of the build lies in the region where the format says, with zeros between; an obliging output or a limit is enough exactly when that layout exists and fits |
| SequentialWriter.BuildFramesBack | wire-repr-macros/src/derive/schema/view.rs:1646-2137 | framing the layout of a build gives its values back and consumes it, under the exact condition above |
| SequentialRebuild.ConsistentBuilds | wire-repr-macros/src/derive/schema/builder.rs:592-870 | consistent values, with the items of their arrays, are the values of a complete build, whose layout is theirs |
| SequentialRebuild.BuildsExactly | wire-repr-macros/src/derive/schema/builder.rs:592-870 | the builder can write a region if and only if some consistent values lie in it where the format says |
| SequentialWriter.InnerTailsRefused | wire-repr-macros/src/derive/schema/view.rs:1963-2008 | a count, an array of items that end in the rest of their span and a trailing byte: the builder writes it and framing fails with the layout unavailable |
| SequentialWriter.FinalTailsMerge | wire-repr-macros/src/derive/schema/view.rs:1963-2008 | the same array in last place: two items are written and framed, and iteration yields one |
| Bitfield.Parse | wire-repr-macros/src/derive/schema/bitfield.rs:782-836 | accepts exactly non-empty sets of typed, pairwise disjoint ranges of the word |
| Bitfield.BuildBit | wire-repr-macros/src/derive/schema/bitfield.rs:590-710 | a bit of the word is set exactly when the setting covering it sets it |
| Bitfield.AnyOrder | wire-repr-macros/src/derive/schema/bitfield.rs:590-710 | setters in any order build the same word |
| Bitfield.GetterReturns | wire-repr-macros/src/derive/schema/bitfield.rs:74-96 | every getter returns the value set, whatever else was set |
| Bitfield.UndeclaredZero | wire-repr-macros/src/derive/schema/bitfield.rs:590-710 | bits outside the declared ranges stay zero |
| Bitfield.InvalidExactly | wire-repr-macros/src/derive/schema/bitfield.rs:682-708 | the builder is invalid exactly when some value exceeded its range |
| Bitfield.InvalidNames | wire-repr-macros/src/derive/schema/bitfield.rs:682-708 | an invalid builder names the field of the last value that exceeded its range |
| Bitfield.FrameExactly | wire-repr-macros/src/derive/schema/bitfield.rs:263-274 | a word is framed exactly once all its bytes are there, whatever follows; until then the missing ones are named |
| Bitfield.BuildReadsBack | wire-repr-macros/src/derive/schema/bitfield.rs:530-546 | the detached writer fails exactly then, and what it writes frames and gives every value back |
| Integers.DecodeVu128 | wire-repr/src/integer/vu128.rs:22-71 | the or-and-shift decoder computes the arithmetic value of the parts, with exact shortage and overflow |
| Integers.ShortForms | wire-repr/src/integer/vu128.rs:22-71 | every value below 2^7, 2^14, 2^21 and 2^28 has an encoding of one to four bytes |
| Integers.LongForms | wire-repr/src/integer/vu128.rs:22-71 | every value of 1 to 16 whole bytes has an encoding of one byte more |
| Integers.EveryValueEncodes | wire-repr/src/integer/vu128.rs:22-71 | every value below 2^128 has an encoding that decodes to it, whatever follows |
| Integers.DeclaredBytesOnly | wire-repr/src/integer/vu128.rs:22-71 | only the bytes the prefix declares matter |
| Integers.ShortageExact | wire-repr/src/integer/vu128.rs:36-48 | decoding lacks bytes exactly as long as fewer than reported are added |
| Integers.ZigZagBijection | wire-repr/src/integer/zigzag.rs:4-13 | encoding and decoding are inverse on all signed and unsigned words |
| Integers.ZigZagNarrows | wire-repr-macros/src/derive/schema/integer.rs:23-47 | unsigned values of a width map onto the signed values of that width, so the final cast loses nothing |
| Integers.ScalarReads | wire-repr-macros/src/derive/schema/view.rs:1815-1830 | any encoding of a scalar's value or ZigZag image reads back as the scalar, whatever follows |

## Left out

- RecursiveExtent.FrameRoot: states that framing fails, not which error; the same holds for the other recursive reads.
- RecursiveWriter.WriteRoot: writes trees; copying an exact view of a root verbatim is not part of the plan.
- ArrayWriters.ArrayItem: an item's writer is a list of child calls with positions counted from the item; a writer that looks at its absolute position, as alignment to the whole output would, is not modelled.
- Bitfield.Parse: values of one-bit fields typed as signed integers or floats are not modelled further.
- Output.Output.Call: a growth callback keeps the high-water prefix when it reports success; what it does depends on the request and on how often it was called before.
- Nested schemas, scalar arrays, bit projections, computed fields and variable-width integers inside sequential schemas.
- Typestate slots, lifetimes, unsafe reconstruction of views and the naming of generated items.
- The representation of selector variants as ordered match arms; a grammar maps each selector value to one body.
- Static layout offsets (optional sums and equalities of field widths): easy members next to sequential geometry.
- Sequences and cursors over leading items: the same walk as arrays with fewer cases.
- LEB128 coding and the VU128 encoder, which live in other crates; the VU128 decoder is modelled.
- `usize` is 64 bits wide.
- User callbacks: validators, custom conversions, computed values, floats and characters.
- Network examples, measurement tools and process launching.
