# A verified model of rsbinder's parcels and its AIDL compiler

This project models the two hardest parts of rsbinder and proves what they promise.

**The parcel wire layer** (`rsbinder/src`). A `Parcel` is a byte buffer with a cursor, a table of
object offsets, a hint for looking objects up, a read boundary and a nesting depth. Objects stand
for references the process must release once: publish counts of native binders and owned file
descriptors. `Parcels` keeps the source's class and its loops; `Objects` gives the same operations on
values, together with a process-wide ledger; `Ownership` and `Appending` reason over whole runs and
over `append_from`. `ArrayWire`, `Stable`, `Versions` and `Generated` cover arrays, strings, nested
parcelables and what two versions of a parcelable make of each other's bytes; `Layout` fixes those
bytes one by one, and `Soundness` says what a reader makes of arbitrary ones. `KernelObjects` writes
objects and descriptors and reads them back. `Holders` covers `ParcelableHolder`, `HolderTrips` what
its user sees, and `HolderRuns` who owns what while parcels and holders are used together; `Rpc` and
`FileDescriptors` cover descriptors sent out of band over RPC.

**The AIDL compiler** (`rsbinder-aidl/src`). `ConstExpr` is the constant evaluator with its
promotions, checked arithmetic, shift rules, path-wise cycle detection and depth bound. `Names`
proves that names behave as if inlined, `Folding` that integer folding is exact, `ConstArrays` what
the shared `visited` set does to arrays. `EnumMeaning` gives enum members a declarative meaning, a
least fixed point over mutually referring enums; `EnumResolution` proves that the resolver, as a
function on its cache and stack, computes it, and `Enums` is that resolver as it runs. `References`
proves that members compute as the `long` literals of their values, so that an enumerator's number is
the arithmetic of its expression. `EnumOrder`
holds small sets of enums in which the order of lookups decides the outcome, and one in which it
does not. What separates the two is whether the enums are guarded. An unresolved name goes
unnoticed in just two places: as the right operand of a logical operator, and in a comparison of two
names. No member named in such a place of the expression that decides a member's value may lead
back, through the expressions that resolving it evaluates, to that member.

`TransactionCodes` and `Calls` cover what the interface generator emits: codes, dispatch, and the
read and write lists of client and server; `RoundTrips` puts them together into a whole call.
`Modules` covers the module tree of the generated file.

The operating system is a parameter: whether a proxy lookup succeeds and what `dup` returns are
arguments (`Answer`) of the operations that ask.

`dafny verify dfyconfig.toml` checks the whole project.

## Model

| member | source | states |
|---|---|---|
| `Wire.PadSize` | rsbinder/src/parcel.rs:45-47 | the least multiple of four not below the length |
| `Wire.EncI32` | rsbinder/src/parcelable.rs:99-114 | four little-endian bytes that decode to the same `i32` |
| `Wire.OverlayAppend` | rsbinder/src/parcel.rs:1298-1353 | two writes in a row are one write of both |
| `Wire.OverlayPatch` | rsbinder/src/parcel.rs:1423-1438 | patching a length word back changes that word and nothing after it |
| `Layout.WordLayout` | rsbinder/src/parcelable.rs:99-114 | a word is four bytes of the two's complement, least significant first |
| `Layout.FlatLayout` | rsbinder/src/sys/sys.rs:2028-2033 | type, flags, pointer and cookie of a flattened object at bytes 0, 4, 8 and 16, least significant first |
| `Layout.TextLayout` | rsbinder/src/parcelable.rs:294-325 | a string is its length in units, the units in two bytes each, and zeros, at least two, to a multiple of four |
| `Layout.Utf16Exact` | rsbinder/src/parcelable.rs:406-447 | a string is accepted exactly when its units have 16 bits and its surrogates come in pairs, the high one first |
| `Layout.PlainLayout` | rsbinder/src/parcel.rs:1184-1242 | a plain array is its length, the elements back to back, and zeros to a multiple of four; a null one is the word -1 |
| `Layout.CharsLayout` | rsbinder/src/parcel.rs:1244-1266 | a character array is its length and one word for each character |
| `Layout.NarrowExact` | rsbinder/src/parcel.rs:1070-1116 | a character read from any word is the one of its low 16 bits |
| `Layout.BlockLayout` | rsbinder/src/parcel.rs:1423-1438 | a block is the size of the whole and its fields in order, each where the one before it ends |
| `Layout.ValueLayout` | rsbinder/src/macros.rs:481-568 | a nested parcelable is a flag and a block, a list a length and elements; null is flag 0 or length -1 |
| `Layout.HolderLayout` | rsbinder/src/parcelable_holder.rs:253-294 | a holder is 1 for vendor stability and 0 otherwise, the size of the payload, and the payload, which begins with the descriptor |
| `Layout.FdBodyLayout` | rsbinder/src/file_descriptor.rs:126-166 | present, no second channel and type 2 where positions are recorded, and the index last |
| `Objects.FlatRoundTrip` | rsbinder/src/binder_object.rs:289-318 | a flattened object written and read is the same object |
| `Objects.WriteKeepsHeld` | rsbinder/src/parcel.rs:1298-1353 | bytes that overlap no table entry, wherever they are written, leave every entry and every held reference alone |
| `Objects.PushHeld` | rsbinder/src/parcel.rs:1355-1377 | a new table entry adds exactly the references its object stands for |
| `Ownership.WriteObjectBalanced` | rsbinder/src/parcel.rs:1355-1377 | writing an object, successfully or not, changes the process ledger by exactly what the parcel gains |
| `Ownership.WriteFdBalanced` | rsbinder/src/file_descriptor.rs:170-182 | the same for a descriptor, whichever of its three writes or its `dup` fails |
| `Ownership.AdoptBalanced` | rsbinder/src/parcel.rs:1555-1575 | the same for the relocation loop, stopping at any object |
| `Ownership.AppendBalanced` | rsbinder/src/parcel.rs:1444-1579 | the same for a whole append |
| `Ownership.ReleaseExact` | rsbinder/src/parcel.rs:1581-1604 | dropping a parcel gives back exactly what its entries hold, each once, and nothing that was not held |
| `Ownership.PatchIsClear` | rsbinder/src/parcel.rs:1423-1438 | the length word of a sized block overlaps none of the objects written inside the block |
| `Ownership.SizedAccounted` | rsbinder/src/parcel.rs:1423-1438 | a sized block around objects and further blocks, patched or abandoned, keeps the ledger accounted for |
| `Ownership.StepAccounted` | rsbinder/src/parcel.rs:1355-1604 | every event keeps the ledger equal to the starting one plus what the live parcels hold, with no descriptor open twice |
| `Ownership.OwnershipConserved` | rsbinder/src/parcel.rs:1355-1604 | over every run of writes, descriptor writes, appends, sized blocks, seeks and drops, failures included, in which plain bytes overlap no object, the ledger is back at its start once all parcels are dropped |
| `Ownership.RewindLeaks` | rsbinder/src/parcel.rs:1298-1353 | why plain bytes must overlap no object: the reference of an overwritten entry is never released |
| `Appending.AppendMeaning` | rsbinder/src/parcel.rs:1444-1579 | a successful append grows the table by exactly the objects wholly inside the range, shifted and in order, each equal to the source object with its descriptor renewed; every other copied byte is the source's and nothing else changes |
| `Appending.AppendStatus` | rsbinder/src/parcel.rs:1555-1575 | an append stops at the first object that is no native binder, no handle with a proxy and no descriptor that could be duplicated, reports it by its kind, and lists exactly the objects before it |
| `Appending.AppendSucceedsIff` | rsbinder/src/parcel.rs:1444-1579 | it succeeds exactly when there is no such object; a range outside the source or past the largest position changes nothing |
| `Appending.AdoptedExact` | rsbinder/src/parcel.rs:1561-1571 | of a relocated object only a descriptor's number and ownership change |
| `KernelObjects.WrittenObject` | rsbinder/src/parcel.rs:1355-1377 | a written object lies at the old cursor with its fields; it is listed exactly when it is no null binder and could be counted; which writes fail, and how |
| `KernelObjects.WriteThenRead` | rsbinder/src/parcel.rs:885-933 | whatever was written is read back equal at its place from any hint, unless it is unlisted and not all null |
| `KernelObjects.WriteDescriptor` | rsbinder/src/file_descriptor.rs:170-182 | the value-level descriptor write, with its ledger |
| `KernelObjects.WrittenFd` | rsbinder/src/file_descriptor.rs:170-182 | both markers, the owning object and its entry; success exactly when there is room and a duplicate, and which error otherwise |
| `KernelObjects.ReadDescriptor` | rsbinder/src/file_descriptor.rs:271-312 | null for a zero marker; otherwise only a listed descriptor object is accepted, with a second one behind it where the marker says so |
| `KernelObjects.DescriptorBack` | rsbinder/src/file_descriptor.rs:170-312 | a descriptor written to a kernel parcel is read back, from any hint, with the cursor after it |
| `ArrayWire.CheckedLayout` | rsbinder/src/parcel.rs:73-85 | the size and padded size when they fit `usize`, an error exactly when the product plus three does not |
| `ArrayWire.ReadRaw` | rsbinder/src/parcel.rs:1009-1116 | on arbitrary bytes a successful read takes exactly the padded size inside the buffer, with no wrapped product |
| `ArrayWire.ReadBack` | rsbinder/src/parcel.rs:1009-1116 | an encoded array reads back equal, null and empty kept apart, and stops at its end |
| `ArrayWire.ReadReencodes` | rsbinder/src/parcel.rs:1009-1068 | on arbitrary bytes, what a successful read of a plain array returns encodes to the bytes it took, up to the pad |
| `ArrayWire.ArraysRoundTrip` | rsbinder/src/parcel.rs:1009-1285 | any sequence of plain and char arrays reads back equal with the same cursor stops, at any word size that holds the buffer |
| `Rpc.InsertedSorted` | rsbinder/src/parcel.rs:324-328 | inserting a position keeps the table sorted and adds just that position |
| `Rpc.RpcFields.RecordObjectPosition` | rsbinder/src/parcel.rs:324-328 | the binary-search insertion is the sorted insertion |
| `Rpc.RpcFields.ObjectPositionPresent` | rsbinder/src/parcel.rs:333-338 | the binary search answers membership on a sorted table |
| `Rpc.RpcFields.PushOutFd` | rsbinder/src/parcel.rs:342-346 | the descriptor is queued last and its index returned |
| `Rpc.RpcFields.TakeInFd` | rsbinder/src/parcel.rs:354-356 | a received descriptor is handed out and its slot emptied |
| `Parcels.CopyMeaning` | rsbinder/src/parcel.rs:1323-1349 | after zeroing gap and pad and copying, every byte below the length is initialised and the contents are the old ones overlaid |
| `Parcels.BlockEnd` | rsbinder/src/parcel.rs:953-995 | a successful block ends at its start plus its declared size, inside the buffer, below the depth bound |
| `Parcels.GuardStops` | rsbinder/src/parcel.rs:1004-1007 | a guard ends the reads of a block exactly at or past its end, with the cursor in place |
| `Parcels.NestAccepted` | rsbinder/src/parcel.rs:363 | a chain of n nested blocks is read to its end exactly when the depth stays within 1000 |
| `Parcels.Process.Acquire` | rsbinder/src/binder_object.rs:123-159 | what taking a reference adds to the ledger, a publish count for a native binder and nothing for the rest, and when it is refused |
| `Parcels.Process.Release` | rsbinder/src/binder_object.rs:161-197 | what giving one back removes: a publish count, or the descriptor of an object that owns it |
| `Parcels.Parcel.CopyIn` | rsbinder/src/parcel.rs:1323-1349 | the buffer becomes the old one with data and pad overlaid at the cursor, all bytes initialised |
| `Parcels.Parcel.WriteAlignedData` | rsbinder/src/parcel.rs:1298-1353 | padded data overlaid at the cursor, the length the larger of old length and end; a refused write changes nothing, memory included |
| `Parcels.Parcel.ReadAlignedData` | rsbinder/src/parcel.rs:869-883 | the bytes at the cursor, moving by the padded size, exactly when they are there; otherwise an error without moving |
| `Parcels.Parcel.WriteArray` | rsbinder/src/parcel.rs:1184-1242 | the encoding of the array at the cursor, refused exactly when it would pass `i32::MAX`, with only the length word left behind |
| `Parcels.Parcel.WriteArrayChar` | rsbinder/src/parcel.rs:1244-1266 | the widened encoding, one word a character, refused exactly when it would pass `i32::MAX`, with at most the length word left behind |
| `Parcels.Parcel.ReadArray` | rsbinder/src/parcel.rs:1009-1068 | the reader of `ArrayWire`, never past the end of the buffer |
| `Parcels.Parcel.ReadArrayChar` | rsbinder/src/parcel.rs:1070-1116 | the same for char arrays |
| `Parcels.Parcel.SizedRead` | rsbinder/src/parcel.rs:953-995 | boundary and depth restored on success and failure; too small a size, a block past the buffer and too deep a nest refused each with its error; the cursor of `BlockEnd` |
| `Parcels.Parcel.RunReads` | rsbinder/src/parcel.rs:953-1007 | the same for any nest of read closures |
| `Parcels.Parcel.ReadObject` | rsbinder/src/parcel.rs:885-933 | from every hint, an object that needs an entry is accepted only at a listed position, and at every listed position of a sorted table; the hint stays within the table |
| `Parcels.Parcel.WriteObject` | rsbinder/src/parcel.rs:1355-1377 | the value-level write on a kernel parcel; plain bytes and no entry on an RPC parcel |
| `Parcels.Parcel.WriteFlatBinder` | rsbinder/src/binder_object.rs:303-318 | one object overwritten in place, or an error and no change past the end |
| `Parcels.Parcel.ObjectsInside` | rsbinder/src/parcel.rs:1470-1492 | the scan finds exactly the entries wholly inside the range, as one run of the table |
| `Parcels.Parcel.AdoptRange` | rsbinder/src/parcel.rs:1555-1575 | the relocation loop is the value-level adoption, errors included |
| `Parcels.Parcel.AppendFrom` | rsbinder/src/parcel.rs:1444-1579 | the value-level append on buffer, table, ledger and status; on an RPC parcel the bytes alone |
| `Parcels.Parcel.ReleaseObjects` | rsbinder/src/parcel.rs:1581-1604 | the value-level release; none on an RPC parcel |
| `Stable.ReadBlock` | rsbinder/src/parcel.rs:953-995 | a block read leaves the cursor at the declared end whatever its fields took |
| `Versions.ReadTextBack` | rsbinder/src/parcelable.rs:406-447 | every valid UTF-16 string reads back equal |
| `Versions.ValueBack` | rsbinder/src/macros.rs:481-568 | any typed value, nested and listed parcelables included, is read by another version as its projection, up to the depth bound and with an error beyond it |
| `Versions.VersionCompatible` | rsbinder-aidl/src/generator.rs:132-161 | for field lists sharing a prefix: equal shared fields, defaults for missing ones, extra ones skipped, the cursor at the block end; it fails exactly when the nesting bound is passed |
| `Versions.BlockOntoBack` | rsbinder/src/macros.rs:523-538 | a block read onto an existing value replaces the shared fields and leaves the ones the writer did not know as they were |
| `Versions.ProjectSelf` | rsbinder-aidl/src/generator.rs:132-161 | within one version the projection is the value itself, so encoding round-trips |
| `Versions.ChainAccepted` | rsbinder/src/parcel.rs:363 | a self-referential list of n nodes is read exactly when n is at most 1000 |
| `Soundness.ReadSound` | rsbinder/src/macros.rs:481-568 | whatever a generated reader accepts from arbitrary bytes is a value of the declared type, null only where allowed, as the word in front says, taken from inside the buffer |
| `Soundness.WordRefusals` | rsbinder/src/macros.rs:481-568 | null where it is not allowed, lengths below the null marker and other flags are answered with an unexpected null |
| `Soundness.BlockRefusals` | rsbinder/src/parcel.rs:953-995 | which block headers are refused, and how |
| `Soundness.TextRefusals` | rsbinder/src/parcelable.rs:406-447 | a string inside the buffer is read exactly when it is UTF-16 |
| `Generated.WriteValue` | rsbinder/src/macros.rs:481-568 | the generated writer succeeds exactly when the encoding fits and then lays it at the cursor |
| `Generated.WriteBlock` | rsbinder/src/parcel.rs:1423-1438 | placeholder, fields and back-patch leave the sized block |
| `Generated.WriteText` | rsbinder/src/parcelable.rs:294-325 | length, units and terminator, padded; strings too long for the word or the buffer are refused |
| `Generated.ReadValue` | rsbinder/src/macros.rs:481-568 | the generated reader is the specification's, with boundary and depth restored |
| `Generated.ReadBlockValue` | rsbinder/src/parcel.rs:953-1007 | the same for a sized block read into a new value |
| `Generated.ReadBlockValueOnto` | rsbinder/src/parcel.rs:953-1007 | the same for a sized block read onto an existing value |
| `Generated.ReadFieldValues` | rsbinder-aidl/src/generator.rs:132-161 | the guarded field reads stop at the first field the block has no bytes for |
| `Holders.HolderForwards` | rsbinder/src/parcelable_holder.rs:259-344 | a written holder is received in lazy form and forwards byte-identically |
| `Holders.HeadExact` | rsbinder/src/parcelable_holder.rs:296-320 | a header is accepted exactly for the holder's own stability and a size that is not negative |
| `Holders.LookupOnReceived` | rsbinder/src/parcelable_holder.rs:143-188 | the matching type yields the value sent, as the reader's version sees it; another type yields nothing and changes nothing |
| `Holders.WrongLookupsHarmless` | rsbinder/src/parcelable_holder.rs:143-188 | any number of wrong-type lookups leave the lazy form as received |
| `Holders.ParcelableHolder.SetParcelable` | rsbinder/src/parcelable_holder.rs:105-126 | accepted exactly when the value's stability includes the holder's; the new value replaces the old contents, whose references are given back; a refusal changes nothing |
| `Holders.ParcelableHolder.Reset` | rsbinder/src/parcelable_holder.rs:93-103 | the holder is empty and the references of its lazy contents are given back |
| `Holders.ParcelableHolder.GetParcelable` | rsbinder/src/parcelable_holder.rs:143-188 | answer and new state of a lookup, unreadable and nameless contents included; a match drops the lazy parcel and gives back its references, any other lookup leaves contents and ledger alone |
| `HolderTrips.SetThenLookUp` | rsbinder/src/parcelable_holder.rs:105-188 | an accepted value is returned to every lookup for its type and refused to every other, any number of times, and stays |
| `HolderTrips.ResetThenLookUp` | rsbinder/src/parcelable_holder.rs:93-150 | an emptied holder answers none |
| `HolderTrips.LookUpRepeatedly` | rsbinder/src/parcelable_holder.rs:143-188 | whatever a holder has, repeated lookups for one type answer alike, and a value found is the one kept |
| `HolderTrips.Deliver` | rsbinder/src/parcelable_holder.rs:143-344 | a value set in one holder, written, received by another and looked up twice: the value as the receiver's version sees it, none for another type, an error when it nests too deep; refused, the receiver unchanged, when just one of them has vendor stability |
| `Holders.ParcelableHolder.WriteToParcel` | rsbinder/src/parcelable_holder.rs:260-294 | stability, length and payload at the cursor for empty, live and object-free lazy holders, and for every holder on an RPC parcel; on a kernel parcel a lazy payload with objects is appended with its objects, table, ledger and status as `append_from` leaves them |
| `Holders.ParcelableHolder.ReadFromParcel` | rsbinder/src/parcelable_holder.rs:296-344 | the payload as a parcel of its own with its objects, the references of the contents it replaces given back; or an error, the holder as it was, the copy dropped and the ledger back at its old value |
| `HolderRuns.CopyUndone` | rsbinder/src/parcelable_holder.rs:329-331 | a copy of any range into a new parcel, complete or stopped at any object, leaves no trace once it is dropped |
| `HolderRuns.UseLeavesSlots` | rsbinder/src/parcelable_holder.rs:288-292 | whatever is written, forwarded from lazy holders included, in a block or not, the parcels of the holders stay as they are |
| `HolderRuns.DeedAccounted` | rsbinder/src/parcelable_holder.rs:97-344 | receiving into a holder, successfully or not, and every way of letting its contents go keep the ledger equal to the starting one plus what parcels and lazy holders hold |
| `HolderRuns.HoldersConserve` | rsbinder/src/parcelable_holder.rs:97-344 | over every run that uses parcels and holders together, failures included, the ledger is back at its start once all parcels are dropped and no holder is lazy |
| `Holders.ReceivedIsLazy` | rsbinder/src/parcelable_holder.rs:296-344 | a payload without objects, whatever objects lie around it in the parcel, is received as the lazy form of its bytes |
| `FileDescriptors.Serialize` | rsbinder/src/file_descriptor.rs:115-168 | body bytes, queued descriptor and recorded position; success exactly when descriptors are allowed, the duplicate exists and the body fits, and which error otherwise; a refusal by mode or `dup` changes nothing, a body that does not fit leaves the duplicate queued, no position, and just the words that fitted |
| `FileDescriptors.DeserializeOption` | rsbinder/src/file_descriptor.rs:199-256 | the value-level reader, with every slot untouched after an error; a present descriptor is handed out only in the right mode, where recording is on only at a recorded position with its type word and no second channel, and from the slot its index names |
| `FileDescriptors.FdRefusals` | rsbinder/src/file_descriptor.rs:213-268 | why a present descriptor is refused, and with which error, and that nothing else refuses one |
| `FileDescriptors.PositionsAreTypeOffsets` | rsbinder/src/parcel.rs:320-328 | the position table is exactly the TYPE offsets of the present descriptors |
| `FileDescriptors.TypeOffsetsAscend` | rsbinder/src/parcel.rs:320-328 | those offsets ascend |
| `FileDescriptors.DescriptorsRoundTrip` | rsbinder/src/file_descriptor.rs:115-256 | any mix of null and present descriptors and plain values is received as sent, each descriptor paired with its entry, all slots used up |
| `FileDescriptors.NoDescriptorTwice` | rsbinder/src/parcel.rs:349-356 | over any reads at any positions, the descriptors handed out and those left are together the ones received |
| `FileDescriptors.TakenOnce` | rsbinder/src/file_descriptor.rs:199-256 | one read removes exactly the descriptor it returns |
| `Names.NamesAsIfInlined` | rsbinder-aidl/src/const_expr.rs:901-969 | evaluation equals folding the fully inlined tree when the unfolding stays within depth 256, and is an error otherwise |
| `Names.CyclesAreErrors` | rsbinder-aidl/src/const_expr.rs:936-955 | an expression that reaches a cycle never has a value |
| `Names.Idempotent` | rsbinder-aidl/src/const_expr.rs:1185-1193 | a result has no operator left and evaluates to itself |
| `Names.PreFoldingTransparent` | rsbinder-aidl/src/parser.rs:734-743 | replacing constants by their folded values changes no evaluation that succeeded |
| `ConstArrays.CalculateWithVisited` | rsbinder-aidl/src/const_expr.rs:901-969 | the evaluator with its mutated set computes the path-wise one, and which names it leaves in the set |
| `ConstArrays.CalculateArray` | rsbinder-aidl/src/const_expr.rs:929-947 | the array loop, one set for all elements; each value is what its element evaluates to by itself, in order |
| `ConstArrays.VisitedMatters` | rsbinder-aidl/src/const_expr.rs:938-955 | a foldable expression folds under a non-empty set exactly when it looks up none of its names |
| `ConstArrays.ArrayFoldsIff` | rsbinder-aidl/src/const_expr.rs:929-955 | an array of foldable elements folds exactly when no later element looks up a name an earlier one left behind |
| `ConstArrays.ArrayExact` | rsbinder-aidl/src/const_expr.rs:929-955 | an array folds to the folds of its inlined elements in order, exactly when each has one and no element looks up a name an earlier one left behind |
| `ConstArrays.OperatorsMayRepeat` | rsbinder-aidl/src/const_expr.rs:908-927 | elements that are no bare names, signs aside, may repeat constants |
| `ConstArrays.RepeatedName` | rsbinder-aidl/src/const_expr.rs:929-955 | a constant written bare or under signs may not be mentioned by a later element |
| `ConstArrays.RepeatedAlias` | rsbinder-aidl/src/const_expr.rs:929-955 | nor may the constants such a name is an alias of |
| `ConstArrays.RepeatedConstantRejected` | rsbinder-aidl/src/const_expr.rs:929-955 | an array that repeats a constant is refused as if circular, though the constant folds |
| `ConstArrays.PreProcess` | rsbinder-aidl/src/parser.rs:735-743 | the in-place pass replaces each listed constant that folds by its value and leaves every other as it was |
| `Folding.BitwiseExact` | rsbinder-aidl/src/const_expr.rs:17-48 | bit i of the result is the operator on bits i of the operands |
| `Folding.BitsExact` | rsbinder-aidl/src/const_expr.rs:17-48 | bit operators never fail and stay in the promoted kind |
| `Folding.TruncBounds` | rsbinder-aidl/src/const_expr.rs:58-148 | quotient and remainder give the dividend back, the remainder is smaller than the divisor and has the sign of the dividend |
| `Folding.ArithmeticExact` | rsbinder-aidl/src/const_expr.rs:58-148 | the exact result in the promoted kind, or an error exactly when it leaves the range, divides by zero or is MIN % -1 |
| `Folding.CompareExact` | rsbinder-aidl/src/const_expr.rs:749-764 | comparisons agree with the integers |
| `Folding.LogicExact` | rsbinder-aidl/src/const_expr.rs:733-739 | logical operators agree with truth values |
| `Folding.ShiftExact` | rsbinder-aidl/src/const_expr.rs:766-845 | an accepted left shift, read unsigned at the width, is lhs times 2^amount, a right shift the floor; a negative amount reverses; refused exactly for a negative lhs, an amount at or above the width, or a lost set bit |
| `Folding.FitsIff` | rsbinder-aidl/src/const_expr.rs:814-826 | the leading-zero test is exactly that no set bit is lost |
| `Folding.UnaryExact` | rsbinder-aidl/src/const_expr.rs:282-378 | unary operators are exact, a negated boolean is itself, and only negation can leave the range |
| `Folding.ExactFolding` | rsbinder-aidl/src/const_expr.rs:708-895 | every integral tree folds to its mathematical value in its kind, and fails exactly when some step has no result |
| `Folding.ExactEvaluation` | rsbinder-aidl/src/const_expr.rs:897-969 | the same of the evaluator, for trees of height up to 256, with an error above |
| `Folding.NarrowingExact` | rsbinder-aidl/src/const_expr.rs:1113-1157 | conversion to the declared kind keeps the value, or fails exactly when it does not fit; to a boolean it keeps the truth value |
| `EnumMeaning.MeaningUnfolds` | rsbinder-aidl/src/parser.rs:439-480 | a member means its last explicit number plus the distance, wrapping, or its position, over members that are settled already |
| `EnumMeaning.CyclesMeanNothing` | rsbinder-aidl/src/parser.rs:400-413 | a member that needs itself, however indirectly, has no value, whatever the operators |
| `EnumMeaning.ErrorsSpread` | rsbinder-aidl/src/parser.rs:420-437 | a member whose expression is an error gives no value to any member that needs it, whatever the operators |
| `EnumMeaning.CalcStays` | rsbinder-aidl/src/const_expr.rs:901-969 | an expression over settled members keeps its outcome however much more is settled |
| `EnumResolution.GuardedCases` | rsbinder-aidl/src/const_expr.rs:708-764 | enums without cycles are guarded, and so are enums whose deciding expressions have no place that can ignore an unresolved name |
| `EnumResolution.EvaluateFaithful` | rsbinder-aidl/src/const_expr.rs:901-969 | for guarded enums and every operator: the outcome over settled members once all are settled, and no number before |
| `EnumResolution.ResolveFaithful` | rsbinder-aidl/src/parser.rs:382-500 | for guarded enums, at every stack: a number exactly when the rounds with the stack left out give it, the deciding expression carried otherwise, and only such numbers cached |
| `EnumResolution.NoDetour` | rsbinder-aidl/src/parser.rs:400-413 | leaving a member out while it is being resolved never costs its deciding expression a number |
| `EnumResolution.CarriedNoNumber` | rsbinder-aidl/src/parser.rs:420-437 | a carried expression evaluated again by the caller never turns into a number |
| `EnumResolution.AnswersMean` | rsbinder-aidl/src/parser.rs:382-500 | whatever is cached, an answer at the empty stack is a value exactly when it is the declarative one |
| `EnumResolution.CachedIsMeant` | rsbinder-aidl/src/parser.rs:488-497 | every cached value is the declarative one |
| `EnumResolution.OrderNeverMatters` | rsbinder-aidl/src/parser.rs:382-500 | for guarded enums, after any sequence of lookups every answer and every cached value is what a fresh resolution gives |
| `EnumResolution.DeclareMeans` | rsbinder-aidl/src/generator.rs:1398-1432 | the rendered discriminants are the meanings, and the enum is refused exactly when some enumerator has none |
| `References.ReferenceIsLong` | rsbinder-aidl/src/const_expr.rs:17-148 | arithmetic, bit and shift operators do not tell a member from the `long` literal of its value |
| `References.ReferenceElsewhere` | rsbinder-aidl/src/const_expr.rs:282-380 | no unary operator but plus takes a member, logical operators only where they need not look, and a comparison with a member on the left is never true except that they differ |
| `References.CompareWithReference` | rsbinder-aidl/src/const_expr.rs:978-1013 | a number is compared with a member's value reduced to the number's own width |
| `References.CompareUnresolved` | rsbinder-aidl/src/const_expr.rs:984-994 | an unresolved name is compared with a member as text |
| `References.NarrowingReference` | rsbinder-aidl/src/const_expr.rs:1113-1157 | a member converts to every integral kind its value fits, and to no boolean |
| `References.ReferencesExact` | rsbinder-aidl/src/const_expr.rs:708-895 | a tree that only computes with members has the mathematical value of its literals, and fails exactly when some step has none |
| `References.NumberedExactly` | rsbinder-aidl/src/parser.rs:439-480 | over members that have values, an enumerator is worth the mathematical value of the last expression up to it plus the distance, and nothing exactly when that has no value |
| `References.NumberedByPosition` | rsbinder-aidl/src/parser.rs:439-480 | with no expression before it, an enumerator is worth its position |
| `References.RenderedExactly` | rsbinder-aidl/src/generator.rs:1398-1432 | the discriminant rendered for an enumerator of guarded enums is that number |
| `EnumOrder.OrderMatters` | rsbinder-aidl/src/parser.rs:400-480 | where `A` is 1 or-ed logically with `B`, and `B` is `A + 1`, a fresh lookup of `A` has no value, but after a lookup of `B` the cache holds one |
| `EnumOrder.EarlierExpressionsMatter` | rsbinder-aidl/src/parser.rs:439-480 | the same can happen though no member needs itself, because resolving a member evaluates every explicit expression before it; those enums are not guarded |
| `EnumOrder.ForwardIsGuarded` | rsbinder-aidl/src/const_expr.rs:733-739 | a forward reference on the right of a logical operator is guarded when it does not lead back |
| `Enums.EnumResolver.Resolve` | rsbinder-aidl/src/parser.rs:382-500 | for all enums: terminates, restores the stack, and answers and caches as the function on values does |
| `Enums.EnumResolver.Count` | rsbinder-aidl/src/parser.rs:425-480 | the loop with its counter and carried expression is the counting of the function on values |
| `Enums.EnumResolver.Evaluate` | rsbinder-aidl/src/const_expr.rs:901-969 | the evaluator calling back into the resolver, with the cache it leaves |
| `Enums.EnumResolver.DeclareEnum` | rsbinder-aidl/src/generator.rs:1398-1432 | the rendering loop, with its error and the cache it leaves |
| `TransactionCodes.ValidateTransactionCodes` | rsbinder-aidl/src/generator.rs:875-969 | accepts exactly all-implicit lists and all-explicit lists of distinct codes in the user range, and otherwise reports the first offence |
| `TransactionCodes.EmitCodes` | rsbinder-aidl/src/generator.rs:341-353 | each method's constant is the first code plus the one written for it, or plus its position when none are written |
| `TransactionCodes.CodesStable` | rsbinder-aidl/src/generator.rs:341-353 | appending methods changes no earlier code |
| `TransactionCodes.CallsArriveIff` | rsbinder-aidl/src/generator.rs:341-360 | each call of an accepted list selects its own arm, meta calls included, exactly when codes are explicit or at most 16,777,213 methods (16,777,214 without a hash) leave room |
| `TransactionCodes.UnknownIff` | rsbinder-aidl/src/generator.rs:573-640 | a code is refused exactly when no arm carries it |
| `Calls.MakeFnMember` | rsbinder-aidl/src/generator.rs:695-764 | the four statement lists of a method, filled in one pass; exactly the out and inout arguments go back, in order |
| `Calls.RequestSplit` | rsbinder-aidl/src/generator.rs:704-740 | the arguments are written in order: in and inout values, lengths of out arrays, nothing for other out arguments |
| `Calls.OutsInOrder` | rsbinder-aidl/src/generator.rs:740-764 | the values that travel back are written in the order of the arguments |
| `Calls.RequestRecovered` | rsbinder-aidl/src/generator.rs:704-764 | between two versions of the parcelables: the server's declarations recover every in and inout value as its version sees it, give every out array the length sent and elements nobody has set, leave the rest null, zero, empty or at the declared defaults, and consume the request exactly; the nesting bound is the only failure; in one version the values are those sent |
| `Calls.ReplyRecovered` | rsbinder-aidl/src/generator.rs:409-427 | between two versions: the client recovers the return value and each out and inout value, keeps its own values in fields the server does not know and in its in arguments, and consumes the reply exactly; in one version the values are those sent |
| `Calls.MergedExact` | rsbinder/src/macros.rs:523-541 | a parcelable read onto an argument has the shared fields as sent, and the others as they were before |
| `Calls.BuildParcel` | rsbinder-aidl/src/generator.rs:391-402 | the client's writes lay down the request, or fail exactly when it does not fit |
| `Calls.ReadArguments` | rsbinder-aidl/src/generator.rs:573-584 | the arm's declarations on a parcel run as specified |
| `Calls.ResizeOut` | rsbinder/src/parcel.rs:1123-1171 | an out array of the length sent, null only when nullable |
| `Calls.WriteReply` | rsbinder-aidl/src/generator.rs:585-606 | status, return value and out values at the cursor, or failure exactly when they do not fit |
| `Calls.ReadOnce` | rsbinder/src/parcel.rs:779-781 | reading onto an argument: a parcelable keeps the fields a short block does not bring, and which flags are refused |
| `Calls.ReadReply` | rsbinder-aidl/src/generator.rs:409-427 | the client's reads on a parcel run as specified; a non-zero status is reported as it is |
| `RoundTrips.MethodArrives` | rsbinder-aidl/src/generator.rs:341-360 | in an accepted list every method is reached by its own code, whatever meta calls there are |
| `RoundTrips.Ask` | rsbinder-aidl/src/generator.rs:391-402 | the values the server is handed for a request, or an error exactly when it does not fit or nests too deep |
| `RoundTrips.Respond` | rsbinder-aidl/src/generator.rs:409-427 | what the client ends with for an answer, or an error exactly when it does not fit or nests too deep |
| `RoundTrips.Transact` | rsbinder-aidl/src/generator.rs:391-640 | a call from stub to stub between two versions: the service runs once, as the method called and on the values sent, or not at all when they cannot be sent, and the client ends with the values the service gave back; in one version they are the very values |
| `Modules.SortSorts` | rsbinder-aidl/src/lib.rs:381 | sorting orders the packages by name and then by contents, and keeps each one |
| `Modules.Sandwich` | rsbinder-aidl/src/lib.rs:381-397 | between two names under a common path every name is under it, when no character sorts below the dot |
| `Modules.OpensOnceIff` | rsbinder-aidl/src/lib.rs:383-413 | no module path is opened twice exactly when the packages under each path lie together in the sorted list |
| `Modules.GrammarIsHigh` | rsbinder-aidl/src/aidl.pest:130-132 | no character of a package name of the grammar sorts below the dot, and no segment is empty |
| `Modules.OneModuleTree` | rsbinder-aidl/src/lib.rs:370-423 | braces match and all close, each body sits in exactly its package's modules, and for all package names of the grammar no module path is opened twice |
| `Modules.GenerateAll` | rsbinder-aidl/src/lib.rs:370-423 | the loop with its namespace and counter emits exactly the tree proved about |

## Left out

- The kernel driver, `ProcessState`, thread state, proxies and their reference counts: only publish counts and owned descriptors are tracked, and a failed lookup or `dup` is an argument.
- `set_data_size`, `from_ipc_parts` and parcels backed by driver buffers: they depend on the driver's contract.
- Interface tokens, work-source headers and strict-mode words in front of a request: the requests here start at any cursor.
- Parcels.Parcel.AppendFrom: requires a source table that is in order, inside the buffer and without overlaps, which every write and append here keeps; tables handed over by the driver are not modelled.
- Parcels.Parcel.ObjectsInside: likewise; in an unsorted table the source takes the whole stretch between the first and the last entry inside the range.
- Ownership.OwnershipConserved: covers kernel parcels whose plain writes overlap no object (`Ownership.RewindLeaks` shows why), whose objects are written after the last one, and a `dup` that returns a number not open already.
- Holders.ParcelableHolder.ReadFromParcel: requires a source table in order, as `append_from` does here; the ledger is stated to be the old one after an error when `dup` returned numbers not open already.
- HolderRuns.HoldersConserve: under the conditions of `Ownership.OwnershipConserved`; the values a lookup reads hold no binders or descriptors of their own.
- RoundTrips.Transact: the service answers with values; calls it refuses, interface tokens and the copy the driver makes of a parcel are not modelled.
- Generated.ReadValue: arrays, strings, fixed-size scalars, parcelables and lists of parcelables; unions, binders, maps and fixed-size arrays are not modelled.
- Error replies: `Calls.ReadReply` reports a non-zero exception and does not read its message or the reply headers of other peers; oneway calls have no reply and are not modelled beyond the request.
- Permission checks, default implementations, asynchronous traits and the rendering of generated text.
- The order of names in scope, namespaces and imports: in `Enums` the member a name denotes is fixed, so a carried expression is not looked up again from another namespace, and the fallback to registered symbols is not modelled.
- EnumResolution.AnswersMean: for guarded enums, where no cycle runs through a place of a deciding expression that can ignore an unresolved name; the condition is sufficient, and outside it some enums still happen to agree.
- Folding.ExactFolding: trees without names and enum references.
- References.NumberedExactly: for expressions in which members stand under computing operators; `References.ReferenceElsewhere` and `References.CompareWithReference` say what each of the other operators makes of them.
- KernelObjects.WriteThenRead: for buffers below the size at which `data_avail` panics.
- Floats, strings and characters in the evaluator.
- Modules.GenerateAll: requires non-empty segments, as the grammar does; indentation is not modelled.
- The pest grammar, nesting counters of the tokenizer, file handling and diagnostics.
- `lazy_service.rs`, the stability of binders, status codes beyond those returned here: small finite facts.
