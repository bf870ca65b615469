# FlatBuffers Go runtime: a verified model of the builder, the table reader and the test LCG

This project models the part of the FlatBuffers Go runtime that the Go test
suite (`tests/go_test.go`) pins down. It covers three pieces:

- The **Builder** writes a buffer back to front. Scalars are aligned, and
  the buffer grows by doubling. Objects (tables) record their fields in
  slots and end with a vtable. A new vtable is shared with an identical
  earlier one. The Builder also writes vectors, strings (shared ones too)
  and the root offset, with or without a size prefix.
- The **Table** reader finds a field through the vtable. A missing field
  reads as the caller's default. The mutators rewrite a field in place,
  and only when it is present.
- The **LCG** is the Park–Miller style generator that the fuzz test uses
  to draw field kinds.

The runtime's own sources are not part of this model. The model takes its
behaviour from the byte layouts, error cases and round trips the test
suite checks. The test suite is the only source text behind it.

Modules:

- `Wire` (wire.dfy): bytes, little-endian words, two's complement,
  power-of-two padding computed with a bitwise AND as the runtime does,
  the `Error` and `Result` types.
- `BuilderModel` (buildermodel.dfy): the builder as a value `State` and one
  function per builder operation, each with the layout it leaves. This is
  the reference the class is proved against. Builder panics are modelled
  as `Err` results.
- `Runtime` (builder.dfy): `class Builder` over an `array<Byte>` with a
  moving `head`. Every method is proved to leave `Model()` equal to the
  `BuilderModel` function of the state before it.
- `Table` (table.dfy): the reader functions over a byte sequence, the slot
  mutators, the revert property of the mutate-buffer test, and
  `class TableView`, which mutates an `array<Byte>` in place.
- `ReadBack` (readback.dfy): `calcVOffsetT`, and the theorem that every
  field recorded in an object reads back through the table reader once the
  object ends, whether its vtable was newly written or shared.
- `Lcg` (lcg.dfy): the generator as a class, plus its output sequence as a
  function.
- `Fuzz` (fuzz.dfy): the fuzz test as methods over the Builder and LCG
  classes. It builds objects with drawn field kinds, re-seeds, reads every
  field back, and is proved to count zero mismatches.
- `ByteLayout` (layout.dfy): the concrete byte layouts of the byte-layout
  test, the panicking misuses, and the hand-written byte vector of the
  CreateByteVector test.

Notes on the source:

- The vtable-deduplication test annotates the word `240, 255, 255, 255`
  (tests/go_test.go:1516) as "== -12". Those bytes are -16 in two's
  complement, and -16 is the distance the model computes. The bytes are
  right and the comment is not; the test compares bytes only.
- The byte-layout test builds a second object after `Finish`
  (tests/go_test.go:1185-1225). So `Finish` here does not stop later
  `StartObject` or `Create*` calls. It only sets the finished flag that
  `FinishedBytes` checks.

## Model

| member | source | states |
|---|---|---|
| Wire.LE | tests/go_test.go:856-879 | a scalar of width w is exactly w bytes; Wire.FromLEOfLE and Wire.LEOfFromLE give the value round trip |
| Wire.FromLEOfLE | tests/go_test.go:856-879 | reading back the w little-endian bytes of v gives v modulo 256^w |
| Wire.LEOfFromLE | tests/go_test.go:856-879 | re-encoding the value of a byte string gives the same bytes |
| Wire.SignedOfUnsigned | tests/go_test.go:859-871 | a signed value in range survives the two's-complement bit pattern the buffer stores |
| Wire.UnsignedOfSigned | tests/go_test.go:859-871 | every stored bit pattern is the pattern of its signed reading |
| Wire.BitAndLowMask | tests/go_test.go:866-870 | AND with size-1 is the remainder modulo a power-of-two size, as used for alignment |
| Wire.PadLen | tests/go_test.go:866-870 | the padding before a scalar of nonzero size is shorter than the size |
| Wire.PadLenRemainder | tests/go_test.go:866-870 | the padding before a scalar is (-used) modulo its size |
| Wire.PadLenAligns | tests/go_test.go:866-870 | after the padding, the used length is a multiple of the alignment |
| BuilderModel.NewBuilder | tests/go_test.go:858 | a new builder is empty, not nested, not finished, aligned to 1, with no vtables or shared strings, and a non-positive size gives capacity 0 |
| BuilderModel.Reset | tests/go_test.go:1612 | Reset empties the data, vtable cache and shared-string map and keeps the capacity |
| BuilderModel.Grow | tests/go_test.go:904-916 | growth strictly enlarges the capacity and the free room and keeps the data |
| BuilderModel.Reserve | tests/go_test.go:904-916 | after reserving, more than `need` bytes are free and the data is unchanged |
| BuilderModel.Place | tests/go_test.go:856-879 | placing bytes puts them in front of the data and keeps the capacity |
| BuilderModel.Prep | tests/go_test.go:866-870 | Prep prepends exactly the zero padding that aligns used+additional to size, leaves room for size+additional, and raises the minimum alignment |
| BuilderModel.PrepAligns | tests/go_test.go:866-870 | after Prep, offset plus the pending bytes is a multiple of the size |
| BuilderModel.PlaceScalar | tests/go_test.go:856-879 | placing fails exactly when the room is too small; otherwise the LE bytes go in front |
| BuilderModel.Pad | tests/go_test.go:1202 | padding fails exactly when the room is too small; otherwise n zero bytes go in front |
| BuilderModel.PrependScalar | tests/go_test.go:856-879 | a prepended scalar is its LE bytes, then the pad to its width, then the old data |
| BuilderModel.PrependScalarAligns | tests/go_test.go:866-870 | after a prepend of width w, the offset is a multiple of w |
| BuilderModel.PrependSigned | tests/go_test.go:861-871 | a prepended signed value reads back as the same signed value |
| BuilderModel.SignedRoundTrip | tests/go_test.go:861-871 | signed to bit pattern to bytes and back gives the same signed value |
| BuilderModel.PrependUOffsetT | tests/go_test.go:1918-1919 | a forward offset is refused exactly when its target is past the aligned offset; otherwise the word holds the distance from itself to the target |
| BuilderModel.PrependSOffsetT | tests/go_test.go:1924-1926 | a signed offset is refused when its target lies ahead; otherwise the word holds the distance as a 32-bit two's-complement value, aligned to 4 |
| BuilderModel.WriteAt | tests/go_test.go:1515-1534 | overwriting bytes inside the data changes exactly those bytes and nothing else |
| BuilderModel.StartObject | tests/go_test.go:1576-1600 | starting an object fails exactly when nested; otherwise n empty slots, the object end at the current offset, data unchanged |
| BuilderModel.Slot | tests/go_test.go:1921-1925 | recording a slot fails exactly for an index out of range, sets that slot to the current offset and leaves all others |
| BuilderModel.PrependSlot | tests/go_test.go:976-1004 | a value equal to its default writes nothing; otherwise the scalar is prepended and its slot records where |
| BuilderModel.SlotPointsTo | tests/go_test.go:1918-1919 | a slot recorded right after a forward offset points at the offset's target |
| BuilderModel.PrependUOffsetTSlot | tests/go_test.go:1918-1919 | a default offset writes nothing; otherwise the slot points at the target, fails on a bad slot and succeeds when the target is behind |
| BuilderModel.PrependStructSlot | tests/go_test.go:1662-1672 | a struct slot outside an object fails NotNested; a struct not written just before fails NotInline; otherwise it records the slot |
| BuilderModel.Trim | tests/go_test.go:992-1004 | trimming removes exactly the trailing unset slots and keeps the rest as a prefix |
| BuilderModel.VtableWords | tests/go_test.go:976-990 | a vtable is its byte size, the object size, then one entry per trimmed slot |
| BuilderModel.Entries | tests/go_test.go:976-990 | one vtable entry per slot, entry i being slot i's offset from the object start, or 0 for an absent slot |
| BuilderModel.Words | tests/go_test.go:976-990 | a run of 16-bit words takes two bytes per word |
| BuilderModel.WordsAt | tests/go_test.go:976-990 | word i of a vtable is at bytes 2i..2i+2, in LE order |
| BuilderModel.PrependWords | tests/go_test.go:976-990 | prepending vtable words only moves the head down and keeps the object and flags |
| BuilderModel.PrependWordsData | tests/go_test.go:976-990 | prepending vtable words at an even offset lays down exactly their bytes |
| BuilderModel.FindVtable | tests/go_test.go:1489-1572 | a non-zero answer is a cached vtable with identical bytes and the newest such; zero means no cached vtable matches |
| BuilderModel.Candidate | tests/go_test.go:1489-1572 | the candidate vtable takes two bytes per trimmed slot plus two metadata words |
| BuilderModel.Found | tests/go_test.go:1489-1572 | a non-zero answer is a cached vtable holding exactly the candidate's bytes; zero means no cached vtable holds them |
| BuilderModel.WriteVtable | tests/go_test.go:1489-1572 | closing returns the object's offset and forgets the open slots, keeping the object start, the string cache and the flags |
| BuilderModel.FindVtableNewest | tests/go_test.go:1489-1572 | the search finds the newest cached match |
| BuilderModel.FindVtableNone | tests/go_test.go:1489-1572 | with no match in the cache the search answers 0 |
| BuilderModel.Opened | tests/go_test.go:976-990 | closing an object first pads to 4 and prepends a placeholder word, at least 4 bytes further on |
| BuilderModel.WriteNewVtable | tests/go_test.go:976-990 | a new vtable's bytes come before the object's leading word, which points back to them, and the vtable is cached |
| BuilderModel.NewVtableBytes | tests/go_test.go:976-990 | writing the vtable words and then patching the leading word gives the vtable-then-word layout |
| BuilderModel.ShareVtable | tests/go_test.go:1515-1523 | a shared vtable leaves only the object's leading word, holding the signed distance to the earlier vtable |
| BuilderModel.EndObjectHit | tests/go_test.go:1515-1523 | closing an object whose vtable is cached adds only the word and the pad, and leaves the cache unchanged |
| BuilderModel.EndObjectMiss | tests/go_test.go:1524-1534 | closing an object with a new vtable adds the vtable, the word and the pad, and caches the new vtable |
| BuilderModel.EndObject | tests/go_test.go:1576-1586 | ending fails exactly when no object is open, and returns the object's offset |
| BuilderModel.StartVector | tests/go_test.go:881-938 | starting a vector fails exactly when nested; the pad bytes make the elements and the count land on a word boundary, with room for all elements |
| BuilderModel.PrepVector | tests/go_test.go:881-938 | the vector's preparation pads with zeros so that the end of the elements is aligned to both 4 and the element alignment |
| BuilderModel.EndVector | tests/go_test.go:881-938 | ending a vector outside one fails; otherwise the element count goes in front and nesting ends |
| BuilderModel.WriteVector | tests/go_test.go:881-938 | a whole vector is its count, its bytes, then the alignment padding |
| BuilderModel.WriteVectorSteps | tests/go_test.go:881-938 | StartVector, placing the elements and EndVector together give WriteVector |
| BuilderModel.WriteVectorAligned | tests/go_test.go:881-938 | a written vector starts on a 4-byte boundary |
| BuilderModel.CreateString | tests/go_test.go:940-958 | a string fails exactly when nested; otherwise its length word, its bytes, a NUL and the pad, on a word boundary, 5 to 8 bytes more than its length |
| BuilderModel.CreateByteVector | tests/go_test.go:1783-1800 | a byte vector fails exactly when nested; otherwise its count, its bytes and the pad, on a word boundary |
| BuilderModel.StartVectorAligned | tests/go_test.go:1792 | a byte vector aligned to 1 reserves room for all its bytes and its count before any growth |
| BuilderModel.PrependInRoom | tests/go_test.go:1793-1795 | inside reserved, aligned room a prepend is a plain placement |
| BuilderModel.CreateSharedString | tests/go_test.go:1623-1644 | a cached string returns its earlier offset and changes nothing; a new one is written like CreateString and cached |
| BuilderModel.Finish | tests/go_test.go:1185-1225 | finishing fails when nested and marks the buffer finished; its layout is in FinishLayout, FinishAligned and FinishKeeps |
| BuilderModel.FinishSteps | tests/go_test.go:1185-1225 | Finish is Prep to the minimum alignment, the root offset, and, with a size prefix, the size word |
| BuilderModel.FinishLayout | tests/go_test.go:1850-1857 | a finished buffer starts with the root offset, pointing at the root, and a size-prefixed one with the length of the rest |
| BuilderModel.FinishParts | tests/go_test.go:1185-1225 | the states Finish goes through: the alignment, the root word's padding, the root word, and the size word in front when asked |
| BuilderModel.FinishKeeps | tests/go_test.go:1196-1225 | the finished data are the header words, zero padding, then the earlier data unchanged |
| BuilderModel.FinishAligned | tests/go_test.go:1196-1202 | the finished length is a multiple of 4 and of a power-of-two minimum alignment |
| BuilderModel.FinishSucceeds | tests/go_test.go:1185-1225 | finishing outside an object on a written root always succeeds |
| BuilderModel.FinishedBytes | tests/go_test.go:1676-1686 | the finished bytes are the data, and are refused exactly when the buffer is not finished |
| BuilderModel.EmptyObject | tests/go_test.go:969-974 | an object without fields on an aligned builder closes as [4,0,4,0,4,0,0,0] |
| BuilderModel.MissCaches | tests/go_test.go:1489-1572 | a newly written vtable is in the cache and lies at the new offset |
| BuilderModel.LaterObjectShares | tests/go_test.go:1499-1511 | a later object whose vtable bytes equal a cached one finds it |
| BuilderModel.HitWritesWord | tests/go_test.go:1515-1523 | an object that finds its vtable is closed with only the signed back-reference word |
| BuilderModel.CreateSharedKeeps | tests/go_test.go:1623-1644 | creating a shared string keeps every earlier mapping and maps the string to its offset |
| BuilderModel.SharedPair | tests/go_test.go:1623-1644 | two shared strings get the same offset if and only if they are equal |
| BuilderModel.EmptiedBuilder | tests/go_test.go:1602-1621 | after Reset, two different strings written in the other order get offsets different from before |
| BuilderModel.FreshShared | tests/go_test.go:1623-1644 | a string not yet shared is written, its offset cached, and nesting is unchanged |
| Runtime.PlaceTwice | tests/go_test.go:904-916 | two placements in a row are one placement of their concatenation |
| Runtime.Builder.constructor | tests/go_test.go:858 | a new Builder over an array of the initial size is NewBuilder |
| Runtime.Builder.Model | tests/go_test.go:850 | the model's data is the array from head on, the capacity the array length |
| Runtime.Builder.Reset | tests/go_test.go:1612 | the class Reset is the model's Reset |
| Runtime.Builder.GrowByteBuffer | tests/go_test.go:904-916 | growing copies the old bytes to the end of a doubled array, so the data is unchanged |
| Runtime.Builder.Pad | tests/go_test.go:1202 | padding in place prepends n zeros; it reports false, changing nothing, exactly where the model's Pad has no room |
| Runtime.Builder.Prep | tests/go_test.go:866-870 | the class Prep is the model's Prep |
| Runtime.Builder.Reserve | tests/go_test.go:904-916 | the growth loop is the model's Reserve |
| Runtime.Builder.PrependScalar | tests/go_test.go:856-879 | the class prepend is the model's PrependScalar |
| Runtime.Builder.PrependUOffsetT | tests/go_test.go:1918-1919 | the class offset prepend succeeds exactly when the model's does and then equals it |
| Runtime.Builder.PrependSOffsetT | tests/go_test.go:1924-1926 | the class signed-offset prepend succeeds exactly when the model's does and then equals it |
| Runtime.Builder.PlaceScalar | tests/go_test.go:856-879 | the class placement succeeds exactly when the model's does and then equals it |
| Runtime.Builder.StartObject | tests/go_test.go:1576-1600 | the class StartObject is the model's, including the nested error |
| Runtime.Builder.Slot | tests/go_test.go:1921-1925 | the class Slot is the model's, including the out-of-range error |
| Runtime.Builder.PrependSlot | tests/go_test.go:976-1004 | the class slot prepend is the model's, including the default case |
| Runtime.Builder.PrependUOffsetTSlot | tests/go_test.go:1918 | the class offset-slot prepend is the model's |
| Runtime.Builder.PrependStructSlot | tests/go_test.go:1662-1672 | the class struct slot is the model's, including the NotNested and NotInline errors |
| Runtime.Builder.WriteAt | tests/go_test.go:1515-1534 | patching bytes in place is the model's WriteAt |
| Runtime.Builder.TrimmedLength | tests/go_test.go:992-1004 | the loop over trailing unset slots returns the length of the trimmed vtable |
| Runtime.Builder.MatchesAt | tests/go_test.go:1489-1572 | the cached vtable's bytes equal the candidate exactly when the model's VtableAt holds |
| Runtime.Builder.FindVtable | tests/go_test.go:1489-1572 | the backwards search over the cache returns the model's FindVtable |
| Runtime.Builder.PrependWords | tests/go_test.go:976-990 | the word loop prepends the model's vtable words |
| Runtime.Builder.PrependWordAt | tests/go_test.go:976-990 | one turn of the word loop keeps the loop's invariant |
| Runtime.Builder.WriteVtable | tests/go_test.go:1489-1572 | the class vtable step, writing a new vtable or sharing a cached one, is the model's |
| Runtime.Builder.WriteNew | tests/go_test.go:976-990 | writing a new vtable and caching it is the model's WriteNewVtable |
| Runtime.Builder.CacheVtable | tests/go_test.go:1489-1572 | the vtable just written is appended to the cache and the slots are cleared |
| Runtime.Builder.ShareVtable | tests/go_test.go:1515-1523 | overwriting the leading word with the distance to the cached vtable is the model's ShareVtable |
| Runtime.Builder.EndObject | tests/go_test.go:1576-1586 | the class EndObject succeeds exactly when the model's does and gives the same state and offset |
| Runtime.Builder.StartVector | tests/go_test.go:881-938 | the class StartVector is the model's |
| Runtime.Builder.EndVector | tests/go_test.go:881-938 | the class EndVector is the model's |
| Runtime.Builder.CreateString | tests/go_test.go:940-958 | the class CreateString is the model's, including the nested error |
| Runtime.Builder.CreateByteVector | tests/go_test.go:1783-1800 | the class CreateByteVector is the model's |
| Runtime.Builder.CreateSharedString | tests/go_test.go:1623-1644 | the class shared-string lookup or insert is the model's |
| Runtime.Builder.RecordShared | tests/go_test.go:1623-1644 | recording a shared string adds exactly one mapping |
| Runtime.Builder.Finish | tests/go_test.go:1185-1225 | the class Finish is the model's |
| Runtime.Builder.Seal | tests/go_test.go:1850-1857 | sealing fails only when a size prefix has no room; otherwise it marks the buffer finished, with the size word in front when asked |
| Runtime.Builder.FinishedBytes | tests/go_test.go:1676-1686 | the class FinishedBytes is the model's, including the not-finished error |
| Table.ReadLE | tests/go_test.go:1545-1566 | a read succeeds exactly when the w bytes lie inside the buffer |
| Table.ReadLEBytes | tests/go_test.go:1545-1566 | a successful read is below 256^w and its LE bytes are the buffer's bytes |
| Table.VtableOf | tests/go_test.go:1541-1543 | locating a table's vtable succeeds exactly when its 4-byte word is inside the buffer |
| Table.FieldOffset | tests/go_test.go:1938-1940 | Table.Offset: 0 when the vtable byte lies at or beyond the vtable's size, otherwise the 16-bit entry stored there; an error when the table word, the vtable size or the entry is outside the buffer |
| Table.TablePos | tests/go_test.go:774-777 | a table's position is an index into the buffer, at most its length, exactly when its offset from the end is at most the buffer's length |
| Table.GetSlot | tests/go_test.go:1545-1566 | an absent field reads as the default, a present one as the bytes at its offset, and a broken vtable is an error |
| Table.GetVOffsetTSlot | tests/go_test.go:1547-1557 | a vtable entry reads as its stored offset, or as the default when zero |
| Table.GetRoot | tests/go_test.go:519-521 | succeeds exactly when the 4-byte root word lies in the buffer, and is then the offset plus the word's little-endian value |
| Table.GetSizePrefixedRoot | tests/go_test.go:517-518 | succeeds exactly when both header words lie in the buffer, and is then the position after the size word plus the root word's value |
| Table.GetSizePrefix | tests/go_test.go:1855 | succeeds exactly when the 4-byte word lies in the buffer, and is then its little-endian value |
| Table.GetRootOfWord | tests/go_test.go:519-521 | a buffer that starts with the 32-bit offset v has its root at v |
| Table.GetSizePrefixedRootOfWord | tests/go_test.go:517-518 | a buffer whose second word is the 32-bit offset v has its size-prefixed root at v + 4 |
| Table.GetSizePrefixOfWord | tests/go_test.go:1854-1857 | a buffer that starts with the 32-bit word v has the size prefix v |
| Table.Write | tests/go_test.go:1978-1980 | an in-place write succeeds exactly inside the buffer, keeps the length, and changes only the written bytes |
| Table.SlotMutation | tests/go_test.go:1965-1996 | mutating an absent field changes nothing and reports false; a successful mutation writes the new value at the field's offset |
| Table.ReadAfterWrite | tests/go_test.go:1998-2013 | a write does not change reads of disjoint bytes |
| Table.MutateThenGet | tests/go_test.go:1965-2013 | after mutating a present field, the getter returns the new value modulo its width |
| Table.FieldLocated | tests/go_test.go:1965-2013 | writing a field's value does not move where the field is found |
| Table.ReadsOutside | tests/go_test.go:1998-2013 | every read disjoint from a write is unchanged by it |
| Table.MutationWrites | tests/go_test.go:1965-1980 | a present field's mutation is exactly the write of its LE bytes, and reports true |
| Table.ReadWritten | tests/go_test.go:1998-2013 | reading the bytes just written gives their value |
| Table.SameFieldOffset | tests/go_test.go:1998-2013 | a field's offset depends only on the table word and the vtable entries it reads |
| Table.MutateKeepsOthers | tests/go_test.go:1998-2013 | mutating one field leaves every disjoint read unchanged |
| Table.ApplyAll | tests/go_test.go:544-556 | applying a series of in-place writes keeps the buffer length |
| Table.Originals | tests/go_test.go:636-645 | each reverting write has the place and width of the write it undoes |
| Table.ApplyAllAt | tests/go_test.go:544-556 | after separate writes each byte is the last write's byte there, or the original byte when untouched |
| Table.RevertRestores | tests/go_test.go:625-656 | writing every field back to its original value gives back the original buffer |
| Table.OriginalsSeparate | tests/go_test.go:625-656 | the reverting writes are as separate as the writes they undo |
| Table.RevertByte | tests/go_test.go:625-656 | every byte is restored by the reverting writes |
| Table.OriginalByte | tests/go_test.go:625-656 | a reverting write carries the original byte at every position it covers |
| Table.ApplyAllAt0 | tests/go_test.go:544-556 | separate writes within the buffer always succeed |
| Table.NoPatchesFitEmpty | tests/go_test.go:544-556 | no write fits in an empty buffer, so applying them changes nothing |
| Table.TableView.constructor | tests/go_test.go:1930-1933 | a table view is the buffer and the table's position |
| Table.TableView.MutateSlot | tests/go_test.go:1965-1996 | mutating a slot in place leaves the array equal to the model's SlotMutation and reports whether the field was present |
| Table.TableView.Mutate | tests/go_test.go:1978-1980 | an in-place scalar write leaves the array equal to the model's Write, and unchanged when out of bounds |
| Table.TableView.WriteInPlace | tests/go_test.go:1978-1980 | writing bytes into the array succeeds exactly inside it and then equals the model's Write |
| ReadBack.CalcVOffsetT | tests/go_test.go:1935-1937 | the vtable offset of slot i is an even number past the two metadata words, and slot i is recovered from it |
| ReadBack.CalcVOffsetTInjective | tests/go_test.go:1935-1937 | two slots have the same vtable offset if and only if they are the same slot |
| ReadBack.GetSlotPrefix | tests/go_test.go:772-808 | a table read keeps its value when more bytes are written in front of the buffer |
| ReadBack.TableField | tests/go_test.go:1545-1566 | the reader finds a field's offset in the vtable the table's word leads to |
| ReadBack.VtableFieldOfWords | tests/go_test.go:1545-1566 | a written vtable answers each slot's offset within the object, or 0 for an unset or trimmed slot |
| ReadBack.SlotInVtable | tests/go_test.go:1545-1566 | trimming does not change what any slot's offset reads as |
| ReadBack.TrimEntry | tests/go_test.go:992-1004 | a slot beyond the trimmed vtable reads as unset, the same as in the untrimmed one |
| ReadBack.ReadThroughVtable | tests/go_test.go:1545-1566 | a field laid down in an object reads back through the table reader as the value recorded for it |
| ReadBack.EndObjectReadBack | tests/go_test.go:1541-1571 | once an object ends, each slot reads back through the table at the returned offset as the value written there, or the default when unset, whether the vtable is new or shared |
| ReadBack.EndObjectOffset | tests/go_test.go:1497 | EndObject returns the offset of the object's leading word |
| ReadBack.Outcome | tests/go_test.go:1541-1543 | after EndObject, the table at the returned offset leads to a vtable with the object's candidate bytes |
| ReadBack.HitOutcome | tests/go_test.go:1515-1523 | a shared vtable is reachable from the object's word with the same bytes |
| ReadBack.MissOutcome | tests/go_test.go:1524-1534 | a new vtable is reachable from the object's word |
| ReadBack.FinishedRoot | tests/go_test.go:519-521 | loading the root of a buffer that Finish produced reaches the root table Finish was given |
| ReadBack.SizePrefixedWords | tests/go_test.go:1854-1857 | the header words of a size-prefixed layout read back as the length of the rest and the root's position |
| ReadBack.SizePrefixedRoot | tests/go_test.go:1854-1857 | for a size-prefixed Finish, the prefix is the buffer's length minus 4 and the size-prefixed root is the root table |
| ReadBack.HitWord | tests/go_test.go:1515-1520 | the signed back-reference word leads from the table to the cached vtable |
| Lcg.Step | tests/go_test.go:1888-1892 | the next state is below the modulus and fits in 32 bits |
| Lcg.StepExact | tests/go_test.go:1889 | for a 32-bit state the 64-bit product does not overflow, so Next is the exact product modulo 4294967291 |
| Lcg.Outputs | tests/go_test.go:1888-1892 | the first n outputs are below the modulus and the last is the state after n steps |
| Lcg.OutputsChain | tests/go_test.go:1888-1892 | each output is the step of the one before |
| Lcg.LCG.constructor | tests/go_test.go:1876-1882 | a new generator starts at the seed 48271 |
| Lcg.LCG.Reset | tests/go_test.go:1884-1886 | Reset puts the generator back to the seed |
| Lcg.LCG.Next | tests/go_test.go:1888-1892 | Next returns and stores state times 279470273 modulo 4294967291 |
| Lcg.ReplayChoices | tests/go_test.go:724-781 | re-seeding replays exactly the same choices, each below the number of kinds |
| Lcg.Draw | tests/go_test.go:724 | drawing count choices gives the outputs from the current state modulo the number of kinds |
| Fuzz.Width | tests/go_test.go:725-748 | each of the 11 kinds is 1, 2, 4 or 8 bytes wide |
| Fuzz.Pattern | tests/go_test.go:697-709 | each test value is non-zero, so differs from the default 0, and fits its width |
| Fuzz.PatternsAreTestValues | tests/go_test.go:699-707 | the stored patterns are true, -127, 0xFF, -32222, 0xFEEE, the overflowing int32 and int64, 0xFDDDDDDD and 0xFCCCCCCCCCCCCCCC |
| Fuzz.Kind | tests/go_test.go:724 | every drawn kind is one of the 11 |
| Fuzz.Opening | tests/go_test.go:721 | starting an object from an idle builder succeeds with no field filled |
| Fuzz.FillStep | tests/go_test.go:723-748 | prepending the drawn kind's value in slot f succeeds, fills one more field and only adds bytes in front |
| Fuzz.HeldRecorded | tests/go_test.go:723-748 | a written field's recorded value is the pattern of its drawn kind |
| Fuzz.ClosingExtends | tests/go_test.go:751 | ending an object only adds bytes in front of the earlier data |
| Fuzz.ClosingIdle | tests/go_test.go:751 | after ending an object the builder is idle again |
| Fuzz.ClosingBound | tests/go_test.go:751 | ending an object adds at most two bytes per slot plus 11 |
| Fuzz.ClosingReads | tests/go_test.go:751-806 | once an object ends, every field reads back as its drawn kind's value |
| Fuzz.DrawKind | tests/go_test.go:724 | a draw advances the generator one step and returns that step's kind |
| Fuzz.OpenObject | tests/go_test.go:721 | the class StartObject opens an object with no field filled |
| Fuzz.PrependDrawn | tests/go_test.go:725-748 | the switch on the drawn kind prepends that kind's value into slot f |
| Fuzz.EndFilled | tests/go_test.go:751 | ending a filled object leaves the builder idle, within its size bound, with every field readable |
| Fuzz.FillFields | tests/go_test.go:723-749 | the field loop draws one kind per field and fills every field |
| Fuzz.BuildObject | tests/go_test.go:720-755 | one object is built, and each of its fields reads back as drawn |
| Fuzz.StoredStep | tests/go_test.go:753-755 | storing a new object's offset keeps every earlier object readable in the grown buffer |
| Fuzz.BuildNext | tests/go_test.go:720-755 | one turn of the build loop keeps the generator in step, the builder idle and within its size bound, and every built object readable |
| Fuzz.BuildAll | tests/go_test.go:713-756 | after the build loop every field of every object reads back as drawn |
| Fuzz.ObjectReads | tests/go_test.go:772-777 | the i-th object's fields read back in the final buffer |
| Fuzz.ReadObject | tests/go_test.go:779-807 | reading an object's fields with the replayed kinds finds no mismatch |
| Fuzz.CheckFuzz | tests/go_test.go:695-808 | building, re-seeding and reading back all objects finds no mismatch |
| ByteLayout.PadOf | tests/go_test.go:866-870 | the padding before a scalar is -used modulo its width |
| ByteLayout.Prepended | tests/go_test.go:856-879 | a prepended scalar is its bytes, then its pad, then the data |
| ByteLayout.SmallNumbers | tests/go_test.go:858-865 | a bool, an int8 and a uint8 give [1], [129,1], [255,129,1] |
| ByteLayout.FirstPad | tests/go_test.go:866-867 | the int16 after three bytes is padded by one zero |
| ByteLayout.NoPad | tests/go_test.go:868-869 | the uint16 after six bytes needs no pad |
| ByteLayout.Words32 | tests/go_test.go:870-873 | the int32 -53687092 and the uint32 0x98765432 go in front without pad |
| ByteLayout.Bytes32 | tests/go_test.go:870-873 | the two 32-bit patterns are the expected bytes |
| ByteLayout.Bytes64 | tests/go_test.go:877-879 | the 64-bit pattern is the expected bytes |
| ByteLayout.Number64 | tests/go_test.go:875-879 | a uint64 on an empty builder is its eight bytes, least significant first |
| ByteLayout.OneByteVector | tests/go_test.go:881-890 | a one-byte vector is three pad bytes, the byte, then the count: [1,0,0,0,1,0,0,0] |
| ByteLayout.TwoByteVector | tests/go_test.go:892-902 | a two-byte vector is [2,0,0,0,2,1,0,0] |
| ByteLayout.OneHalfVector | tests/go_test.go:918-926 | a one-uint16 vector is [1,0,0,0,1,0,0,0] |
| ByteLayout.TwoHalfVector | tests/go_test.go:928-938 | a two-uint16 vector is [2,0,0,0,0xBA,0xDC,0xCD,0xAB] |
| ByteLayout.StringLaid | tests/go_test.go:940-958 | a short string is its length word, bytes, NUL and pad to a word |
| ByteLayout.FooString | tests/go_test.go:940-942 | "foo" is [3,0,0,0,'f','o','o',0] |
| ByteLayout.MoopString | tests/go_test.go:943-945 | "moop" after "foo" adds its word, bytes, NUL and three pad bytes |
| ByteLayout.UnicodeString | tests/go_test.go:949-958 | the nine UTF-8 bytes are followed by the NUL and two pad bytes |
| ByteLayout.EmptyVtable | tests/go_test.go:969-974 | an empty object closes as [4,0,4,0,4,0,0,0] |
| ByteLayout.DefaultBool | tests/go_test.go:992-1004 | a bool slot at its default is not stored: the object closes as the empty one |
| ByteLayout.TrueBoolSlot | tests/go_test.go:976-979 | a true bool in slot 0 puts the byte 1 in front and records the slot |
| ByteLayout.TrueBoolObject | tests/go_test.go:980-990 | the object of one true bool closes as [6,0,8,0,7,0,6,0,0,0,0,0,0,1] |
| ByteLayout.OneSlotVtable | tests/go_test.go:980-984 | the vtable of one slot at 7 in an 8-byte object is [6,0,8,0,7,0] |
| ByteLayout.Misuse | tests/go_test.go:1576-1600 | EndObject outside an object, a string in an object, a struct not inline and the bytes of an unfinished buffer are each refused with their error |
| ByteLayout.ManualByteVector | tests/go_test.go:1789-1798 | StartVector, prepending the bytes last to first, and EndVector leave the builder exactly as CreateByteVector does |
| ByteLayout.PrependByteAt | tests/go_test.go:1793-1795 | one turn of the manual loop puts v[i-1] in front of the bytes already placed |

## Left out

- Float values: float32 and float64 fields are stored as their IEEE 754 bit patterns, and the model has no floating-point arithmetic.
- The JSON parser, schema validation, generated accessors, the Object API, sorted lookup by key, enum names, namespaces, benchmarks, and file or flag I/O: none of these is part of this model.
- The property checks with random inputs (CheckEmptiedBuilder, CheckSharedStrings) are stated as lemmas over all inputs, not as sampled runs.
- `FailString` and the fuzz test's per-kind counts are left out: they only report failures. The closing check that all 11 kinds occurred (tests/go_test.go:811-814) depends on the generator's actual sequence and is not proved.
- CreateByteString is left out. It writes exactly the same bytes as CreateString (tests/go_test.go:960-967); CreateString takes its input as bytes.
- FinishWithFileIdentifier is not part of this model.
- Go's 2 GB buffer limit and the 32-bit wrap-around of `UOffsetT` arithmetic are not modelled. Offsets are unbounded naturals. Fuzz.CheckFuzz and Fuzz.BuildAll require the objects to fit in 2^31 bytes, and the vtable to fit 16-bit entries. ReadBack.FinishedRoot and ReadBack.SizePrefixedRoot require the finished buffer to be shorter than 2^32 bytes, so that the root word holds the distance exactly.
- BuilderModel.Prep: a `size` of 0 gives no padding. The runtime's mask `size - 1` would be all ones there, but every caller passes a width of at least 1.
- Runtime.Builder.GrowByteBuffer: the bytes below `head` after a growth are left unconstrained. Only the data from `head` on is modelled.
- Runtime.Builder: Go panics are modelled as `Err` results in BuilderModel and as a `false` status in the class. On `false` the contracts promise only `Valid()`: the builder's contents are unspecified, as a Go builder that panicked halfway is left partly written.
- Runtime.Builder.PrependUOffsetT, Runtime.Builder.PrependSOffsetT: on `false` the alignment padding is already written, because the runtime's Prep runs before the failing check.
- Runtime.Builder.PrependSlot, Runtime.Builder.PrependUOffsetTSlot: on `false` (a slot outside the object) the value is already written.
- Runtime.Builder.Finish: on `false` the alignment padding is already written.
- Test 3b (tests/go_test.go:904-916, growth past the initial capacity) is covered by the general contracts of Reserve and PrependScalar, not by a concrete byte lemma.
- Tests 10 to 20 of the byte-layout test (tests/go_test.go:1006-1307) and the exact bytes of the deduplication test (tests/go_test.go:1515-1534) are not stated byte by byte. Their vtables and objects are covered by EndObjectHit, EndObjectMiss, LaterObjectShares and EndObjectReadBack. For `Finish`, FinishLayout states the root word and size word, FinishAligned the alignment, and FinishKeeps the zero padding and the unchanged data below them.
- The mutate-buffer test's monster schema (tests/go_test.go:511-657) depends on generated code. It is modelled as separate in-place writes over any buffer (Table.RevertRestores), not on the monster's own fields.
