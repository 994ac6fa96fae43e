# The header codec and the Lua handles, modelled and proved in Dafny

A game server sends a small Protocol Buffers header in front of every packet and lets Lua scripts build and take apart
such messages through generated bindings. This project models the two parts of that code which have real state, and
proves what they are relied on for.

**The header codec.** `Header` has two int32 fields, six uint32 fields, two repeated uint32 fields and a set of unknown
fields, behind a word of has-bits.

- `Bytes`, `Varint` and `Wire` hold the wire format down to the bytes: base 128 varints with 64-bit sign extension and
  32-bit truncation, tags, and unknown fields of every wire type, groups nested up to a hundred deep included.
- `HeaderRecords` says what a header message is, which records an input holds (`ScanAll`, the plain read-a-tag-and-
  dispatch loop), and what the serialized form is. `MergeLaws`, `Reordering`, `Concatenation`, `RoundTrip` and
  `SizeBounds` prove properties of it for all messages and all inputs.
- `CodedInput` and `CodedOutput` are the library's streams and array writers as classes and loops, with the unrolled
  varint writers. `HasBits` is the has-bit word as a machine word.
- `HeaderClass` is the class itself: accessors, guarded clear and merge, swap, both serializers, the size, and the
  parser with its jumps. Each label of the parser's switch is a value of `Label`; `RunLabel` runs the code at one label
  up to the next jump; `ParserProgress` relates what has been read to what the plain loop reads. The look-ahead calls
  may answer false at any time, so every pattern of jumps is covered.
- `WireNumbers` and `HeaderNumbers` tie all of this to plain numbers, from the digits of a varint on: which bytes stand for
  which value, what each tag does to the message, how a read ends, and what a failed one leaves.
- `LuaTables` and `HeaderLua` are the loops that carry a repeated field to a Lua table and back.

**The handles.** A binding call makes owning handles (`new`, `get_...`) or borrowed ones (`set_...`, `rawget_...`), and
the garbage collector collects them in any order. `Ownership` models the heap of messages, the live handles, the counter
and the registered messages, with `ListenConfig` (no nested message), `InitServer` (repeated nested messages) and
`ServerActive` (one optional nested message) as the three shapes. `HandleRuns` proves what every run keeps, and
`HandleLedger` what becomes of the counter, the registered messages and the memory report over a run; `HandleMeaning`
says what single calls do to the message behind a handle and what a run of them leaves present; `Bindings` has the same
calls as methods that change the state in place, loops included.

**Nested messages.** `ListenConfigs` models the accessors of the string field of `ListenConfig`, with its shared empty
string, and of the optional nested message of `ServerActive`, and writes both messages: sizes are cached in one pass and
used as length prefixes in the next. `ConfigWire` says what is written and what a plain loop reads back, and
`ConfigMeaning` what that means in plain numbers, and that reading is merging.

Five results say exactly when the code does what one would expect of it:

- A packed record whose declared length is more than the input holds (or is negative as an int) is cut at the end of the
  input and accepted. So reading two complete inputs one behind the other is not always merging what they say;
  `Concatenation.ConcatIsMergeExactly` gives the exact condition on the first one, and `ClampedExample` an input of
  three bytes that fails it.
- The handle counter goes down for handles made by `PushMessage`, which never went up. `HandleLedger.CounterDrift` gives
  the value after every run, `CounterIsExact` says that it is the number of live handles exactly in the runs without
  `PushMessage`, and `DriftExample` shows runs of one and two calls.
- The memory report asks each registered message for its size. When the handle of a message is collected while one of
  its nested messages is registered, the nested one is freed and stays registered. `HandleLedger.RunAndReport` says for
  which runs all registered messages stay allocated, and `ReportExample` is a run of three calls that is not one of them.
- A collection also drops the registration that another live handle to the same message relies on.
  `HandleLedger.RunAndRegistry` says for which runs this never happens, and `RegistryExample` is one of four calls where
  it does.
- A nested message is read with one level of group nesting less than on its own. `ConfigWire.ActiveRoundTrip` says which
  messages can be read back, and `TooDeepExample` is one that cannot.

## Model

| member | source | states |
|---|---|---|
| `WireNumbers.VarintMeaning` | contrib/protobuf/src/google/protobuf/io/coded_stream.cc:422-443 | bytes up to the first one below 128, within ten, are read as the sum of their low seven bits weighted by powers of 128, cut to 64 bits, or to 32 |
| `WireNumbers.NoVarint` | contrib/protobuf/src/google/protobuf/io/coded_stream.cc:422-443 | a read succeeds if and only if a byte below 128 comes within ten bytes |
| `WireNumbers.WrittenVarint` | contrib/protobuf/src/google/protobuf/io/coded_stream.cc:672-692 | byte i of a written varint is the i-th digit to the base 128, plus 128 unless it is the last; the least number of bytes is written |
| `WireNumbers.NegativeIsWritten` | contrib/protobuf/src/google/protobuf/io/coded_stream.h:944-950 | a negative int32 v is written as the ten digits of 2^64 + v to the base 128 |
| `WireNumbers.ReadIsCongruent` | contrib/protobuf/src/google/protobuf/wire_format_lite_inl.h:53-62 | a 64-bit value read as int32 gives the one int32 that is congruent to it modulo 2^32 |
| `WireNumbers.FixedMeaning` | contrib/protobuf/src/google/protobuf/io/coded_stream.h:778-812 | the four or eight bytes of a fixed number are weighted by powers of 256 from the first byte on |
| `WireNumbers.WrittenFixed` | contrib/protobuf/src/google/protobuf/io/coded_stream.cc:612-640 | the bytes written for a fixed number have its value |
| `WireNumbers.FieldByTag` | contrib/protobuf/src/google/protobuf/wire_format.cc:81-139 | what is read behind a tag, by its remainder modulo 8 in plain numbers: 0 a varint, 1 eight bytes, 2 a length and that many bytes, 5 four bytes, 4, 6 and 7 a failure; and what a failed read leaves |
| `WireNumbers.GroupByTag` | contrib/protobuf/src/google/protobuf/wire_format.cc:111-125 | for every n, the tag 8n + 3, written fields and the tag 8n + 4 are one unknown group |
| `WireNumbers.GroupLeftOpen` | contrib/protobuf/src/google/protobuf/wire_format.cc:111-125 | a group that ends with the input or with the end tag of another number fails and leaves what it holds; one level more than allowed leaves nothing |
| `WireNumbers.FieldInBytes` | contrib/protobuf/src/google/protobuf/wire_format.cc:161-196 | the tag and the payload that are written for each kind of unknown field, in plain numbers |
| `Varint.RoundTrip64` | contrib/protobuf/src/google/protobuf/io/coded_stream.cc:422-443 | reading back a written 64-bit varint gives the value and stops right behind it, whatever follows; at most ten bytes |
| `Varint.RoundTrip32` | contrib/protobuf/src/google/protobuf/io/coded_stream.cc:309-335 | the same for a 32-bit value |
| `Varint.RoundTripInt32` | contrib/protobuf/src/google/protobuf/io/coded_stream.h:944-950 | an int32 that is written sign-extended to 64 bits and read back truncated to 32 is the same int32; ten bytes if negative, at most five otherwise |
| `Varint.ReadPrefix` | contrib/protobuf/src/google/protobuf/io/coded_stream.cc:309-335 | a varint that was read does not depend on the bytes behind it |
| `Varint.SizeIsLength32` | contrib/protobuf/src/google/protobuf/io/coded_stream.cc:813-825 | the threshold table for 32-bit sizes counts exactly the bytes that are written |
| `Varint.SizeIsLength64` | contrib/protobuf/src/google/protobuf/io/coded_stream.cc:827-855 | the two-level threshold table for 64-bit sizes counts exactly the bytes that are written |
| `Varint.SizeIsLengthInt32` | contrib/protobuf/src/google/protobuf/io/coded_stream.h:1020-1026 | the signed size is the length of the sign-extended varint |
| `CodedInput.CodedInputStream.ReadVarint64` | contrib/protobuf/src/google/protobuf/io/coded_stream.cc:422-443 | the loop over at most ten bytes reads the varint at the front of the window, or fails where there is none; the value is cut to 64 bits |
| `CodedInput.CodedInputStream.ReadTag` | contrib/protobuf/src/google/protobuf/io/coded_stream.h:842-851 | zero at the end of the input, and then the end counts as legitimate; zero as well for a malformed or all-zero tag, and then it does not; else the tag, consumed |
| `CodedInput.CodedInputStream.ExpectTag` | contrib/protobuf/src/google/protobuf/io/coded_stream.h:861-882 | a true answer consumes exactly the expected tag, in its one- or two-byte form, and it is the tag that would have been read; a false answer consumes nothing and says nothing about what is next |
| `CodedInput.CodedInputStream.ExpectAtEnd` | contrib/protobuf/src/google/protobuf/io/coded_stream.h:905-918 | a true answer is given only at the end of the window and leaves the stream as if the end had been read |
| `CodedInput.CodedInputStream.PushLimit` | contrib/protobuf/src/google/protobuf/io/coded_stream.cc:112-135 | the window is cut to the limit; a limit past the window, or negative as an int, leaves it as it is; no byte is lost |
| `CodedInput.CodedInputStream.PopLimit` | contrib/protobuf/src/google/protobuf/io/coded_stream.cc:137-146 | the hidden bytes are back behind what is left of the window, and the end no longer counts as legitimate |
| `CodedInput.CodedInputStream.ReadString` | contrib/protobuf/src/google/protobuf/io/coded_stream_inl.h:47-63 | a negative size fails with nothing read; a size past the window takes what there is and fails; else exactly that many bytes |
| `CodedInput.CodedInputStream.SkipField` | contrib/protobuf/src/google/protobuf/wire_format.cc:81-139 | one unknown field of any wire type is read into the unknown set; what a failed read had added stays; groups may nest a hundred deep |
| `CodedInput.CodedInputStream.SkipMessage` | contrib/protobuf/src/google/protobuf/wire_format.cc:141-159 | the loop over the fields of a group reads the same fields, last tag and rest as the recursive definition |
| `Wire.SkippedIsValid` | contrib/protobuf/src/google/protobuf/wire_format.cc:81-139 | what a skip adds, also a failing one, is at most one field, with the tag that was read and a nesting within the limit |
| `Wire.PayloadRoundTrip` | contrib/protobuf/src/google/protobuf/wire_format.cc:161-196 | skipping a written unknown field, nested groups included, gives the field back and stops at its end |
| `Wire.BodyRoundTrip` | contrib/protobuf/src/google/protobuf/wire_format.cc:141-159 | the body of a written group is read back field by field up to its end tag |
| `Wire.SkipPrefix` | contrib/protobuf/src/google/protobuf/wire_format.cc:81-139 | an unknown field that was skipped does not depend on the bytes behind it |
| `Wire.UnknownFieldsSize` | contrib/protobuf/src/google/protobuf/wire_format.cc:291-337 | the int sum over the unknown set is the number of bytes that writing it gives, with no addition out of range, exactly when that number is below 2^31 |
| `CodedOutput.CodedOutputStream.WriteVarint` | contrib/protobuf/src/google/protobuf/io/coded_stream.cc:672-692 | the seven-bits-at-a-time loop appends the varint |
| `CodedOutput.WriteVarint32FallbackToArray` | contrib/protobuf/src/google/protobuf/io/coded_stream.cc:642-670 | the unrolled writer puts exactly the varint in place, nothing outside its range changes, and the end is right behind it |
| `CodedOutput.WriteVarint64ToArray` | contrib/protobuf/src/google/protobuf/io/coded_stream.cc:699-769 | the three-part writer with its binary search for the length and its fall-through stores puts exactly the varint in place |
| `CodedOutput.GroupCount` | contrib/protobuf/src/google/protobuf/io/coded_stream.cc:707-752 | the binary search over the three parts finds the length of the varint |
| `CodedOutput.WriteTagToArray` | contrib/protobuf/src/google/protobuf/io/coded_stream.h:998-1010 | the direct one- and two-byte forms and the general one put the same varint in place |
| `CodedOutput.CodedOutputStream.WriteUnknownFields` | contrib/protobuf/src/google/protobuf/wire_format.cc:161-196 | the stream writer appends the bytes of the unknown set |
| `CodedOutput.WriteUnknownFieldsToArray` | contrib/protobuf/src/google/protobuf/wire_format.cc:198-231 | the array writer puts the same bytes in place and ends right behind them |
| `HeaderNumbers.HeaderCases` | pb/header.pb.cc:205-391 | the tags of the eight scalars, of the two lists, of their packed forms, and the ones that end the read, in plain numbers |
| `HeaderNumbers.ScalarIsRead` | pb/header.pb.cc:209-219 | the value behind the tag 8k is stored in field k, as the int32 or uint32 congruent to it modulo 2^32; a malformed one fails the read and changes nothing |
| `HeaderNumbers.ElementIsRead` | pb/header.pb.cc:302-309 | a value behind the tag 56 or 64 is appended to its list |
| `HeaderNumbers.PackedIsRead` | pb/header.pb.cc:310-315 | behind the tag 58 or 66 the values of the payload are appended, those in front of a malformed one as well; an overlong or negative length takes all that is left |
| `HeaderNumbers.PackedMeaning` | contrib/protobuf/src/google/protobuf/wire_format_lite_inl.h:322-335 | a payload is one varint after the other until it is used up or there is none |
| `HeaderNumbers.UnknownIsRead` | pb/header.pb.cc:378-386 | every other tag that is not 4 modulo 8 is skipped into the unknown fields, with groups up to a hundred deep; what a failed skip had added stays |
| `HeaderNumbers.EndGroupEndsRead` | pb/header.pb.cc:380-383 | a tag that is 4 modulo 8, of whatever field, ends the read without failing and without completing it |
| `HeaderNumbers.NoTagEndsRead` | pb/header.pb.cc:205-205 | the end of the input completes the read; a zero or malformed tag ends it without failing or completing |
| `HeaderNumbers.GroupExample` | pb/header.pb.cc:378-386 | the bytes 91 92 are kept as an empty unknown group of field 11 |
| `HeaderClass.Header.MergePartialFromCodedStream` | pb/header.pb.cc:201-392 | for every input, every starting message and every pattern of answers to the two look-ahead calls, the goto-linked parser ends with the message and the success flag of the plain read-a-tag-and-dispatch loop; the end counts as legitimate exactly when every byte belongs to a complete record |
| `HeaderClass.Header.RunLabel` | pb/header.pb.cc:205-391 | the code at one label reads the record whose tag was consumed, jumps only to a label whose tag was just consumed and never to the one that looks at the last tag, and every jump leaves fewer unread bytes |
| `HeaderClass.Header.AfterRepeated` | pb/header.pb.cc:319-342 | behind a repeated field the parser goes to a label whose tag was just consumed, or back to the loop with nothing consumed; never to the one that looks at the last tag |
| `HeaderClass.Header.ReadScalar` | pb/header.pb.cc:221-225 | a read value is stored with its has-bit; a failed read leaves the field and the bit as they were |
| `HeaderClass.Header.ReadRepeated` | contrib/protobuf/src/google/protobuf/wire_format_lite_inl.h:224-239 | the inner loop over reserved slots, however many there are, reads the same records as the plain loop |
| `HeaderClass.Header.ReadPackedInto` | contrib/protobuf/src/google/protobuf/wire_format_lite_inl.h:322-335 | the loop under a pushed limit appends the varints of the payload; the values before a malformed one stay; an overlong length is cut at the end of the input |
| `HeaderClass.Header.SkipUnknown` | pb/header.pb.cc:378-386 | whatever no case takes goes to the unknown set, and it is never something that a case would take |
| `HeaderClass.Header.ParseFromArray` | contrib/protobuf/src/google/protobuf/message_lite.cc:137-141 | clears, reads, and succeeds exactly when every byte belongs to a complete record; the message is what was read either way |
| `HeaderRecords.NextStep` | pb/header.pb.cc:205-391 | each record that the plain loop reads takes at least one byte, so it ends on every input |
| `MergeLaws.ParseMeaning` | pb/header.pb.cc:205-390 | after a complete read into a cleared message each scalar is its last record, each repeated field the in-order concatenation of all its records, packed or not, and the unknown set the in-order subsequence of the others |
| `MergeLaws.Meaning` | pb/header.pb.cc:205-390 | the same for any list of records |
| `Reordering.ReorderedInputs` | pb/header.pb.cc:205-390 | two inputs whose records of each known field come in the same order give the same known fields, however the fields are interleaved |
| `Reordering.ProjectionsDetermineKnownFields` | pb/header.pb.cc:205-390 | the known fields depend only on the subsequence of records of each field |
| `Concatenation.SwapInInput` | pb/header.pb.cc:205-390 | swapping the bytes of two neighbouring records of different fields, anywhere in the input and one of them possibly unknown, changes neither the message nor how the read ends |
| `Concatenation.StepPrefix` | pb/header.pb.cc:205-390 | a record that was read without being cut at the end of the input does not depend on what follows it |
| `Concatenation.ScanConcat` | pb/header.pb.cc:205-390 | the records of a concatenation are those of the first part and then those of the second |
| `Concatenation.ParseConcat` | pb/header.pb.cc:201-392 | reading a + b into any message is reading a and then b |
| `Concatenation.ConcatIsMerge` | pb/header.pb.cc:621-654 | if a and b are complete and a has no cut packed record, reading a + b is reading both and merging |
| `Concatenation.ConcatIsMergeExactly` | pb/header.pb.cc:201-392 | for a complete a, every complete b gives reading a + b equal to merging if and only if no packed record of a declares more bytes than a holds |
| `Concatenation.ClampedExample` | contrib/protobuf/src/google/protobuf/io/coded_stream.cc:112-135 | the input 58 5 1 is accepted although its packed record is cut, and concatenation is not merge for it |
| `RoundTrip.RecordRoundTrip` | pb/header.pb.cc:201-392 | each written record is read back as itself, whatever follows |
| `RoundTrip.SerializeIsRecords` | pb/header.pb.cc:454-513 | the serialized form is the records of the message, field by field, and then the unknown ones |
| `HeaderNumbers.SerializedInBytes` | pb/header.pb.cc:454-513 | the serialized form in plain bytes: the tags 8, 16, ... 80 in ascending order, negative numbers as 2^64 + v, the unknown fields last |
| `HeaderNumbers.MinusOneExample` | pb/header.pb.cc:454-460 | the packet id -1 is written as 8, nine times 255, 1 |
| `RoundTrip.ParseSerialize` | pb/header.pb.cc:454-513 | reading the serialized form into a cleared message gives the message back: values, presence, repeated fields and unknown fields, negative int32 included |
| `RoundTrip.SerializeInjective` | pb/header.pb.cc:454-513 | different messages have different serialized forms |
| `RoundTrip.ParseIsWellFormed` | pb/header.pb.cc:378-386 | no read, not even one that fails part-way, leaves among the unknown fields a record that a known case takes |
| `RoundTrip.SerializeAfterParse` | pb/header.pb.cc:508-511 | whatever was read, writing it and reading it again keeps the meaning, and writing is stable from then on |
| `RoundTrip.PackedIsUnpacked` | pb/header.pb.cc:302-344 | a packed record of field 7 or 8, in any spelling of its tag and length, can be replaced by the run of varint records with the same values anywhere in the input |
| `HeaderClass.Header.FieldsByNumber` | pb/header.pb.h:224-447 | which member each field number stands for |
| `HasBits.MaskIsShift` | pb/header.pb.h:224-447 | field k has bit k - 1 of the has-bit word |
| `HeaderClass.Header.constructor` | pb/header.pb.cc:139-150 | a new message is the default message |
| `HeaderClass.Header.HasField` | pb/header.pb.h:224-226 | the has-bit says whether the field is present |
| `HeaderClass.Header.Get` | pb/header.pb.h:237-239 | a present field gives its value and an absent one its default |
| `HeaderClass.Header.SetField` | pb/header.pb.h:240-243 | the field becomes present with that value and nothing else changes |
| `HeaderClass.Header.ClearField` | pb/header.pb.h:233-236 | the field becomes absent, reads as its default, and nothing else changes |
| `HeaderClass.Header.ClearRemoteGuids` | pb/header.pb.h:359-361 | the repeated field becomes empty and nothing else changes |
| `HeaderClass.Header.Clear` | pb/header.pb.cc:182-199 | the clear guarded by the two group masks always gives the default message |
| `HasBits.ClearIsTotal` | pb/header.pb.cc:182-199 | if absent fields are at their defaults, resetting only the groups whose mask is not zero resets every field |
| `HasBits.MessageDeterminesRep` | pb/header.pb.h:224-447 | two valid representations of the same message have the same has-bit word and the same field values, absent ones included; bits 6, 7 and above 9 are never set |
| `HasBits.StoreField` | pb/header.pb.h:240-243 | setting a bit and storing a value in range keeps the representation valid and changes one field |
| `HasBits.DropField` | pb/header.pb.h:233-236 | dropping a bit and storing the default keeps the representation valid and removes one field |
| `HeaderClass.Header.MergeFrom` | pb/header.pb.cc:621-654 | the two guarded groups and the repeated and unknown fields merge as the abstract operation says: present scalars overwrite, the rest is appended |
| `MergeLaws.MergeAssociative` | pb/header.pb.cc:621-654 | merging is associative |
| `MergeLaws.MergeIdentity` | pb/header.pb.cc:621-654 | the default message is its identity on both sides |
| `MergeLaws.ApplyAllIsMerge` | pb/header.pb.cc:621-654 | reading records into a message is merging the message that they describe on their own |
| `HeaderClass.Header.CopyFrom` | pb/header.pb.cc:662-666 | the target becomes equal to the source, whatever it held, also when both are the same object |
| `HeaderClass.Header.Swap` | pb/header.pb.cc:673-689 | the two messages and their cached sizes change places, also when both are the same object |
| `HeaderClass.Header.ByteSize` | pb/header.pb.cc:515-607 | the int sum, taken in another order than the writers write, is the number of bytes of the serialized form and is cached; no addition in it goes out of range if and only if that number is below 2^31 |
| `HeaderClass.Header.SerializeWithCachedSizes` | pb/header.pb.cc:394-452 | the stream writer appends the serialized form |
| `HeaderClass.Header.SerializeWithCachedSizesToArray` | pb/header.pb.cc:454-513 | the array writer stays in bounds, puts the same bytes in place, changes nothing else, and ends right behind them |
| `HeaderClass.Header.Serialized` | pb/header.lua.cc:185-195 | a buffer of exactly the computed size is filled to its last byte with the serialized form, whenever the size fits an int |
| `HeaderClass.Header.RepeatedSize` | pb/header.pb.cc:578-586 | one byte of tag per value plus the int sum over the values is the size of the section, exactly when it is below 2^31 |
| `HeaderClass.RepeatedDataSize` | pb/header.pb.cc:580-584 | the loop sums the lengths of the values in an int, exactly as long as the sum is below 2^31 |
| `SizeBounds.SizeIsBounded` | pb/header.pb.cc:515-607 | the size is at most 58 + 6 per repeated element + the unknown bytes, and at least 2 per element + the unknown bytes |
| `SizeBounds.ScalarBytesBound` | pb/header.pb.cc:518-534 | a negative int32 field takes exactly eleven bytes, any other present scalar two to six, an absent one none |
| `SizeBounds.BoundIsReached` | pb/header.pb.cc:515-607 | the bound is reached by messages with any number of repeated elements |
| `SizeBounds.SizeFits` | pb/header.pb.cc:515-607 | the size is below 2^31 if the bound is, and not from 2^30 repeated elements on |
| `HeaderLua.GetRemoteGuids` | pb/header.lua.cc:415-429 | the countdown loop gives a table with domain 1..n whose entry i is element i - 1 |
| `HeaderLua.SetRemoteGuids` | pb/header.lua.cc:431-444 | the values are appended in the order of the traversal |
| `HeaderLua.ClearSetGet` | pb/header.lua.cc:407-444 | clear, set with a list that is traversed in key order, get gives the same table; a second set repeats the list |
| `HeaderLua.TransferIsPermutation` | pb/header.lua.cc:431-444 | in whatever order a list is traversed, a cleared message that takes it over gets a permutation of it |
| `Bindings.Runtime.PushHandle` | pb/packetSystem.lua.cc:460-470 | a handle is made, counted, and its message registered |
| `Bindings.Runtime.New` | pb/packetSystem.lua.cc:471-482 | an empty message with an owning, counted handle; the ownership invariant is kept |
| `HandleMeaning.NewIsOfItsKind` | pb/packetSystem.lua.cc:1665-1676 | a new message of any kind has no children and nothing present, and its handle accepts the calls on a list exactly if it is an InitServer and those on a nested message exactly if it is a ServerActive |
| `Bindings.Runtime.PushMessage` | pb/lua-protobuf.cc:46-57 | an owning handle to a message made on the C++ side, with whatever is nested in it, that is neither counted nor registered; the invariant is kept |
| `Ownership.PushMessageKeeps` | pb/lua-protobuf.cc:46-57 | a new message and its nested messages come with exactly one owner each |
| `Bindings.Runtime.Gc` | pb/packetSystem.lua.cc:526-536 | the message of an owning handle is still allocated when the handle is collected; it is freed with what it owns, the counter goes down by one and the message is unregistered; the invariant is kept |
| `Bindings.Runtime.DeleteMessage` | contrib/protobuf/src/google/protobuf/repeated_field.h:809-815 | the destructor frees the elements, cleared ones included, or the nested message, each exactly once, and then the message |
| `Bindings.Runtime.ReleaseLast` | contrib/protobuf/src/google/protobuf/repeated_field.h:954-965 | the last element comes out and the hole is filled with the last cleared message |
| `Bindings.Runtime.Add` | contrib/protobuf/src/google/protobuf/repeated_field.h:837-846 | a cleared message is reused if there is one, else one is allocated |
| `Bindings.Runtime.GetServers` | pb/packetSystem.lua.cc:897-912 | the countdown loop releases every element to an owning handle and gives a table whose domain is 1..n; the invariant is kept |
| `Bindings.Runtime.SetServers` | pb/packetSystem.lua.cc:914-928 | the count-up loop for a Lua number, whole or not, appends a message with a borrowed handle in each round and gives a table whose domain is 1..n; the invariant is kept |
| `Bindings.RoundsCountsUp` | pb/packetSystem.lua.cc:918-921 | the loop goes round as often as there are natural numbers below the Lua number: rounded up, and never for zero or less |
| `Bindings.Runtime.RawGetServers` | pb/packetSystem.lua.cc:930-946 | a borrowed handle for an index from 1 to the size; any other index is an error and changes nothing |
| `Bindings.Runtime.Clear` | pb/packetSystem.pb.cc:2103-2117 | elements become cleared messages, a nested message stays and loses its has-bit; nothing is freed |
| `HandleMeaning.ClearLeavesNothing` | pb/packetSystem.pb.cc:3036-3044 | clear leaves nothing present in a message of any kind, keeps its kind and its children, and changes nothing else |
| `HandleMeaning.RawGetInRange` | pb/packetSystem.lua.cc:930-946 | a handle is made exactly for an index from 1 to the size, to that element, and any other index changes nothing |
| `HandleMeaning.SlotIsFilledFromTheEnd` | contrib/protobuf/src/google/protobuf/repeated_field.h:954-965 | releasing a slot moves the last pointer into the hole and no other pointer |
| `HandleMeaning.PresentIsLastSet` | pb/packetSystem.lua.cc:1731-1789 | after every run a server active has its nested message exactly if the last call that made it, or that set, got or cleared what is in it, was a set or handed it over with one |
| `Bindings.Runtime.HasRemoteServer` | pb/packetSystem.lua.cc:1783-1789 | whether the nested message is present |
| `Bindings.Runtime.SizeServers` | pb/packetSystem.lua.cc:948-955 | the number up to which rawget finds an element |
| `Bindings.Runtime.GetRemoteServer` | pb/packetSystem.lua.cc:1764-1772 | the nested message, made first if there is none, passes to an owning handle |
| `Bindings.Runtime.SetRemoteServer` | pb/packetSystem.lua.cc:1774-1781 | the nested message, made first if there is none, gets a borrowed handle |
| `HandleRuns.GetServersHandle` | pb/packetSystem.lua.cc:897-912 | entry i + 1 is an owning handle to what was element i, for every i |
| `HandleRuns.GetServersNewHandles` | pb/packetSystem.lua.cc:897-912 | the release loop makes exactly the handles of the table and no others |
| `HandleRuns.GetServersEmpties` | pb/packetSystem.lua.cc:897-912 | the message is left with no elements and with the cleared messages it had; no other message changes |
| `HandleRuns.SetServersAppends` | pb/packetSystem.lua.cc:914-928 | the elements are kept in place and the new ones follow, cleared messages first; no other message changes |
| `HandleRuns.SetServersHandle` | pb/packetSystem.lua.cc:914-928 | entry i + 1 is a borrowed handle to the i-th appended element |
| `HandleRuns.SetThenRawGetThenGet` | pb/packetSystem.lua.cc:897-946 | what set hands out, what rawget finds at that position and what get then passes on are handles to the same message, only the last one owning |
| `HandleRuns.ClearThenSet` | contrib/protobuf/src/google/protobuf/repeated_field.h:837-860 | a cleared server gives its old elements out again, in the same order, and nothing is allocated |
| `HandleRuns.SetThenGetRemote` | pb/packetSystem.lua.cc:1764-1781 | get after set gives an owning handle to the same message, the parent is left without one, and a further get makes a new message |
| `Ownership.CollectKeeps` | pb/packetSystem.lua.cc:853-862 | collecting any handle finds everything it deletes allocated and leaves each remaining message with exactly one owner |
| `HandleRuns.OpIsSafe` | pb/packetSystem.lua.cc:798-946 | every call that goes through a handle to an allocated message keeps the invariant, and every collection is safe |
| `HandleRuns.RunIsSafe` | pb/packetSystem.lua.cc:798-946 | after every run each allocated message has exactly one owner, in one slot of it, and nested messages are leaves; every owning handle can be collected; and each registered message is the target of a live counted handle, so none that was only handed over is registered |
| `HandleRuns.NothingLeaks` | pb/packetSystem.lua.cc:798-946 | after every run, if no handle is left then no message is left |
| `HandleRuns.EachMessageIsHeld` | pb/packetSystem.lua.cc:798-946 | each allocated message is the target of a live owning handle or nested in one |
| `HandleLedger.CounterDrift` | pb/lua-protobuf.cc:17-18 | after every run the counter is the number of live handles less the number of PushMessage calls |
| `HandleLedger.CounterIsExact` | pb/lua-protobuf.cc:17-18 | the counter is the number of live handles after a run if and only if no call of the run was PushMessage |
| `HandleLedger.DriftExample` | pb/lua-protobuf.cc:55-56 | one handed-over message gives one handle and a counter of zero; its collection gives no handle and minus one |
| `HandleLedger.OpRegisters` | pb/packetSystem.lua.cc:460-482 | every call but PushMessage and collection counts and registers exactly its new handles and touches no other handle |
| `Bindings.Runtime.GetUdataNum` | pb/lua-protobuf.cc:59-69 | the report is the counter and the sum of the sizes of the registered messages over 1024, provided that each is still allocated |
| `HandleLedger.NothingToReport` | pb/lua-protobuf.cc:59-69 | the report of no messages is zero |
| `HandleLedger.OneMoreToReport` | pb/lua-protobuf.cc:59-69 | registering one more message raises the report by exactly its size, wherever its address comes in the walk |
| `HandleLedger.CollectAndReport` | pb/lua-protobuf.cc:59-69 | a collection keeps all registered messages allocated, as the memory report needs, if and only if no child of the deleted message is registered |
| `HandleLedger.OtherCallsAndReport` | pb/lua-protobuf.cc:59-69 | every other call keeps all registered messages allocated |
| `HandleLedger.RunAndReport` | pb/lua-protobuf.cc:59-69 | all registered messages are allocated in every state of a run if and only if no collection in it finds a nested message of the deleted one registered |
| `HandleLedger.ReportExample` | pb/lua-protobuf.cc:59-69 | a three-call run after which a registered message is no longer allocated |
| `HandleLedger.CollectAndRegistry` | pb/packetSystem.lua.cc:526-536 | a collection keeps the messages of all live counted handles registered if and only if no other one refers to the message of the collected handle |
| `HandleLedger.RunAndRegistry` | pb/packetSystem.lua.cc:526-536 | they are registered in every state of a run if and only if no collection in it finds such another handle |
| `HandleLedger.RunsFromStart` | pb/lua-protobuf.cc:17-18 | the two conditions, on reports and on registrations, for every run from the empty state |
| `HandleLedger.RegistryExample` | pb/packetSystem.lua.cc:526-536 | a four-call run after which a live counted handle has an allocated message that is not registered |
| `ListenConfigs.ListenConfig.constructor` | pb/packetSystem.pb.cc:1673-1681 | a new message is empty and points to the shared empty string; the defaults are -1 and true |
| `ListenConfigs.ListenConfig.SetListenIP` | pb/packetSystem.pb.h:4442-4462 | the text is stored in the message's own string, allocated if needed; the shared string is not in reach of the write |
| `ListenConfigs.ListenConfig.MutableListenIP` | pb/packetSystem.pb.h:4463-4469 | the pointer handed out is the message's own string, never the shared one, and the field becomes present with its old text |
| `ListenConfigs.ListenConfig.ClearListenIP` | pb/packetSystem.pb.h:4433-4438 | the field becomes absent and reads empty, the own string is emptied and kept |
| `ListenConfigs.ListenConfig.ReleaseListenIP` | pb/packetSystem.pb.h:4470-4479 | the caller gets the own string with its text, or null if there is none, and the message no longer refers to it |
| `ListenConfigs.ListenConfig.SetAllocatedListenIP` | pb/packetSystem.pb.h:4480-4491 | the message takes over the given string; its own old one is deleted and the shared one is not |
| `ListenConfigs.ListenConfig.Read` | pb/packetSystem.pb.h:4414-4553 | absent fields read as their defaults |
| `ListenConfigs.ListenConfig.Clear` | pb/packetSystem.pb.cc:1716-1730 | the clear guarded by the mask always gives the empty message and keeps the own string |
| `ListenConfigs.ListenConfig.MergeFrom` | pb/packetSystem.pb.cc:1977-1997 | present fields overwrite, strings are copied and not shared, unknown fields are appended; the source does not change |
| `ListenConfigs.ListenConfig.CopyFrom` | pb/packetSystem.pb.cc:2005-2009 | the target becomes equal to the source and shares no string with it |
| `ListenConfigs.ListenConfig.Swap` | pb/packetSystem.pb.cc:2016-2027 | the messages and their cached sizes change places and so do the strings that they own |
| `ListenConfigs.ListenConfig.Destroy` | pb/packetSystem.pb.cc:1683-1693 | the message and its own string are deleted and the shared string is not |
| `ConfigMeaning.ParseIsMerge` | pb/packetSystem.pb.cc:1977-1997 | reading an input into a config is merging what the input says on its own |
| `ConfigMeaning.ConcatIsMerge` | pb/packetSystem.pb.cc:1977-1997 | reading a + b, where a is a config, is merging the two, and fails exactly if b is none |
| `ConfigMeaning.WrittenConcatIsMerge` | pb/packetSystem.pb.cc:1977-1997 | the written forms of two configs, one behind the other, are read as their merge |
| `ConfigMeaning.FieldMeaning` | pb/packetSystem.pb.cc:1732-1837 | what each field does to a config, in plain numbers; an enum value other than -1 to 10 is kept as an unknown field |
| `ConfigMeaning.LastFieldWins` | pb/packetSystem.pb.cc:1732-1837 | the last field that sets a value wins whatever was there, a value that no field sets stays, and the unknown fields are appended in order |
| `ConfigMeaning.ConfigReadEnds` | pb/packetSystem.pb.cc:1732-1837 | only the end of the input ends the read of a config successfully |
| `ConfigWire.MergeConfigAssociative` | pb/packetSystem.pb.cc:1977-1997 | merging is associative with the empty message as identity |
| `ListenConfigs.ServerActive.RemoteServer` | pb/packetSystem.pb.h:4915-4917 | the nested message, or one with default content where there is none |
| `ListenConfigs.ServerActive.MutableRemoteServer` | pb/packetSystem.pb.h:4918-4922 | the nested message is present afterwards, with its old content or empty |
| `ListenConfigs.ServerActive.ClearRemoteServer` | pb/packetSystem.pb.h:4911-4914 | the nested message is absent and, if it is kept, has default content |
| `ListenConfigs.ServerActive.ReleaseRemoteServer` | pb/packetSystem.pb.h:4923-4928 | the caller gets the pointer: null only if nothing was present, and default content if the message had been cleared but kept |
| `ListenConfigs.ServerActive.SetAllocatedRemoteServer` | pb/packetSystem.pb.h:4929-4937 | the message takes over the given one; the old one is deleted, with its string |
| `ListenConfigs.ServerActive.Clear` | pb/packetSystem.pb.cc:3036-3044 | afterwards nothing is present, and a nested message that is kept has default content |
| `ListenConfigs.ListenConfig.ByteSize` | pb/packetSystem.pb.cc:1917-1963 | the int sum is the number of bytes of the written form and is cached; no addition goes out of range if and only if that number is below 2^31 |
| `ListenConfigs.ListenConfig.SerializeWithCachedSizesToArray` | pb/packetSystem.pb.cc:1877-1915 | the array writer puts the written form in place, changes nothing else, and ends right behind it |
| `ListenConfigs.ServerActive.ByteSize` | pb/packetSystem.pb.cc:3111-3132 | computes and caches the size of the nested message and then its own, exactly as long as it is below 2^31 |
| `ListenConfigs.ServerActive.SerializeWithCachedSizesToArray` | pb/packetSystem.pb.cc:3095-3109 | writes the nested message behind its cached size, right or wrong, and ends right behind what it wrote |
| `ListenConfigs.ServerActive.Serialized` | pb/packetSystem.lua.cc:1738-1748 | a buffer of exactly the computed size is filled to its last byte with the written form, whenever the size fits an int |
| `ConfigMeaning.ConfigInBytes` | pb/packetSystem.pb.cc:1877-1915 | the written form of a config in plain bytes: the tags 8, 18, 24, 32, 40 in this order, the unknown fields last |
| `ConfigMeaning.ActiveInBytes` | pb/packetSystem.pb.cc:3095-3109 | the nested message is written behind the tag 10 and its length, the unknown fields last |
| `ConfigWire.PrefixHasToFit` | contrib/protobuf/src/google/protobuf/wire_format_lite_inl.h:703-711 | what is written is the written form if and only if the cached size is the size of the nested message |
| `ConfigWire.ConfigRoundTrip` | pb/packetSystem.pb.cc:1732-1837 | reading the written form of a config gives it back if its unknown groups nest no deeper than the reader allows, and fails otherwise |
| `ConfigWire.ParsedIsOk` | pb/packetSystem.pb.cc:1732-1837 | reading leaves only known enum values in the field and among the unknown fields nothing that a case would take or change |
| `ConfigWire.ActiveRoundTrip` | pb/packetSystem.pb.cc:3046-3079 | reading the written form of a message with a nested one gives it back if the unknown groups of the nested one leave room for one more level, and fails otherwise |
| `ConfigMeaning.NestedIsRead` | contrib/protobuf/src/google/protobuf/wire_format_lite_inl.h:396-411 | behind the tag 10 the bytes that the length covers, or all that is left if it covers more, are read with one level of groups less and merged into what is nested already |
| `ConfigMeaning.OtherIsRead` | pb/packetSystem.pb.cc:3046-3079 | every other field is appended to the unknown ones, and only the end of the input ends the read successfully |
| `ConfigMeaning.ReadActiveIsMerge` | pb/packetSystem.pb.cc:3146-3154 | reading an input into a message is merging what it says on its own, nested message into nested message |
| `ConfigMeaning.MergeActiveAssociative` | pb/packetSystem.pb.cc:3146-3154 | merging is associative with the empty message as identity |
| `ListenConfigs.ServerActive.MergeFrom` | pb/packetSystem.pb.cc:3146-3154 | a present nested message is merged into the nested one, made first if there is none, and unknown fields are appended; the source does not change |
| `ListenConfigs.ServerActive.CopyFrom` | pb/packetSystem.pb.cc:3162-3166 | the target becomes equal to the source and shares nothing with it |
| `ConfigWire.TooDeepIsNotRead` | contrib/protobuf/src/google/protobuf/wire_format.cc:81-159 | written fields that nest deeper than the reader allows are not read |
| `ConfigWire.TooDeepExample` | contrib/protobuf/src/google/protobuf/wire_format_lite_inl.h:396-411 | a nested message with a hundred groups inside one another, which it may hold by itself, cannot be read back |

## Left out

- The total-bytes limit of 64 MB of the input stream, and the refill of its buffer: the whole input is in the window.
- The unrolled fast paths of the varint and tag readers: the byte-by-byte loop stands for them.
- The fast path of the stream writers, which hands a large enough buffer to the array writers: the loop stands for it.
- The capacity of repeated fields: how many slots are reserved when a run of equal tags is read is left open, so the
  result holds for every capacity.
- The value of an `int` sum that has gone out of range, which C++ leaves open. The size methods tell such sums by `exact`,
  and `Serialized` gives `None` for them.
- Bindings.Runtime.Clear: scalar and string fields of the heap messages are not part of the ownership model.
- ListenConfigs.ServerActive.MutableRemoteServer: its only has-bit is a boolean.
- `assign` and `parsefromstring` through a handle: they change the content of messages and, for nested ones, reuse the
  operations that are modelled here; the ownership model does not replay them.
- The name that `PushMessage` builds, the rounding of the doubles in the report, and Lua numbers that are not finite.
- Bindings.Runtime.GetUdataNum: the sizes of the messages are given, as their content is not part of that heap.
- The `clients` field of `InitServer`, its scalar fields, and the other message types: the same template again.
- The jumps in the parsers of `ListenConfig` and `ServerActive`, and what a failed read leaves in such a message:
  `ConfigWire` has the plain loop, which gives no message for a failed read. Their stream writers, and reading and writing
  `InitServer`.
- Lua itself: the stack, metatables, errors that jump out of a call, and the conversion of doubles that are out of range.
- Descriptors, reflection, static initialization and the concurrency macros.
