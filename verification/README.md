# Verification of the DaneJoe transfer program

A Dafny model of the parts of the program where the logic is hard, with proofs of what they are for.

* **Interval algebra** (`Endpoint`, `Interval`, `IntervalSet`, `CanonicalForm`, `GapBridging`, `RangeCondition`,
  `WholeCondition`): sets of reals kept as sorted intervals. The stored form is canonical and determines the set
  of points. Intervals are over `real`; the exact conditions under which union, intersection, difference and the
  tests are right are theorems, and the pairs for which they are not have concrete examples.
* **Wire format** (`Bytes`, `Header`, `Field`, `ArrayValue`, `Codec`, `FrameAssembler`, `Messages`, `Envelopes`,
  `MessageCodecs`, `WireFormat`): the codec, the nested messages of client and server, and the splitter that turns
  a byte stream into frames. Round trips hold for all inputs with an exact condition each, and the bytes
  themselves, the names, the widths and the limits are stated in plain numbers.
* **Threads** (`BoundedQueue`, `QueueContents`, `QueueMix`, `QueueProgress`, `Reactor`, `ReactorContents`,
  `ReactorProgress`, `ConnectContext`, `Timer`, `TimerProgress`): queue, event loop with its workers,
  per-connection buffers and periodic timers. The threads are step relations in which every section under a lock,
  every notify and every read or write of the event counter is one step. What goes in and comes out is told by
  the actions alone.
* **Download** (`Tiling`, `Scheduler`, `Download`, `DownloadRuns`, `DownloadLimits`, `CleanDownload`,
  `Controller`): a file is cut into blocks, requested through a rotating queue, served, sent through the wire
  format above, and put together again. What every run keeps, and exactly when a run can complete a task or lose
  data.
* **URLs and SQL** (`Url`, `UrlRoundTrip`, `UrlDefault`, `Where`, `WhereMeaning`): parser and printer of URLs, and
  the generated WHERE clause with its separately bound parameters.

`dafny verify dfyconfig.toml` checks the project. A method stands where the program changes state or loops; its
postcondition ties the new state to a specification function, and the lemmas are about those functions. Lemmas
for which Dafny would choose induction by itself turn it off with `{:induction false}`: with Dafny 4.11 the
hypothesis generated for sequence parameters is not guarded by their type and can prove too much. Lemmas without
the attribute are those for which it chooses none.

## What the code does differently from its documentation

* Scalar values are copied byte by byte, so they travel in the order of the sending host, although the comments
  promise network order (`Fields.BytewiseConversionIsIdentity`). The bytes sent are the network bytes exactly
  when the sender is big-endian or they read the same backwards (`Messages.SentInNetworkOrderIff`), and a value
  reaches another host unchanged exactly when both order bytes alike or its bytes read the same backwards
  (`Messages.UnsignedCrossesIff`). The other theorems on messages give both ends one host order, either of the
  two.
* The field count of a message is cut to 16 bits (`Codec.MessageRoundTripIff`).
* A vector of one element is sent as a scalar and read as empty, so a block of one byte arrives without its data
  and is marked failed. A file whose last block has one byte therefore never completes
  (`DownloadLimits.OddByteFileNeverCompletes`, `DownloadLimits.FileCanCompleteIff`).
* Completion of a task is signalled when no block waits, even if blocks failed
  (`DownloadLimits.SignalDespiteFailureIff`), and so without any fault when some blocks of a task can be carried
  and some cannot (`CleanDownloads.CleanSignalDespiteFailureIff`).
* Nothing keeps tasks from saving to one path. Completed blocks keep the bytes of the server exactly when no two
  blocks write different bytes to one place (`DownloadLimits.CompletedStayRebuiltIff`).
* The adjacent endpoint of an infinite end is the opposite infinity, so intervals that reach both infinities are
  taken for adjacent (`CanonicalForm.OrBridgesAGap`, `CanonicalForm.AndLosesAnOverlap`).
* `add_range(condition, And)` intersects with every interval of the other condition in turn
  (`WholeConditions.AddConditionAndIsIntersectionIff`).
* `front()` waits on the same condition variable as `pop()` and can use up a notification
  (`BoundedQueue.FrontLosesWakeup`); exactly a mix with the single `push()`, by three threads or more, loses one
  (`QueueMix.WakeupIsLostIff`).
* Conditions with several intervals are joined without parentheses, a condition with an empty range is skipped,
  so that it selects everything, and the order of a condition that is not the last stands in the middle of the
  clause (`WhereMeaning.ClauseIsRightIff`).

## Model

| member | source | states |
|---|---|---|
| `Endpoints.LessIsStrictTotalOrder` | common/include/danejoe/condition/endpoint_range.hpp:141-203 | the endpoint comparison is a strict total order on all ends, finite, open, closed and infinite, so a std::set ordered by it is well founded |
| `Intervals.InhabitedIffPoint` | common/include/danejoe/condition/single_interval.hpp:136-160 | an interval is inhabited exactly when some real lies in it; a half-open [v,v) holds nothing although its state is not Empty |
| `Intervals.BoundsArePlaced` | common/include/danejoe/condition/single_interval.hpp:81-128 | an interval made of two bounds holds exactly what lies between them and the closed ones themselves; bounds in the wrong order change places with their openness |
| `Intervals.IsIntersectIff` | common/include/danejoe/condition/single_interval.hpp:282-315 | for intervals that have points, the test is_intersect holds if and only if they share a real and the pair does not reach both infinities |
| `Intervals.IntersectIsExactIff` | common/include/danejoe/condition/single_interval.hpp:402-411 | try_get_intersect describes exactly the common points if and only if the pair does not reach both infinities with an overlap |
| `Intervals.UnionIsExactIff` | common/include/danejoe/condition/single_interval.hpp:418-427 | a returned union has exactly the points of both intervals if and only if it does not close a gap of a pair that reaches both infinities, and the pair is not [v,v) with (v,v] |
| `Intervals.UnionRefusesIff` | common/include/danejoe/condition/single_interval.hpp:332-335 | try_get_union refuses exactly the pairs with a gap between them, except pairs that reach both infinities, [v,v) with (v,v], and (v,v) with a half-open point of v |
| `Intervals.DifferenceIsExactIff` | common/include/danejoe/condition/single_interval.hpp:340-394 | get_difference leaves exactly the points outside, unless the pair reaches both infinities with an overlap, or is [v,v) with (v,v] |
| `Intervals.PiecesHaveNoHalfOpenPoint` | common/include/danejoe/condition/single_interval.hpp:340-411 | cutting intervals that have points never makes a half-open single point |
| `IntervalSets.InsertIsSetInsert` | common/include/danejoe/condition/range_condition.hpp:147-150 | insertion keeps the stored order and adds exactly the new interval, like std::set |
| `IntervalSets.SweepMeaning` | common/include/danejoe/condition/range_condition.hpp:216-248 | the sweep of simplify() changes the described points only where it bridges a gap between the infinities |
| `IntervalSets.SimplifiedIsExactIff` | common/include/danejoe/condition/range_condition.hpp:200-249 | simplify() keeps the described points if and only if no gap is bridged on the way |
| `GapBridging.BridgesGapIff` | common/include/danejoe/condition/range_condition.hpp:200-249 | a gap is bridged if and only if the points up to some member are one left-unbounded interval and, behind a gap, that member is right-unbounded, an empty interval standing at most inside |
| `IntervalSets.SimplifiedIsCanonical` | common/include/danejoe/condition/range_condition.hpp:200-249 | after simplify() the intervals are non-empty, sorted and no two can be merged |
| `IntervalSets.StepIsCanonical` | common/include/danejoe/condition/range_condition.hpp:98-142 | every add_range, by Or, And or Not, ends in the canonical form |
| `IntervalSets.StepIsExactIff` | common/include/danejoe/condition/range_condition.hpp:98-193 | one add_range describes exactly the union, intersection or difference if and only if no gap is bridged by Or or Not and no overlap across the infinities is lost |
| `IntervalSets.HistoryIsExact` | common/include/danejoe/condition/range_condition.hpp:98-249 | any history of add_range whose steps meet that condition describes exactly the combined point set, and is canonical |
| `IntervalSets.OneSidedHistory` | common/include/danejoe/condition/range_condition.hpp:98-249 | a history of intervals with finite ends on one common side stays on that side and meets the condition at every step |
| `IntervalSets.BoundedHistoryIsExact` | common/include/danejoe/condition/range_condition.hpp:98-249 | every history of intervals with finite left ends, or of intervals with finite right ends, describes exactly the combined point set and is canonical |
| `CanonicalForm.IncludesIffSubset` | common/include/danejoe/condition/single_interval.hpp:249-257 | the interval inclusion test holds if and only if every point is contained |
| `CanonicalForm.IncludedInOneIffSubset` | common/include/danejoe/condition/range_condition.hpp:329-338 | an interval lies in a canonical set if and only if it lies in one member: separated members cannot share it |
| `CanonicalForm.IncludesAllIffSubset` | common/include/danejoe/condition/range_condition.hpp:359-368 | is_in_range of two canonical conditions holds if and only if one point set contains the other |
| `CanonicalForm.SomeIntersectIsExactIff` | common/include/danejoe/condition/range_condition.hpp:311-322 | is_intersect holds if and only if there is a common point, except exactly when members overlap only across the infinities |
| `CanonicalForm.SomeIntersectIsExact` | common/include/danejoe/condition/range_condition.hpp:311-322 | with finite ends on one side is_intersect holds if and only if there is a common point |
| `CanonicalForm.EqualIffSamePoints` | common/include/danejoe/condition/range_condition.hpp:301-304 | two canonical conditions are equal if and only if they have the same points |
| `CanonicalForm.HistoriesEqualIff` | common/include/danejoe/condition/range_condition.hpp:200-304 | two histories of intervals with finite ends on one side give equal conditions if and only if they describe the same points |
| `CanonicalForm.OrBridgesAGap` | common/include/danejoe/condition/endpoint_range.hpp:356-361 | a left-unbounded and a right-unbounded interval with a gap between them are merged into the whole line |
| `CanonicalForm.AndLosesAnOverlap` | common/include/danejoe/condition/endpoint_range.hpp:356-361 | a left-unbounded and a right-unbounded interval that overlap have no intersection for the code |
| `CanonicalForm.HalfOpenPointsAppear` | common/include/danejoe/condition/single_interval.hpp:108-160 | two half-open points, which hold nothing, combine to a point that is there |
| `RangeConditions.RangeCondition.AddRange` | common/include/danejoe/condition/range_condition.hpp:98-117 | add_range takes the stored set to the combination by its relation |
| `RangeConditions.RangeCondition.AddValue` | common/include/danejoe/condition/range_condition.hpp:136-142 | a single value is added as the closed point |
| `RangeConditions.RangeCondition.AddCondition` | common/include/danejoe/condition/range_condition.hpp:122-131 | a whole condition is added member by member, in the stored order |
| `RangeConditions.RangeCondition.OrSingleInterval` | common/include/danejoe/condition/range_condition.hpp:147-150 | the set gains the interval |
| `RangeConditions.RangeCondition.AndSingleInterval` | common/include/danejoe/condition/range_condition.hpp:155-169 | the loop leaves the intersections with the interval, as a set |
| `RangeConditions.RangeCondition.NotSingleInterval` | common/include/danejoe/condition/range_condition.hpp:182-194 | the loop leaves the remainders outside the interval, as a set |
| `RangeConditions.RangeCondition.Simplify` | common/include/danejoe/condition/range_condition.hpp:200-249 | the iterator loop with its current interval computes the sweep |
| `RangeConditions.RangeCondition.GetIntersectRange` | common/include/danejoe/condition/range_condition.hpp:255-268 | a fresh condition with the pairwise intersections; both arguments are unchanged |
| `RangeConditions.RangeCondition.GetUnionRange` | common/include/danejoe/condition/range_condition.hpp:271-280 | a fresh condition to which every interval of the other is added; both arguments are unchanged |
| `RangeConditions.RangeCondition.IsInRangeValue` | common/include/danejoe/condition/range_condition.hpp:344-352 | finds out whether some stored interval has the value |
| `RangeConditions.RangeCondition.IsInRangeInterval` | common/include/danejoe/condition/range_condition.hpp:329-337 | on a canonical condition the search decides whether all points of the interval are contained |
| `RangeConditions.RangeCondition.GetDifferenceRange` | common/include/danejoe/condition/range_condition.hpp:286-296 | a fresh condition from which every interval of the other is removed; both arguments are unchanged |
| `RangeConditions.RangeCondition.IsEqual` | common/include/danejoe/condition/range_condition.hpp:301-304 | tests equality of the stored sets |
| `RangeConditions.RangeCondition.IsInRangeCondition` | common/include/danejoe/condition/range_condition.hpp:359-368 | the nested search decides whether each interval of the other lies in one of these |
| `RangeConditions.RangeCondition.IsIntersect` | common/include/danejoe/condition/range_condition.hpp:311-322 | the nested search decides whether some pair intersects |
| `WholeConditions.UnionOfConditionsIff` | common/include/danejoe/condition/range_condition.hpp:122-131 | add_range(condition, Or), and with it get_union_range, describes exactly the union if and only if no single step on the way bridges a gap, or the union is the whole line anyway |
| `WholeConditions.DifferenceOfConditionsIff` | common/include/danejoe/condition/range_condition.hpp:122-131 | add_range(condition, Not), and with it get_difference_range, describes exactly the difference if and only if every single step on the way is safe |
| `WholeConditions.AddConditionAndIsIntersectionIff` | common/include/danejoe/condition/range_condition.hpp:122-131 | for any two conditions in canonical form, add_range(condition, And) is the intersection if and only if the other has one interval and no overlap across the infinities is lost, or has several of which none meets the first condition, or both are empty |
| `WholeConditions.IntersectionOfConditionsIff` | common/include/danejoe/condition/range_condition.hpp:255-268 | get_intersect_range describes exactly the common points if and only if no overlap across the infinities is lost and putting the parts together bridges no gap |
| `WholeConditions.CombinedAllIsExact` | common/include/danejoe/condition/range_condition.hpp:122-131 | for conditions bounded on the same side, adding a whole condition with Or or Not is the union or the difference; with And every interval of it must contain the point |
| `WholeConditions.IntersectionIsExact` | common/include/danejoe/condition/range_condition.hpp:255-268 | for conditions bounded on the same side, get_intersect_range describes exactly the common points |
| `Bytes.NetworkRoundTrip` | common/include/danejoe/common/binary/byte_order.hpp:77-104 | a value comes back from its network bytes |
| `Bytes.NetworkBytesDetermined` | common/include/danejoe/common/binary/byte_order.hpp:77-104 | each byte string is the network form of one value only |
| `Bytes.ObjectRoundTrip` | common/include/danejoe/common/binary/byte_order.hpp:114-135 | a value comes back from its object bytes on either kind of host |
| `Bytes.ConvertElementIsNetworkOrder` | common/include/danejoe/common/binary/byte_order.hpp:77-135 | converting the object bytes of a value gives its network bytes, on either kind of host |
| `Bytes.ConvertedIsInvolution` | common/include/danejoe/common/binary/byte_order.hpp:77-104 | converting an array of any width twice gives the array back |
| `Bytes.ObjectBytesAreNetworkBytesIff` | common/include/danejoe/common/binary/byte_order.hpp:77-104 | bytes copied out of memory are in network order if and only if the host is big-endian or they read the same backwards |
| `Bytes.ObjectBytesCrossIff` | common/include/danejoe/common/binary/byte_order.hpp:77-104 | a value copied bytewise to another host comes out the same if and only if the hosts order bytes alike or its bytes read the same backwards |
| `Bytes.ConvertByteOrder` | common/include/danejoe/common/binary/byte_order.hpp:77-104 | the nested loops write the conversion of every element and leave the rest of the buffer alone |
| `Bytes.ConvertOne` | common/include/danejoe/common/binary/byte_order.hpp:114-135 | the loop with two indices writes one converted element in place |
| `Headers.HeaderRoundTrip` | common/source/danejoe/network/codec/serialize_header.cpp:64-126 | a header with members in range comes back from its 16 bytes, whatever follows them |
| `Headers.HeaderBytesDetermined` | common/source/danejoe/network/codec/serialize_header.cpp:64-126 | any 16 bytes are the form of the header that is read from them |
| `Framing.FrameAssembler.PushData` | common/source/danejoe/network/codec/frame_assembler.cpp:6-12 | the buffered stream grows at its end |
| `Framing.FrameAssembler.PopFrame` | common/source/danejoe/network/codec/frame_assembler.cpp:26-69 | hands out the first message of the held stream and keeps the rest, or keeps everything and hands out nothing; no byte of an earlier frame shows |
| `Framing.FrameAssembler.ClearCurrentFrame` | common/source/danejoe/network/codec/frame_assembler.cpp:71-74 | restarts the reused frame |
| `Framing.Replay` | common/source/danejoe/network/codec/frame_assembler.cpp:6-69 | the object, driven by any list of pushes and pops, hands out what the stream semantics says |
| `Framing.SplitResumes` | common/source/danejoe/network/codec/frame_assembler.cpp:26-69 | splitting a stream may stop anywhere and go on with more bytes |
| `Framing.SplitCoversStream` | common/source/danejoe/network/codec/frame_assembler.cpp:26-69 | the messages of a stream and its leftover together are the stream |
| `Framing.ChunkingIndependence` | common/source/danejoe/network/codec/frame_assembler.cpp:6-69 | for every cutting of a stream and every timing of pops, what was handed out continues to the same split, and bytes pushed are bytes handed out plus bytes held |
| `Framing.DrainedSessionsAgree` | common/source/danejoe/network/codec/frame_assembler.cpp:6-69 | once drained, the result depends on the stream alone |
| `Framing.FrameIsMessageIff` | common/source/danejoe/network/codec/frame_assembler.cpp:38-58 | the frame is the message if and only if its size with the header fits in 32 bits |
| `Framing.BytesAreConservedIff` | common/source/danejoe/network/codec/frame_assembler.cpp:6-69 | no byte is lost if and only if no message handed out reaches 2^32 bytes |
| `Fields.ToSerializedByteArray` | common/source/danejoe/network/codec/serialize_field.cpp:161-207 | the running index fills the buffer with exactly the encoded field |
| `Fields.FromSerializedByteArray` | common/source/danejoe/network/codec/serialize_field.cpp:77-159 | the running checks accept exactly the decodable fields and return what the decoder finds |
| `Fields.BytewiseConversionIsIdentity` | common/source/danejoe/network/codec/serialize_field.cpp:196-205 | the per-byte conversion of a scalar value changes nothing: scalars keep the byte order of the sender |
| `Messages.SentInNetworkOrderIff` | common/source/danejoe/network/codec/serialize_field.cpp:196-205 | the bytes sent for an unsigned member are its network bytes if and only if the sender is big-endian or they read the same backwards |
| `Messages.UnsignedCrossesIff` | common/source/danejoe/network/codec/serialize_field.cpp:145-205 | an unsigned member is read back on another host if and only if the hosts order bytes alike or its bytes read the same backwards |
| `Fields.FieldRoundTripIff` | common/source/danejoe/network/codec/serialize_field.cpp:77-207 | an encoded field, followed by anything, is read back as itself if and only if its length is sent or is the one of its type (Bool has none) |
| `Codec.SerializeCodec.Serialize` | common/source/danejoe/network/codec/serialize_codec.cpp:131-150 | appends one field to the build, or skips it when its name or value is too long (the limits in numbers: WireFormat.FieldLimits) |
| `WireFormat.FieldLimits` | common/include/danejoe/network/codec/serialize_config.hpp:27-33 | names of at most 128 bytes with values of at most 268435456 bytes are kept, any other field is skipped |
| `Codec.SerializeCodec.GetSerializedDataVectorBuild` | common/source/danejoe/network/codec/serialize_codec.cpp:52-56 | returns the finished message of the fields serialised so far |
| `Codec.SerializeCodec.Deserialize` | common/source/danejoe/network/codec/serialize_codec.cpp:63-118 | adds the fields of an accepted message to the parsed map |
| `Codec.SerializeCodec.GetParsedField` | common/source/danejoe/network/codec/serialize_codec.cpp:248-257 | returns a parsed field of that name if there is one |
| `Codec.FieldsRoundTrip` | common/source/danejoe/network/codec/serialize_codec.cpp:98-117 | the decode loop gives back the first fields of an encoded list, for any count |
| `Codec.MessageRoundTripIff` | common/source/danejoe/network/codec/serialize_codec.cpp:63-174 | deserialize of a build gives the same multiset of fields if and only if there are fewer than 2^16; otherwise the first the number of fields mod 2^16 |
| `Codec.MessageIsFrame` | common/source/danejoe/network/codec/serialize_codec.cpp:152-174 | a finished build in front of anything is exactly the first message of that stream |
| `Codec.StreamSplitsIntoMessages` | common/source/danejoe/network/codec/serialize_codec.cpp:131-174 | a concatenation of builds is split into exactly these builds |
| `Codec.MessagesSurviveFraming` | common/source/danejoe/network/codec/frame_assembler.cpp:6-69 | a concatenation of builds, cut in any way and popped at any times, comes out as exactly these builds once drained |
| `ArrayValues.ArrayRoundTripIff` | common/source/danejoe/network/codec/serialize_array_value.cpp:68-209 | decoding undoes encoding of an array value with a non-empty list of lengths, fixed or variable, if and only if the list matches the count and the total |
| `ArrayValues.VectorRoundTripIff` | common/include/danejoe/network/codec/serialize_codec.hpp:161-237 | to_array gives a vector back at every element width if and only if it has at least two elements |
| `ArrayValues.FillArray` | common/include/danejoe/network/codec/serialize_codec.hpp:197-217 | the element loop builds the array value of the vector |
| `ArrayValues.ReadArray` | common/include/danejoe/network/codec/serialize_array_value.hpp:129-178 | the element loop reads the vector of the array value |
| `Messages.LookupAgrees` | common/source/danejoe/network/codec/serialize_codec.cpp:248-257 | with distinct names, whichever field of a multimap a lookup returns is the field of that name |
| `Messages.Int64RoundTrip` | client/source/protocol/client_message_codec.cpp:308-330 | a signed 64-bit member comes back, negative ones included |
| `Messages.BytesRoundTripIff` | server/source/protocol/server_message_codec.cpp:243-261 | a byte vector member comes back if and only if it has at least two bytes |
| `Envelopes.RequestRoundTripIff` | client/source/protocol/client_message_codec.cpp:255-330 | the server parsers give back the request id and the request of every client builder, if and only if a test message stays within the value limit |
| `Envelopes.BlockResponseRoundTripIff` | server/source/protocol/server_message_codec.cpp:232-261 | the client parsers give back the block response of the server builders if and only if it has two bytes or more and fits the value limit with its envelope; of none or too many nothing arrives, of one byte an empty block (the limit in numbers: WireFormat.LargestBlock) |
| `WireFormat.HeaderOnWire` | common/source/danejoe/network/codec/serialize_header.cpp:96-126 | the sixteen bytes of a header, one by one: magic, version, length, flag, checksum and field count, most significant byte first |
| `WireFormat.MessageOnWire` | common/source/danejoe/network/codec/serialize_codec.cpp:152-174 | a finished message starts with the magic 66 66 66 66, version 1, the number of bytes behind the header, flag 0, checksum 0 and the number of fields, and ends with the encoded fields |
| `WireFormat.FieldOnWire` | common/source/danejoe/network/codec/serialize_field.cpp:161-207 | the bytes of a field: length of the name in two bytes, name, type code, flag, length of the value in four bytes if the flag is odd, value |
| `WireFormat.ShortDataIsRefused` | common/source/danejoe/network/codec/serialize_codec.cpp:63-78 | data shorter than a header, or than the header announces, computed in 32 bits, has no fields |
| `WireFormat.ArrayOnWire` | common/source/danejoe/network/codec/serialize_array_value.cpp:152-209 | the bytes of an array value: element type, count, flag, lengths, elements; nothing when several lengths do not match the count |
| `WireFormat.ArrayIsReadByItsFlag` | common/source/danejoe/network/codec/serialize_array_value.cpp:68-150 | with an odd flag there is one length for each element and as many bytes as their sum, with an even one a single length; such a value is read back as itself |
| `WireFormat.WrongArrayIsEmpty` | common/include/danejoe/network/codec/serialize_array_value.hpp:129-178 | an array of another element type, or with lengths of its own for the elements, is read as empty |
| `WireFormat.TypeWidths` | common/source/danejoe/common/core/data_type.cpp:4-20 | the width in bytes of every type, by its code |
| `WireFormat.NumberOnWire` | common/include/danejoe/network/codec/serialize_codec.hpp:137-153 | a number travels under its name with no flag, its bytes in the order of the sender |
| `WireFormat.BytesOnWire` | common/include/danejoe/network/codec/serialize_codec.hpp:161-237 | two bytes or more travel as an array of unsigned bytes with count and width in front, a single one as a number, none not at all |
| `WireFormat.RequestMembersOnWire` | client/source/protocol/client_message_codec.cpp:255-266 | names, types and order of the members of a request |
| `WireFormat.ResponseMembersOnWire` | server/source/protocol/server_message_codec.cpp:232-241 | names, types and order of the members of a response |
| `WireFormat.BlockMembersOnWire` | client/source/protocol/client_message_codec.cpp:308-330 | names, types and order of the members of a block |
| `WireFormat.MissingInRequest` | server/source/protocol/server_message_codec.cpp:6-96 | numbers that a request lacks keep what they were, a missing path or body is empty |
| `WireFormat.MissingInResponse` | client/source/protocol/client_message_codec.cpp:4-83 | numbers that a response lacks keep what they were, a missing body is empty |
| `WireFormat.MissingInBlock` | server/source/protocol/server_message_codec.cpp:98-173 | a block without a task id has task -1; without any other of its members nothing is read |
| `WireFormat.MalformedRequestIsRefused` | server/source/protocol/server_message_codec.cpp:6-96 | a request with a number of another type or of too few bytes, or with an empty path, is refused |
| `WireFormat.MalformedResponseIsRefused` | client/source/protocol/client_message_codec.cpp:4-83 | a response with a number of another type or of too few bytes is refused |
| `WireFormat.MalformedBlockIsRefused` | server/source/protocol/server_message_codec.cpp:98-173 | a block with a number of another type or of too few bytes is refused, but for the task id, which is then -1 |
| `WireFormat.UnknownPathIsRefused` | server/source/runtime/business_runtime.cpp:40-82 | a request is taken for a block, download or test request only by its path |
| `WireFormat.RequestEnvelopeArrives` | client/source/protocol/client_message_codec.cpp:268-330 | the server reads version 1, the id, GET or POST, the path and the content type that belong to the request, and its body |
| `WireFormat.ResponseEnvelopeArrives` | server/source/protocol/server_message_codec.cpp:232-261 | the client reads version 1, the id, status 200, content type 1 and the body of a block response |
| `WireFormat.LargestBlock` | common/include/danejoe/network/codec/serialize_config.hpp:27-33 | a block response of 2 to 268435310 bytes (256 MiB - 146) comes back and one of 268435311 or more does not |
| `WireFormat.LargestTestMessage` | common/include/danejoe/network/codec/serialize_config.hpp:27-33 | a test request comes back if and only if its message has at most 268435415 bytes |
| `MessageCodecs.BuildRequestByteArray` | client/source/protocol/client_message_codec.cpp:255-266 | the calls on the codec object produce the request envelope |
| `MessageCodecs.BuildResponseByteArray` | server/source/protocol/server_message_codec.cpp:232-241 | the calls on the codec object produce the response envelope |
| `MessageCodecs.BuildBlockRequestByteArray` | client/source/protocol/client_message_codec.cpp:308-330 | the nested builds produce the block request message |
| `MessageCodecs.BuildBlockResponseByteArray` | server/source/protocol/server_message_codec.cpp:243-261 | the nested builds produce the block response message |
| `MessageCodecs.TryParseByteArrayBlockRequest` | server/source/protocol/server_message_codec.cpp:98-173 | the lookups on the codec object read the block request, or give up as specified: in the order of the message when names are distinct, and otherwise in some order of its fields |
| `MessageCodecs.TryParseByteArrayBlockResponse` | client/source/protocol/client_message_codec.cpp:152-234 | the lookups on the codec object read the block response, or give up as specified: in the order of the message when names are distinct, and otherwise in some order of its fields |
| `BoundedQueue.EveryRunKeepsInv` | common/include/danejoe/concurrent/container/mpmc_bounded_queue.hpp:49-376 | in every interleaving without front(), sleeping consumers are covered by notifications and woken consumers up to the queue size, sleeping producers by free slots, the size stays within the capacity, and accepted items leave in the order in which they entered (what is accepted: QueueContents.EveryItemIsAccountedFor) |
| `BoundedQueue.NoLostWakeup` | common/include/danejoe/concurrent/container/mpmc_bounded_queue.hpp:49-376 | when nothing can move any more, no consumer sleeps on a non-empty queue, no producer on a free slot, and nobody sleeps after close() |
| `BoundedQueue.QuietIffStuck` | common/include/danejoe/concurrent/container/mpmc_bounded_queue.hpp:49-376 | the states called quiet are exactly those in which no thread inside the queue can move |
| `BoundedQueue.ClosedAcceptsNothing` | common/include/danejoe/concurrent/container/mpmc_bounded_queue.hpp:256-376 | after close() nothing enters, and what is inside can still be taken out |
| `BoundedQueue.FrontLosesWakeup` | common/include/danejoe/concurrent/container/mpmc_bounded_queue.hpp:235-249 | a run with front() that ends with an item in the queue and a consumer asleep |
| `QueueMix.EveryRunKeepsMixInv` | common/include/danejoe/concurrent/container/mpmc_bounded_queue.hpp:49-376 | in every run without the single push, front() included, and in every run with at most two threads or no room, nobody sleeps at a filled or closed queue unless a notification is due |
| `QueueMix.WakeupIsLostIff` | common/include/danejoe/concurrent/container/mpmc_bounded_queue.hpp:49-376 | calls of a set of kinds can lose a wake-up if and only if front() and the single push are both in it, there are three threads or more, and the capacity is positive |
| `QueueProgress.RunsEnd` | common/include/danejoe/concurrent/container/mpmc_bounded_queue.hpp:49-376 | however the threads interleave, without new calls and spurious wake-ups they take at most as many steps as their state allows: every step lowers the bound |
| `QueueProgress.EveryRunCanRest` | common/include/danejoe/concurrent/container/mpmc_bounded_queue.hpp:49-376 | every run without front() can be continued without new calls to rest, where a consumer sleeps only at an empty and a producer only at a full queue that is still open |
| `QueueContents.PushHandsOver` | common/include/danejoe/concurrent/container/mpmc_bounded_queue.hpp:256-321 | a section of a push at an open queue appends as many of its items as there is room for, in their order, and keeps the rest only at a full queue; at a closed one it appends nothing and ends |
| `QueueContents.PopTakesHead` | common/include/danejoe/concurrent/container/mpmc_bounded_queue.hpp:49-224 | a section of pop() or try_pop() takes exactly the head of a queue that has one, and ends with nothing only at an empty queue, pop() only at a closed one |
| `QueueContents.EveryRunKeepsOrder` | common/include/danejoe/concurrent/container/mpmc_bounded_queue.hpp:49-376 | in every run, front() included, the items taken followed by those in the queue are the items accepted, in their order, and the queue stays within its capacity |
| `QueueContents.EveryItemIsAccountedFor` | common/include/danejoe/concurrent/container/mpmc_bounded_queue.hpp:256-321 | in every run each item that a call of push brings is accepted, still held by its caller, or was given up at a closed queue, as often as it was brought |
| `QueueContents.NothingIsGivenUp` | common/include/danejoe/concurrent/container/mpmc_bounded_queue.hpp:256-321 | in every run without close() the queue stays open and every item brought is accepted or still held |
| `QueueContents.ClosedIff` | common/include/danejoe/concurrent/container/mpmc_bounded_queue.hpp:364-376 | the queue is closed if and only if some close() has had its section under the mutex |
| `QueueContents.PossibleIff` | common/include/danejoe/concurrent/container/mpmc_bounded_queue.hpp:49-376 | which steps a thread can take where it stands: call while outside, have its section, notify, or wake up on its own while asleep |
| `Reactor.EveryRunKeepsInv` | common/source/danejoe/network/event_loop/posix_epoll_event_loop.cpp:158-379 | in every interleaving of event loop and workers: ids are distinct and match the queue keys, octets per connection are accounted for, and pending responses are going to be swept |
| `Reactor.RoutingIsSafe` | common/source/danejoe/network/event_loop/posix_epoll_event_loop.cpp:158-174 | a peer is only ever sent octets that answer its own requests, even when descriptor numbers are reused |
| `Reactor.NoStrandedResponse` | common/source/danejoe/network/event_loop/posix_epoll_event_loop.cpp:217-379 | octets sent, buffered, in flight and queued are together what was pushed for the connection, in order (what that is: ReactorContents.PushedIsReplied); a non-empty queue implies a positive event counter, a worker about to notify, or a sweep that has not yet emptied it; write interest holds exactly when octets are buffered |
| `Reactor.RestHasNoStrandedResponse` | common/source/danejoe/network/runtime/reactor_mail_box.cpp:35-77 | at rest no response is left in a queue, and octets remain unsent only while write readiness is awaited |
| `ReactorProgress.EveryResponseCanBeSent` | common/source/danejoe/network/event_loop/posix_epoll_event_loop.cpp:217-379 | from every reachable state some notifications and steps of the loop bring every live connection to the point where all that was pushed for it has been sent and nothing is queued or pending |
| `ReactorContents.ConnectionsAreThoseAccepted` | common/source/danejoe/network/event_loop/posix_epoll_event_loop.cpp:158-379 | in every run the connections are those accepted and not removed, with ids in the order of acceptance and the peer each was accepted for |
| `ReactorContents.EveryRequestIsServedInOrder` | common/source/danejoe/network/event_loop/posix_epoll_event_loop.cpp:158-379 | in every run each payload received is a request of its connection and peer, requests are begun in the order in which they came in, each once, and the others wait in that order |
| `ReactorContents.PushedIsReplied` | common/source/danejoe/network/runtime/reactor_mail_box.cpp:35-77 | in every run the bytes pushed for a connection are the payloads of the replies to its requests made while it was there, whole, in order and once each |
| `ReactorContents.SentIsReplied` | common/source/danejoe/network/event_loop/posix_epoll_event_loop.cpp:217-379 | what a live peer has got and what is buffered, in flight and queued for it are together exactly those payloads |
| `ReactorContents.WriteOutSends` | common/source/danejoe/network/event_loop/posix_epoll_event_loop.cpp:217-379 | a write hands exactly the accepted bytes to the socket, keeps the rest, and asks for write readiness exactly while there is a rest |
| `ReactorContents.EventsAreCounted` | common/source/danejoe/network/runtime/reactor_mail_box.cpp:35-77 | in every run the event counter holds the notifications since it was last read, up to the 2^64 - 2 that it can hold |
| `ReactorContents.PossibleIff` | common/source/danejoe/network/event_loop/posix_epoll_event_loop.cpp:158-379 | when the polling loop can accept, remove, read or turn to a counter or a waiting writer, and when a worker can take, answer, drop or notify |
| `ConnectContexts.SocketWrite` | common/source/danejoe/network/handle/posix_socket_handle.cpp:112-138 | the partial-write loop reports exactly the prefix that the socket took |
| `ConnectContexts.ConnectContext.Write` | common/source/danejoe/network/context/connect_context.cpp:84-110 | what the socket took followed by the new pending buffer is the old one followed by the frames, in order |
| `ConnectContexts.ConnectContext.Read` | common/source/danejoe/network/context/connect_context.cpp:14-82 | the frames are those of the stream held so far plus all chunks received, and the rest is held; a closed peer ends the chunks and the complete frames are still handed out; after an error the chunks are held and nothing is handed out |
| `ConnectContexts.EveryChunkIsReceived` | common/source/danejoe/network/context/connect_context.cpp:14-82 | the bytes received are all chunks that the socket delivered before its first answer without data, one after the other, and the read fails if and only if that answer is an error |
| `ConnectContexts.TakenIsGranted` | common/source/danejoe/network/handle/posix_socket_handle.cpp:112-138 | the socket has taken the sum of what its answers grant up to the first refusal, at most everything; interruptions take nothing |
| `Tiling.BlockService.AddBlock` | client/source/service/block_service.cpp:19-22 | a block is stored under a new id, or nothing changes |
| `Tiling.BlockService.Add` | client/source/service/block_service.cpp:23-46 | the loop stores one waiting row for each tile up to the first refusal, under consecutive new ids, touches no other row, and covers the whole file when it returns true |
| `Tiling.TilesAreConsecutive` | client/source/service/block_service.cpp:27-38 | tiles follow each other without gap, none is empty or larger than a block, and the last ends at the file size |
| `Tiling.TilesPartition` | client/source/service/block_service.cpp:27-38 | every position of the file lies in exactly one tile, and no other position in any |
| `Tiling.TileCount` | client/source/service/block_service.cpp:27-38 | there are exactly as many tiles as the rounded-up quotient |
| `Tiling.SomeTileHasOneByteIff` | client/source/service/block_service.cpp:27-38 | some tile has one byte if and only if blocks have one byte or the remainder is one |
| `Tiling.TilingEndsIff` | client/source/service/block_service.cpp:27-45 | the loop ends if and only if the block size is positive or there is nothing to cut |
| `Scheduling.RequestsAreConserved` | client/source/controller/block_schedule_controller.cpp:39-107 | over every run each request that was queued is published, dropped or still queued, and counted once |
| `Scheduling.DecidedAtItsTick` | client/source/controller/block_schedule_controller.cpp:86-107 | a request at position k is decided by exactly the tick k+1, whatever happens in between, according to its task at that moment |
| `Scheduling.PublishedOnlyWhileActive` | client/source/controller/block_schedule_controller.cpp:86-107 | only a tick publishes, and only the head of the queue, of a task that is pending and not paused |
| `Scheduling.ActiveTaskIsServedInOrder` | client/source/controller/block_schedule_controller.cpp:39-107 | while a task runs its requests are published in their order, none lost, repeated or overtaken |
| `Scheduling.PausedTaskIsKept` | client/source/controller/block_schedule_controller.cpp:64-107 | while a task is paused none of its requests is published or dropped |
| `Scheduling.TaskFollowsItsEvents` | client/source/controller/block_schedule_controller.cpp:39-84 | whether a task is pending, and whether it is paused, depends on its own events alone: enqueued it runs, the last pause counts, cancelled it is gone |
| `Scheduling.CancelledTaskIsSilent` | client/source/controller/block_schedule_controller.cpp:64-107 | after a cancel no request of the task is published until it is enqueued again; those queued are dropped in their order |
| `Downloads.WriteAtBytes` | client/source/controller/block_schedule_controller.cpp:159-190 | a positioned write determines each byte of the file after it |
| `Downloads.WriteAtJoins` | client/source/controller/block_schedule_controller.cpp:177-190 | two adjacent writes are one write of both parts |
| `Downloads.WriteAllIsOneWrite` | client/source/controller/block_schedule_controller.cpp:167-190 | however the calls to write split the data, the file holds one write of a prefix, and of all of it exactly when the loop succeeds |
| `Downloads.AnswerArrivesIff` | server/source/runtime/business_runtime.cpp:143-203 | request, server read and response through both codecs: the whole block arrives, an empty one, or nothing, depending exactly on the file and the size |
| `Downloads.ReadIsTheFile` | server/source/runtime/business_runtime.cpp:143-203 | what the server reads is the bytes of the file in their place as far as it goes and zeros behind its end, and zeros alone for a negative offset |
| `Downloads.AnswerAnnouncesItsData` | server/source/runtime/business_runtime.cpp:143-203 | an answer repeats the request with the size of the data that it has: the whole block, or nothing without the file; only a negative size of a known file is not answered |
| `Downloads.ResponseOpensTheFile` | client/source/controller/block_schedule_controller.cpp:109-160 | a response opens the file of its task once, creating it if need be; when that fails the block is marked failed and nothing else changes |
| `DownloadRuns.EveryRunKeepsStructure` | client/source/controller/block_schedule_controller.cpp:39-212 | in every run, whatever the tasks and paths, each request is made from a row of the table, and only blocks that the codec can carry are completed |
| `DownloadRuns.EveryRunKeepsInv` | client/source/controller/block_schedule_controller.cpp:39-212 | in every run over a table without clashing blocks each block marked completed has the bytes of the server in its range of the destination, whatever the order, repetition, loss or failure of responses; tasks may share paths and a task may fetch several files |
| `DownloadRuns.CompletedTaskIsTheFile` | client/source/controller/block_schedule_controller.cpp:192-210 | when all blocks of a tiled file are completed the destination starts with the file |
| `DownloadRuns.SignalIff` | client/source/controller/block_schedule_controller.cpp:192-210 | a response signals completion of its task if and only if it writes a whole block of it and no block of the task waits after that |
| `DownloadRuns.SignalledIsCompleteIff` | client/source/controller/block_schedule_controller.cpp:192-210 | in every reachable state a task that is signalled is complete if and only if none of its blocks has failed |
| `DownloadRuns.SignalledFileIsRebuilt` | client/source/controller/block_schedule_controller.cpp:192-210 | in every reachable state over a table without clashing blocks: when completion is signalled and no block of the task is failed, the destination starts with the file of the server |
| `DownloadRuns.WriteAllFinishesIff` | client/source/controller/block_schedule_controller.cpp:175-190 | the write loop succeeds if and only if no call fails before the data is used up |
| `DownloadRuns.ArriveCompletesIff` | client/source/controller/block_schedule_controller.cpp:109-194 | the exact effect of one answer on the block table: which answers complete their block, which fail it, and which change nothing |
| `DownloadLimits.ConflictLosesData` | client/source/controller/block_schedule_controller.cpp:129-190 | any two clashing blocks of a fresh table have a run from the empty state after which the first is completed and its range of the destination is not what the server has |
| `DownloadLimits.CompletedStayRebuiltIff` | client/source/controller/block_schedule_controller.cpp:109-212 | every run over a table keeps its completed blocks rebuilt if and only if no two rows of it write different server bytes to one position of one path |
| `DownloadLimits.TaskCanCompleteIff` | client/source/controller/block_schedule_controller.cpp:109-194 | some run from the empty state completes all blocks of a task if and only if the server has the file of each, the codec can carry its size, and its offset is not negative |
| `DownloadLimits.FileCanCompleteIff` | client/source/service/block_service.cpp:27-38 | a file cut into blocks can be completed if and only if the server has it and neither a full block nor the remainder has one byte or more than the codec carries |
| `DownloadLimits.DefaultBlocksCompleteIff` | client/include/service/block_service.hpp:21-21 | cut at the default of 134217728 bytes, a file can be downloaded completely if and only if the server has it and it does not leave a remainder of one byte |
| `DownloadLimits.UncarriedBlockNeverCompletes` | client/source/controller/block_schedule_controller.cpp:168-174 | a block that the codec cannot carry is not completed in any run, over any tasks and paths |
| `DownloadLimits.OddByteFileNeverCompletes` | client/source/service/block_service.cpp:27-38 | a task whose last block has one byte never has all its blocks completed, over any tasks and paths |
| `DownloadLimits.SignalDespiteFailureIff` | client/source/controller/block_schedule_controller.cpp:195-210 | some run signals the completion of a task that has a failed block if and only if every block of the task is answered at all and one of them can be written |
| `CleanDownloads.EveryCleanRunFailsUncarried` | client/source/controller/block_schedule_controller.cpp:109-194 | in every run in which disk and database never fail, only blocks that the codec cannot carry, or with a negative offset, are marked failed |
| `CleanDownloads.CleanSignalDespiteFailureIff` | client/source/controller/block_schedule_controller.cpp:195-210 | some run without any fault signals the completion of a task that has a failed block if and only if every block of the task is answered at all, and some can be carried and some cannot |
| `DownloadLimits.SignalDespiteFailure` | client/source/controller/block_schedule_controller.cpp:195-210 | a run from the empty state without any fault: a file of three bytes cut at two, the one-byte block answered first, ends with the signal and a failed block |
| `Controllers.BlockScheduleController.OnTaskEnqueue` | client/source/controller/block_schedule_controller.cpp:39-62 | the loop queues every block behind the others and resets the pending entry |
| `Controllers.BlockScheduleController.OnTaskCancel` | client/source/controller/block_schedule_controller.cpp:64-73 | the pending entry goes; queued requests stay |
| `Controllers.BlockScheduleController.OnTaskPaused` | client/source/controller/block_schedule_controller.cpp:75-84 | only the pause flag of a pending task changes |
| `Controllers.BlockScheduleController.OnBlockRequest` | client/source/controller/block_schedule_controller.cpp:86-107 | one tick of the queue |
| `Controllers.BlockScheduleController.WriteData` | client/source/controller/block_schedule_controller.cpp:175-190 | the write loop with its two counters computes the write specification |
| `Controllers.BlockScheduleController.OnBlockResponse` | client/source/controller/block_schedule_controller.cpp:109-212 | the whole response slot, with every early return, has the specified effect on tasks, table, disk and signals |
| `Controllers.HandleBlockRequest` | server/source/runtime/business_runtime.cpp:143-203 | the reader fills a zeroed buffer from the file as far as it goes |
| `Urls.ParseUrl` | common/source/danejoe/network/url/url_resolver.cpp:12-150 | the parser ends on every text, reads no position outside it, and returns what the specification finds (what it finds in a text without a port: UrlDefaults.PathWithoutPortIsRead) |
| `Urls.ParsePairs` | common/source/danejoe/network/url/url_resolver.cpp:120-148 | the query loop ends, since its position grows, and collects exactly the specified pairs |
| `Urls.BuildUrl` | common/source/danejoe/network/url/url_resolver.cpp:152-167 | the loop with its trailing separator removed prints the pairs with separators between them |
| `Urls.ProtocolRoundTrip` | common/source/danejoe/network/url/url_resolver.cpp:169-243 | every protocol comes back from its text |
| `Urls.StoiReadsDecimal` | common/source/danejoe/network/url/url_resolver.cpp:86-87 | the port number comes back from its decimal text |
| `UrlRoundTrips.ParsedShape` | common/source/danejoe/network/url/url_resolver.cpp:120-148 | whatever the text, a parsed key has no = and a parsed value no & |
| `UrlRoundTrips.ParsedIsShort` | common/source/danejoe/network/url/url_resolver.cpp:120-148 | with a fragment behind it, the parsed query is too short to be the whole text |
| `UrlRoundTrips.QueryRoundTripIff` | common/source/danejoe/network/url/url_resolver.cpp:120-166 | the query multiset comes back if and only if keys have no = and no #, and values no & and no # |
| `UrlRoundTrips.HashHost` | common/source/danejoe/network/url/url_resolver.cpp:72-84 | a host with # comes back only with port 0, path / and no query |
| `UrlRoundTrips.PathRoundTripIff` | common/source/danejoe/network/url/url_resolver.cpp:89-148 | path and query come back if and only if the path has no ? and no # and the pairs are clean |
| `UrlRoundTrips.UrlRoundTripIff` | common/source/danejoe/network/url/url_resolver.cpp:12-167 | in whatever order the query is visited, parse(build(info)) returns the same info if and only if a stated condition on the characters of its parts holds |
| `UrlDefaults.SchemeIsRead` | common/source/danejoe/network/url/url_resolver.cpp:169-197 | a scheme is recognised whatever the case of its letters, and every other text is an unknown scheme |
| `UrlDefaults.HostAloneIsRead` | common/source/danejoe/network/url/url_resolver.cpp:12-150 | of a scheme and a plain host the parser finds the host, port 80, 443, 21, 8080 or 0 by the scheme, path / and no query |
| `UrlDefaults.PathWithoutPortIsRead` | common/source/danejoe/network/url/url_resolver.cpp:12-150 | with a plain path and clean pairs behind the host it finds that host, path and query, and the same ports |
| `UrlDefaults.NumberedPortIsRead` | common/source/danejoe/network/url/url_resolver.cpp:12-150 | with a number for a port the parser finds the host, the number cut to 16 bits, the path and the query |
| `UrlDefaults.PortIsRead` | common/source/danejoe/network/url/url_resolver.cpp:72-90 | a port text that is no number is refused, any other is cut to 16 bits |
| `UrlDefaults.NothingIsFound` | common/source/danejoe/network/url/url_resolver.cpp:12-40 | of a text without ://, or with a # in front of every ://, the parser finds nothing: unknown scheme, no host, port 0, path / |
| `UrlDefaults.SignedNumberIsRead` | common/source/danejoe/network/url/url_resolver.cpp:86-87 | a port text is read with a sign and up to the first character that is no digit, if it is an int |
| `Where.FormatRange` | common/source/danejoe/database/sqlite_stringify.cpp:50-79 | the loop joins the texts of the intervals with OR, skipping whole lines |
| `Where.BuildCondition` | common/source/danejoe/database/sql_builder.cpp:71-129 | the loop joins the conditions with AND, skipping what is unset, unknown or empty, and appends their orders where they stand |
| `Where.BindConditions` | common/source/danejoe/database/sql_table_query.cpp:229-264 | the nested loops bind the bounds of every interval in order, skipping what is unset, unknown or has no condition |
| `Where.ParametersMatch` | common/source/danejoe/database/sql_table_query.cpp:229-264 | for columns of the table placeholders and bound values agree in number and order: each value lands in its own comparison |
| `Where.BindsIff` | common/source/danejoe/database/sql_builder.cpp:87-91 | numbers of placeholders and values agree if and only if builder and binder know the same columns (the one compares index, name and type, the other the name) |
| `Where.NoClauseIff` | common/source/danejoe/database/sql_builder.cpp:71-129 | there is no WHERE if and only if no set condition on a known integer column restricts anything or has an order, and the text that there is takes the bound values |
| `WhereMeaning.ChainReads` | common/source/danejoe/database/sql_builder.cpp:97-103 | with AND binding tighter than OR, the text is read as a disjunction of runs of conjunctions with the order behind it, and a dangling AND or text behind an order is an error |
| `WhereMeaning.SafeClauseIsRight` | common/source/danejoe/database/sql_builder.cpp:71-129 | a safe list of conditions, with or without orders, selects exactly the rows that lie in every range, sorted by the column and in the direction asked for |
| `WhereMeaning.ClauseIsRightIff` | common/source/danejoe/database/sql_builder.cpp:71-129 | for independent conditions, orders included, the statement is accepted, selects exactly those rows and has them sorted by every column and in every direction asked for if and only if no range is empty, nothing stands behind an order, no whole range follows a restricting one or has an order, and there is one restricting condition or each has one interval |
| `WhereMeaning.OrBindsLoosely` | common/source/danejoe/database/sqlite_stringify.cpp:63-77 | a row that is selected although a condition excludes it |
| `Timers.EveryRunKeepsInv` | common/source/danejoe/concurrent/timer/timer_manager.cpp:30-175 | in every interleaving of callers and timer thread, with deadlines computed from a clock reading before the lock, the counters, the entries and the deadlines of all periodic tasks agree |
| `Timers.PeriodicTaskRunsExactly` | common/source/danejoe/concurrent/timer/timer_manager.cpp:58-109 | a task registered with n >= 0 runs at most n times, exactly n times once it has left the table uncancelled, and has at most one entry at any time |
| `TimerProgress.TaskIsRemovedAfterItsRuns` | common/source/danejoe/concurrent/timer/timer_manager.cpp:58-175 | from every reachable state some continuation takes an uncancelled task registered with n >= 0 out of the table after exactly n runs |
| `TimerProgress.TaskCanBeRemovedIff` | common/source/danejoe/concurrent/timer/timer_manager.cpp:58-175 | from a reachable state an uncancelled task can leave the table by itself if and only if it was registered with n >= 0 |
| `Timers.RunsAreNotEarly` | common/source/danejoe/concurrent/timer/timer_manager.cpp:30-104 | the k-th run of a task is not before k periods after its registration |
| `Timers.TasksAreThoseAskedFor` | common/source/danejoe/concurrent/timer/timer_manager.cpp:40-109 | ids are given out from 0 in the order in which tasks are asked for, each with its own period, count and time, and those known as cancelled are those that were |
| `Timers.FirstDeadlineIsExact` | common/source/danejoe/concurrent/timer/timer_manager.cpp:30-56 | the first deadline of a task is exactly one period behind the reading of the clock, and its only entry |
| `Timers.FiringIsExact` | common/source/danejoe/concurrent/timer/timer_manager.cpp:58-104 | a firing of a task that has left the table does nothing, of one without runs left removes it, and of any other runs it once and sets its only next deadline exactly one period behind the reading |
| `Timers.CancelledTaskStops` | common/source/danejoe/concurrent/timer/timer_manager.cpp:58-109 | after a cancel no firing of the task starts: its runs grow at most by one that was already under way |
| `Timers.ExpireMovesTheDue` | common/source/danejoe/concurrent/timer/timer_manager.cpp:147-161 | the timer thread moves exactly the due entries, in the order of their deadlines |
| `Timers.InsertPlaces` | common/source/danejoe/concurrent/timer/timer_manager.cpp:30-38 | an entry goes behind all that are due no later and in front of all that are due later |
| `Timers.TimerManager.AddTaskFor` | common/source/danejoe/concurrent/timer/timer_manager.cpp:30-38 | the entry lands behind all entries that are due no later |
| `Timers.TimerManager.AddPeriodicTask` | common/source/danejoe/concurrent/timer/timer_manager.cpp:40-56 | a new id, a table entry and its first deadline |
| `Timers.TimerManager.CancelPeriodicTask` | common/source/danejoe/concurrent/timer/timer_manager.cpp:105-109 | the table entry goes; its pending entry stays and will find nothing |
| `Timers.TimerManager.MoveDue` | common/source/danejoe/concurrent/timer/timer_manager.cpp:147-161 | the loop moves the due prefix |
| `Timers.TimerManager.ExecutePeriodicTask` | common/source/danejoe/concurrent/timer/timer_manager.cpp:58-104 | one firing: reschedules and runs, or removes a task with no runs left |

## Left out

- Qt widgets, event hub plumbing, loggers, diagnostics, enum tables, the SQLite driver and the repositories: forwarding or foreign calls. The block table is a map from ids to rows.
- System calls are step choices or parameters: what `read`, `write`, `accept`, `seek` and `open` answer. Error paths that remove a connection in the middle of the flush sweep are not steps of the model.
- Interval ends of unknown side, integer intervals, value filters and the printing of conditions. Half-open single points are excluded from the theorems on histories, with an example of what they do.
- Names of 2^16 bytes or more and fields whose recorded lengths differ from the actual ones; 32-bit wrap-around of the size counters inside one field or array value.
- to_array reads behind the end of the bytes when the element width does not fit them; the model gives up there. to_array for elements of variable length is not modelled.
- ArrayValues.ArrayRoundTripIff: requires a list of lengths that is not empty, because the encoder reads the first length of an empty list.
- Codec.SerializeCodec.Deserialize: requires that the fields which a message announces stay within its bytes, because the code reads behind them otherwise.
- MessageCodecs.TryParseByteArrayBlockRequest: requires the same of the body, for the same reason.
- MessageCodecs.TryParseByteArrayBlockResponse: requires the same of the body, for the same reason.
- Map values and dictionaries, which are stubs; the codec's string and character-array overloads beyond plain strings.
- The text of a field that is not a string, which is a parameter; members of an envelope before it is parsed, which are parameters.
- The download and test response builders and parsers, which have the shape of the block response ones.
- MpmcBoundedQueue: bulk `pop(n)` and `try_pop(n)`, timed pops, `set_max_size` and moves. The queue and the reactor are modelled on values as step relations, because several threads take turns on them; their objects and locks do not appear.
- Reactor: the capacity of the queue towards the server, including that the move assignment in the mailbox constructor leaves it at the default of 50 instead of 128 (`common/source/danejoe/network/runtime/reactor_mail_box.cpp`); what happens when the event counter overflows its 64 bits beyond staying at its maximum.
- BlockService.Add: a non-positive block size with a positive file size is shut out, because the loop does not end there (`Tiling.TilingEndsIff`).
- Download: buffering inside the file object and the result of its flush; removal of rows from the block table; a destination that is longer than the file keeps its old tail. Rows fit the 64-bit columns of the block table, blocks have fewer than 2^32 - 1000 bytes, and a task is enqueued with all its rows and with one path.
- URL: escapes, IPv6 and the address lookup, which returns the text as it is. Texts are shorter than npos.
- Where.BuildCondition: requires a range for every set condition on a known integer column, because the code dereferences it there without a test.
- WHERE: rows with NULL; the SET part of UPDATE; text conditions, which the code skips; the refusal of UPDATE and DELETE without conditions.
- Timer: one-shot callbacks and an injected execution environment; the callbacks themselves.
- SpscRingQueue and simple_server.
