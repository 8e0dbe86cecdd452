# A Dafny model of KaNet and the chat server

KaNet is a network framework in the style of muduo with an instant-messaging server on top.  This project models the
parts of it that keep state under pressure, and proves what each of them is for:

- `Buffer.dfy`, `Session.dfy`: the growable receive buffer, and the packet decoder of a chat session on top of it.  What
  a session delivers does not depend on how TCP cuts the stream.
- `Timer.dfy`: timers and the timer queue, whose order goes stale; bounded lateness and conservation of firings.
- `Pool.dfy`: the MySQL and Redis connection pools, which follow one protocol, as a step machine with any number of
  threads; exclusivity, conservation and no lost wakeup.
- `Wire.dfy`, `Proto.dfy`: the generated protobuf code of the two messages; parsing is merging.
- `Varint.dfy`, `Checksum.dfy`: 7-bit integers and the Internet checksum of RFC 1071.
- `Poller.dfy`: channels, the poller's map and the kernel's interest set.
- `Config.dfy`: the configuration file, loaded and written in place.
- `Connection.dfy`: the life of a connection under re-entrant callbacks, and the server's map of connections.
- `Log.dfy`: the asynchronous log writer.
- `Bytes.dfy`: shared vocabulary.

Code that changes things step by step is a class or a method with loops here too.  Its contract ties it to a function on
values, and the laws are lemmas about that function.  `dafny verify dfyconfig.toml` checks everything.

## Where the code departs from its intent

The model keeps what the code does and states exactly when that is what it is for.

- Net/Buffer.h:67 and Net/Buffer.h:121 refuse a length that is smaller than what is available, where they should refuse a
  larger one.  `Buffers.Guard` has both readings, every buffer operation is proved for both, and
  `Buffers.AppendIsConcatenationIff`, `Buffers.RetrieveIsDropIff` and `Buffers.ReadFdIsConcatenationIff` give the exact
  condition under which the text as written is right.  With the guards as written the decoder of a session consumes
  nothing: `Sessions.CallEndsIff` and `Sessions.AsWrittenAgreesIff`.
- Net/KaChannel.cpp:22 starts a channel at `KAdded`, where Net/KaPoller.h:15-18 and Net/KaChannel.h:14 call for `KNew`.
  The starting index is a parameter; `Pollers.RegistersIff` and `Pollers.AsWrittenRegistersNothing` say what follows.
  `KaChannel::remove` (Net/KaChannel.cpp:63-67) is unfinished; channels are removed through Net/EventLoop.cpp:132-142.
- The 32-bit accumulator of `checksum` overflows for long buffers: `Checksums.MeetsRfcIff` is the exact condition.
- The number in the name of a connection is cut to what fits 31 characters.  `Connections.NamesDistinctIff` and
  `Connections.MapIsRightIff` are the exact conditions, and `Connections.TenThousandthLosesConnection` is the failure.
- A configuration line longer than 127 characters loses its newline: `Config.StableIff` is the exact condition.
- `TrimSpace` on a blank string goes on into the memory in front of it (Util/ConfigFileReader.cpp:149-153), and of a line
  that starts with a NUL the byte in front is looked at (Util/ConfigFileReader.cpp:73-77).  C++ leaves both undefined; the
  model has that memory.  `Config.TrimStaysInsideIff` is the exact condition, `Config.BlankKeyRunsOut` an input.
- `Ka_Log::uninit` sets its flag without the mutex (Util/KaLog.cpp:95-97): `Logs.ExitMissedIff`, `Logs.ExitCanBeMissed`.
- Releasing a connection that another thread holds: `Pools.ReleaseConservesIff`, `Pools.StaleReleaseSharesConnection`.
- A stale key can hide a due timer from a pass: `Timers.PassVisitsAllDueIff` is the exact condition, and
  `Timers.StaleKeyHidesDueTimer` a run.

## Model

| member | source | states |
|---|---|---|
| `Sessions.ChunkIndependence` | ChatServer/ChatSession.cpp:32-91 | every way of cutting a byte stream into reads delivers the payloads, and reaches the open or closed verdict, of decoding the stream in one piece; an open session also holds the same leftover bytes |
| `Sessions.DecodedConcat` | ChatServer/ChatSession.cpp:33-90 | decoding a concatenation is decoding its first part and then its leftover followed by the second part |
| `Sessions.OpenIff` | ChatServer/ChatSession.cpp:36-89 | a session stays open with given payloads and leftover if and only if the stream is frames with exactly these payloads, all accepted, followed by the leftover, which is an incomplete packet |
| `Sessions.ClosedIff` | ChatServer/ChatSession.cpp:42-87 | a session is closed having handed over given payloads if and only if the stream is accepted frames followed by a packet with a size out of range, a body that does not uncompress or a payload that `process` turns down, told by its bytes |
| `Sessions.PacketByBytes` | ChatServer/ChatSession.cpp:38-88 | the packet at the front told by its bytes: which of the 20 are which field, flag 1 for compressed bodies, sizes from 1 to 10485760, and what `process` is given |
| `Sessions.HeadRoundTrip` | MsgDefine/MsgDefine.h:31-38 | the five fields of the packed header come out of its 20 bytes as they went in |
| `Sessions.RoundTrip` | MsgDefine/MsgDefine.h:28-39 | well-formed messages, plain or compressed, cut off anywhere inside one more, come out as exactly their payloads in order with the unfinished message as leftover |
| `Sessions.RetentionBound` | ChatServer/ChatSession.cpp:44-52 | an open session never retains 20 + 10·1024·1024 bytes or more after a read |
| `Sessions.IntendedRound` | ChatServer/ChatSession.cpp:36-89 | with the intended guards one round of the loop takes exactly one packet off the front, whose body is what follows its header |
| `Sessions.AsWrittenRound` | ChatServer/ChatSession.cpp:53-88 | with the guards as written a round consumes nothing, and the body of a complete packet is read from its header on |
| `Sessions.CallEndsIff` | ChatServer/ChatSession.cpp:32-91 | the loop ends on any buffer with the intended guards, and with the guards as written if and only if its first round ends it |
| `Sessions.AsWrittenAgreesIff` | ChatServer/ChatSession.cpp:36-89 | with the guards as written a call has the intended outcome if and only if no complete packet is at the front |
| `Sessions.AsWrittenSpinsExample` | ChatServer/ChatSession.cpp:79-88 | a concrete packet that the loop as written processes for ever |
| `Sessions.ChatSession.ReadPacket` | ChatServer/ChatSession.cpp:35-89 | one round of the loop, on either reading of the guards: verdict, payload handed to `process`, bytes left, close flag and time stamp |
| `Sessions.ChatSession.OnRead` | ChatServer/ChatSession.cpp:32-91 | on either reading of the guards, whenever the loop ends at all, the payloads handed over, the close flag, the bytes left and the time stamp |
| `Sessions.ChatSession.HandleRead` | Net/TcpConnection.cpp:138-158 | a read feeds what the buffer then holds to the decoder, on either reading of the guards, and with the intended ones that is the leftover followed by the chunk; end of file or an error closes |
| `Sessions.ChatSession.Receive` | Net/TcpConnection.cpp:138-158 | successive reads, until the session is closed, leave it with the outcome of decoding the whole stream in one piece, however it was cut |
| `Buffers.AppendIsConcatenationIff` | Net/Buffer.h:163-168 | `append` concatenates if and only if the guard is the intended one, nothing is appended, or the space is used up exactly |
| `Buffers.RetrieveIsDropIff` | Net/Buffer.h:119-128 | `retrieve(len)` drops `len` bytes if and only if the guard is the intended one, or `len` is 0 or everything |
| `Buffers.ReadFdIsConcatenationIff` | Net/Buffer.cpp:14-39 | `readFd` appends what was read if and only if the guard is the intended one or the overflow avoids, or exactly fills, the compacted space |
| `Buffers.SpaceOutcome` | Net/Buffer.h:201-242 | the room after making space: what is behind the contents if that is enough, all free room but for 8 bytes if that is, and otherwise what was asked for |
| `Buffers.RefusedOutcome` | Net/Buffer.h:65-71 | what `append`, `readFd` and `retrieve` leave when a guard refuses, on either reading |
| `Buffers.Buffer.MakeSpace` | Net/Buffer.h:225-242 | contents are kept, the requested space is there afterwards, and the early return is never taken |
| `Buffers.Buffer.CopyDown` | Net/Buffer.h:235-238 | the overlapping in-place copy moves the contents to the prepend area intact |
| `Buffers.Buffer.EnsureWritableBytes` | Net/Buffer.h:201-208 | contents unchanged and at least the requested number of bytes writable |
| `Buffers.Buffer.Append` | Net/Buffer.h:163-168 | the new contents and writable space, for both readings of the guard |
| `Buffers.Buffer.Prepend` | Net/Buffer.h:175-185 | prefixes the bytes when they fit in front, and otherwise changes nothing |
| `Buffers.Buffer.Retrieve` | Net/Buffer.h:119-128 | the new contents and answer, for both readings of the guard |
| `Buffers.Buffer.RetrieveAsString` | Net/Buffer.h:141-148 | returns the first bytes and drops them, or nothing when too many are asked for |
| `Buffers.Buffer.HasWritten` | Net/Buffer.h:65-71 | the new write index, and that it stays inside the array if and only if the guard is the intended one or the length fits |
| `Buffers.Buffer.Shrink` | Net/Buffer.h:191-196 | contents kept with the reserve writable; as written, contents are lost unless the new space is used up exactly |
| `Buffers.Buffer.Swap` | Net/Buffer.h:32-37 | the two buffers exchange arrays and indices |
| `Buffers.Buffer.ReadFd` | Net/Buffer.cpp:14-39 | a scatter read into the writable space and the 64 KiB overflow area |
| `Timers.BoundedLateness` | time/TimerQueue.cpp:52-78 | from any reachable queue, with passes at most a gap apart and nothing inserted ahead, a timer is visited within the gap plus the intervals of the timers ahead of it after it is due |
| `Timers.LatenessBehind` | time/TimerQueue.cpp:52-73 | the same for one queue and any expirations not more than an interval ahead of the clock, by induction on the position |
| `Timers.HeadDelays` | time/KaTime.cpp:27-39 | a timer at the head widens the gap between the passes that get past it by at most its interval |
| `Timers.PassIsDuePrefix` | time/TimerQueue.cpp:52-73 | one pass visits exactly the maximal due prefix, each timer once and in the order of the set |
| `Timers.FreshPassVisitsAllDue` | time/TimerQueue.cpp:75-78 | while every expiration is still its key, the timers visited are exactly the due ones, by nondecreasing deadline, and by address among equal ones |
| `Timers.PassVisitsAllDueIff` | time/TimerQueue.cpp:55-73 | a pass visits every due timer if and only if no due timer has one ahead of it that is not due |
| `Timers.StaleKeyHidesDueTimer` | time/TimerQueue.cpp:55-73 | a run from the empty queue after which a pass leaves a due timer unvisited, behind one that has run and kept its key |
| `Timers.FiringConservation` | time/KaTime.cpp:27-39 | over every run, firings are on schedule, firings and remaining count add up, a count n allows max(1, n) firings and leads to exactly n if a pass erases the timer, and a negative count is never erased by a pass; and at every point of the run the timer fires only when it is queued, due and not cancelled |
| `Timers.FiringsSnoc` | time/TimerQueue.cpp:52-78 | the firings of a run are those of its events, each at the queue that the events before it lead to |
| `Timers.RunKeepsOrdered` | time/TimerQueue.cpp:17-78 | every run keeps the set ordered and without duplicates, whatever the intervals and clocks |
| `Timers.RunKeepsInvariants` | time/TimerQueue.cpp:17-78 | with nonnegative intervals and clocks that never go back, expirations stay at most one interval ahead of the clock as well |
| `Timers.RunsOutcome` | time/KaTime.cpp:27-39 | deadline and count after any number of runs; the run that uses up the count leaves the deadline alone |
| `Timers.InsertKeepsAll` | time/TimerQueue.cpp:75-78 | an insertion adds its entry and loses none |
| `Timers.RemoveTakesOne` | time/TimerQueue.cpp:26-38 | a removal takes the given timer out, and no other |
| `Timers.ControlSwitchesOne` | time/TimerQueue.cpp:40-49 | a cancellation switches the given timer and leaves every entry in its place |
| `Timers.Timer.Run` | time/KaTime.cpp:27-39 | new expiration and count, and that the callback runs exactly when the timer is not cancelled |
| `Timers.TimerQueue.DoTimer` | time/TimerQueue.cpp:52-73 | the loop with erasure in place leaves the queue, and runs the callbacks, of one pass |
| `Timers.TimerQueue.AddTimer` | time/TimerQueue.cpp:17-21 | inserts the new timer at its place in the order of the set |
| `Timers.TimerQueue.InsertSlot` | time/TimerQueue.cpp:75-78 | the new entry goes in front of the first one that the key order puts behind it |
| `Timers.TimerQueue.RemoveTimer` | time/TimerQueue.cpp:28-37 | removes that timer and nothing else |
| `Timers.TimerQueue.Cancel` | time/TimerQueue.cpp:40-49 | switches that timer and nothing else |
| `Pools.PoolIsSafe` | DataBase/KaMysql/KaDBManager.cpp:209-257 | in every interleaving of any number of threads no connection is free twice, held twice or both, free and held connections add up to the counter, and the counter stays between 2 and max(2, limit) |
| `Pools.WaitersAreNotForgotten` | DataBase/KaMysql/KaDBManager.cpp:211-217 | in every reachable state with an unwoken waiter the pool is exhausted and all connections are held, or the mutex holder is about to wake everybody |
| `Pools.StepKeepsInv` | DataBase/KaRedis/KaCachePool.cpp:586-633 | every step of every thread keeps mutual exclusion, exclusivity, conservation and no lost wakeup |
| `Pools.TakesOldest` | DataBase/KaRedis/KaCachePool.cpp:612-614 | a thread that finds a free connection is handed the oldest one |
| `Pools.GrowsWhenBelowLimit` | DataBase/KaRedis/KaCachePool.cpp:595-614 | when nothing is free and the counter is below its limit, a thread is handed a new connection, which counts |
| `Pools.GetsNothing` | DataBase/KaRedis/KaCachePool.cpp:589-604 | a thread waits exactly when the pool is exhausted, and goes away when a new connection does not open; nothing else changes |
| `Pools.GivesBack` | DataBase/KaRedis/KaCachePool.cpp:617-633 | a connection that is given back goes behind the free ones, and every waiting thread is woken |
| `Pools.WakesAnyTime` | DataBase/KaRedis/KaCachePool.cpp:589-593 | a waiting thread may wake up at any time, and tests the pool again |
| `Pools.ReleaseConservesIff` | DataBase/KaMysql/KaDBManager.cpp:242-257 | a release keeps the books straight if and only if the thread holds the connection or it is free |
| `Pools.StaleReleaseSharesConnection` | DataBase/KaMysql/KaDBManager.cpp:242-257 | a run from an initial pool in which a thread takes and gives back a connection that another thread then takes, and whose second release by the first thread leaves it free and held at once |
| `Pools.ConnPool.Init` | DataBase/KaMysql/KaDBManager.cpp:191-205 | succeeds if and only if every connection does, and then they are all free; stops at the first that fails |
| `Pools.ConnPool.Get` | DataBase/KaRedis/KaCachePool.cpp:589-614 | one round of the loop under the mutex: wait, fail, create or hand out the oldest free connection |
| `Pools.ConnPool.Release` | DataBase/KaRedis/KaCachePool.cpp:617-633 | the search through the free list adds the connection exactly when it is not there |
| `Proto.ParseIsMerge` | MsgDefine/KaBaseDefine.pb.cc:199-302 | parsing a serialised message, with anything behind it, merges the message and goes on with what is behind |
| `Proto.RoundTrip` | MsgDefine/KaBaseDefine.pb.cc:305-349 | parsing a serialised message gives the message back from an empty one, and the merge from any other |
| `Proto.ConcatenationMerges` | MsgDefine/KaBaseDefine.pb.cc:407-431 | concatenated serialisations parse to the merge of the messages |
| `Proto.ReparseIsIdentity` | MsgDefine/KaBaseDefine.pb.cc:586-693 | whatever bytes parse, the parsed message is what its own serialisation parses to |
| `Proto.ParseKeepsWellFormed` | MsgDefine/KaBaseDefine.pb.cc:586-661 | whatever bytes parse, fields stay in range, strings valid UTF-8 and unknown fields re-readable |
| `Proto.ByteSizeIsLength` | MsgDefine/KaBaseDefine.pb.cc:351-399 | the computed byte size is the length of the serialisation |
| `Proto.UserInfo.Layout` | MsgDefine/KaBaseDefine.pb.cc:305-349 | the bytes of a message: its fields that are not default, in order, under the tags 8, 16, 26, 34 and 40, and then the unknown ones |
| `Proto.ChatMessage.Layout` | MsgDefine/KaBaseDefine.pb.cc:664-693 | the same under the tags 8, 16 and 26 |
| `Proto.CutFieldIsRefused` | MsgDefine/KaBaseDefine.pb.cc:199-302 | a serialised field that is cut off anywhere does not parse |
| `Proto.InvalidTextIsRefused` | MsgDefine/KaBaseDefine.pb.cc:236-247 | a string that is not valid UTF-8 does not parse, whatever follows |
| `Proto.UnskippableIsRefused` | MsgDefine/KaBaseDefine.pb.cc:284-291 | an unknown field that cannot be skipped does not parse |
| `Proto.EndsWithoutTag` | MsgDefine/KaBaseDefine.pb.cc:284-288 | a message ends where no tag can be read, and at the tag 0 |
| `Wire.SkipRoundTrip` | MsgDefine/KaBaseDefine.pb.cc:289-290 | skipping an unknown field that was written, groups included, gives the field back and leaves what follows |
| `Wire.SkippedIsValid` | MsgDefine/KaBaseDefine.pb.cc:289-290 | whatever is skipped can be written and read back under the tag that was read |
| `Wire.VarintBytes` | MsgDefine/KaBaseDefine.pb.cc:207-219 | a varint ends with its first byte below 128, one of the first ten, and its value is that of the 7-bit groups modulo 2 to the power 64 or 32 |
| `Wire.StringBytes` | MsgDefine/KaBaseDefine.pb.cc:236-247 | a string is read exactly when its length is below 2 to the power 31 and there are that many bytes |
| `Wire.SkipByWireType` | MsgDefine/KaBaseDefine.pb.cc:289-290 | what each of the eight wire types takes from the input, and which cannot be skipped |
| `Wire.GroupEnds` | MsgDefine/KaBaseDefine.pb.cc:289-290 | a group ends with the end tag of its own number and is refused otherwise |
| `Proto.UserInfo.MergePartialFromCodedStream` | MsgDefine/KaBaseDefine.pb.cc:199-302 | the parse loop succeeds exactly when `Parse` does, with its message; after a failure every field but the one that could not be read is as read before it |
| `Proto.UserInfo.SerializeWithCachedSizes` | MsgDefine/KaBaseDefine.pb.cc:305-349 | appends the serialisation, field by field |
| `Proto.UserInfo.ByteSizeLong` | MsgDefine/KaBaseDefine.pb.cc:351-399 | the byte size, accumulated in the order of the generated code |
| `Proto.UserInfo.MergeFrom` | MsgDefine/KaBaseDefine.pb.cc:407-431 | non-default fields of the other message win, unknown fields are appended |
| `Proto.UserInfo.CopyFrom` | MsgDefine/KaBaseDefine.pb.cc:433-438 | the message becomes the other one, also when it is the same object |
| `Proto.ChatMessage.MergePartialFromCodedStream` | MsgDefine/KaBaseDefine.pb.cc:586-661 | the parse loop succeeds exactly when `Parse` does, with its message; after a failure every field but the one that could not be read is as read before it |
| `Proto.ParseIsParsedUpTo` | MsgDefine/KaBaseDefine.pb.cc:586-661 | parsing succeeds if and only if the reading stops in front of an end, with the message read so far |
| `Proto.ChatMessage.SerializeWithCachedSizes` | MsgDefine/KaBaseDefine.pb.cc:664-693 | appends the serialisation, field by field |
| `Proto.ChatMessage.ByteSizeLong` | MsgDefine/KaBaseDefine.pb.cc:695-729 | the byte size, accumulated in the order of the generated code |
| `Proto.ChatMessage.MergeFrom` | MsgDefine/KaBaseDefine.pb.cc:737-754 | non-default fields of the other message win, unknown fields are appended |
| `Proto.ChatMessage.CopyFrom` | MsgDefine/KaBaseDefine.pb.cc:756-761 | the message becomes the other one, also when it is the same object |
| `Checksums.Checksum` | Util/ProtocoIStream.cpp:9-25 | the summing and folding loops compute the complement of the one's complement sum of what fits a 32-bit accumulator |
| `Checksums.MeetsRfcIff` | Util/ProtocoIStream.cpp:10-15 | for any size that is an `int`, the result is the checksum of RFC 1071, section 1, if and only if the sum fits 32 bits |
| `Checksums.NoOverflow` | Util/ProtocoIStream.cpp:10-15 | up to 131074 bytes the accumulator does not overflow |
| `Checksums.OverflowExample` | Util/ProtocoIStream.cpp:10-15 | 131076 bytes of 0xff already get a wrong checksum |
| `Checksums.TwoRoundsSuffice` | Util/ProtocoIStream.cpp:20-23 | the folding loop ends within two rounds |
| `Checksums.PermutationInvariant` | Util/ProtocoIStream.cpp:11-19 | reordering 16-bit words, in front of the same odd byte if there is one, does not change the result, overflow or not |
| `Checksums.OddIsPadded` | Util/ProtocoIStream.cpp:16-19 | data of odd length has the checksum of the data with a zero byte behind it, overflow or not |
| `Checksums.SmallChecksums` | Util/ProtocoIStream.cpp:9-25 | the checksums of no, one and two bytes, the second one being the higher |
| `Checksums.SplitsInParts` | Util/ProtocoIStream.cpp:20-23 | data cut after an even number of bytes can be summed in parts and recombined with end-around carry, by RFC 1071 always, and by the code if and only if the two accumulators do not overflow together, as within the size bound |
| `Checksums.ByteOrderIndependent` | Util/ProtocoIStream.cpp:11-24 | byte-swapping every word byte-swaps the checksum, that of RFC 1071 and, within the size bound, that of the code |
| `Checksums.VerifiesIff` | Util/ProtocoIStream.cpp:24 | data followed by a word has checksum 0 if and only if the word is its checksum or the other zero, and, for the code, adding it does not overflow the accumulator, as within the size bound |
| `Checksums.AppendedChecksumVerifies` | Util/ProtocoIStream.cpp:9-25 | the code computes 0 for data with its own checksum appended if and only if adding it does not overflow the accumulator, as within the size bound |
| `Varints.Write7BitEncode` | Util/ProtocoIStream.cpp:27-48 | both encoders append the same encoding, of at most 5 or 10 bytes |
| `Varints.EncodedByte` | Util/ProtocoIStream.cpp:29-35 | byte i of an encoding has the seven bits from 7·i on, and its highest bit tells whether there is another byte |
| `Varints.RoundTrip` | Util/ProtocoIStream.h:36-38 | decoding an encoded value, with anything behind it, gives the value and its length |
| `Varints.EncodeAllIsInjective` | Util/ProtocoIStream.cpp:27-48 | a list of encoded values has only one reading |
| `Varints.LengthOfEncodeIff` | Util/ProtocoIStream.cpp:29-35 | an encoding takes at most n bytes if and only if the value is below 128 to the power n |
| `Varints.EncodeIsMinimal` | Util/ProtocoIStream.cpp:29-35 | no byte string that decodes to a value is shorter than its encoding |
| `Pollers.RunKeepsConsistent` | Net/KaPoller.cpp:75-147 | over all calls on any set of channels, the index says whether the channel is in the map and in the kernel set, there under its own mask |
| `Pollers.KernelNeverRefuses` | Net/KaPoller.cpp:75-163 | after any calls, every ADD of an update is for an absent descriptor and every MOD or DEL for a present one, and so is the DEL of a removal; an update fails only for a new channel whose descriptor is taken |
| `Pollers.ChangeRegisters` | Net/KaPoller.cpp:75-124 | a change that succeeds leaves the channel in the kernel set under its new mask, again if it was switched off before, unless it switches it off; one that is refused changes nothing but the mask |
| `Pollers.RemovalForgets` | Net/KaPoller.cpp:128-147 | a removal takes a known channel without interest off map and kernel set and makes it new, and otherwise does nothing |
| `Pollers.RemovalCanDelete` | Net/KaPoller.cpp:128-147 | a run in which the removal of a channel asks the kernel for a DEL, which empties its set |
| `Pollers.KaPoller.NewChannel` | Net/KaChannel.cpp:17-24 | a new channel has no interest and the given first index; map and kernel set stay as they are |
| `Pollers.RegistersIff` | Net/KaChannel.cpp:17-24 | a new channel is registered by its first change if and only if it starts at `KNew` |
| `Pollers.AsWrittenRegistersNothing` | Net/KaChannel.cpp:22 | when all channels start at `KAdded`, no run registers anything |
| `Pollers.ChangeIsLocal` | Net/KaChannel.cpp:13-52 | each enable or disable call sets or clears its own interest and leaves the other events alone |
| `Pollers.KaPoller.UpdateChannel` | Net/KaPoller.cpp:75-124 | the new map, index, kernel set and answer |
| `Pollers.KaPoller.RemoveChannel` | Net/KaPoller.cpp:128-147 | the new map, index and kernel set |
| `Pollers.KaPoller.HasChannel` | Net/KaPoller.cpp:24-28 | true exactly when the map holds this channel under its descriptor |
| `Pollers.KaPoller.Adjust` | Net/KaChannel.cpp:29-58 | the enable and disable calls change the mask and update |
| `Pollers.KaPoller.FillActiveChannel` | Net/KaPoller.cpp:58-71 | every reported event gets into the active list once, in order and with its own mask; the mismatch return is never taken |
| `Pollers.KaPoller.Poll` | Net/KaPoller.cpp:31-54 | the same, and the event vector doubles exactly when it was full, so that it stays 16 times a power of two |
| `Config.StableIff` | Util/ConfigFileReader.cpp:92-122 | writing a clean configuration in any order and loading it gives it back if and only if every line fits its buffer, the last one without its newline |
| `Config.ReloadIff` | Util/ConfigFileReader.cpp:54-89 | the same for what was loaded from any text |
| `Config.LoadedIsClean` | Util/ConfigFileReader.cpp:125-160 | keys and values loaded from any text, NULs included, are trimmed, non-empty, free of '#', newlines and NULs, keys free of '='; and the first binding of a key wins |
| `Config.PaddedLineIsRead` | Util/ConfigFileReader.cpp:125-160 | key and value come out whatever blanks, tabs and carriage returns are around them, with a comment behind them or without |
| `Config.CommentIsDropped` | Util/ConfigFileReader.cpp:73-81 | a comment and a newline do not change what a line means |
| `Config.NulEndsLine` | Util/ConfigFileReader.cpp:73-81 | nor does what follows a NUL |
| `Config.NoPairIff` | Util/ConfigFileReader.cpp:125-139 | a line has no pair without an equals sign, and otherwise exactly when one side of the first one is blank |
| `Config.LoadsByLines` | Util/ConfigFileReader.cpp:63-82 | a text is loaded line by line, and a line is cut after 255 characters |
| `Config.CountBound` | Util/ConfigFileReader.cpp:66-72 | lines that run into each other never need more reads than there are pairs, and one for an unfinished line |
| `Config.TrimSpace` | Util/ConfigFileReader.cpp:141-160 | the pointer loops leave the trimmed string in place, or NULL exactly when it is empty; the memory afterwards; and nothing outside the string changes if and only if it is not blank or no blank stands in front of it |
| `Config.TrimStaysInsideIff` | Util/ConfigFileReader.cpp:149-153 | the same condition on memory, for every string and everything in front of it |
| `Config.BlankKeyRunsOut` | Util/ConfigFileReader.cpp:149-153 | a line with a blank key, and the blank in front of the line buffer that it overwrites |
| `Config.ConfigFileReader.ParseLineInPlace` | Util/ConfigFileReader.cpp:125-139 | the in-place parse inserts the pair of the line, and overwrites the blanks in front of the buffer exactly when the key is blank |
| `Config.ConfigFileReader.StripInPlace` | Util/ConfigFileReader.cpp:73-81 | newline and comment are overwritten, and in front of the buffer at most a newline |
| `Config.ConfigFileReader.LoadFile` | Util/ConfigFileReader.cpp:54-89 | loading through the line buffer is `Load` of the text, NULs included; a file that does not open changes nothing |
| `Config.ConfigFileReader.WriteToFile` | Util/ConfigFileReader.cpp:92-122 | the text is `Printed` of the map if and only if the file opens and every `fwrite` gets through; otherwise it is the lines before the first one that does not, and what got through of that one |
| `Connections.ClosesOnce` | Net/TcpConnection.cpp:193-203 | after any calls, under any re-entrant order and whatever the names, the close callback of a connection has run exactly once if it is disconnected and not at all otherwise |
| `Connections.MapHoldsTheLiving` | Net/TcpServer.cpp:69-98 | after any re-entrant calls a connection is disconnected exactly when its close callback has run, once; and, while names fit, exactly when it is off the map, which holds nothing else |
| `Connections.DisconnectedIsFinal` | Net/TcpConnection.cpp:193-203 | a disconnected connection stays disconnected whatever is called |
| `Connections.ForceCloseOutcome` | Net/TcpConnection.cpp:102-108 | a forced close disconnects a connected or disconnecting connection whatever the callbacks do, and leaves a connecting one alone |
| `Connections.CallbackRuns` | Net/TcpConnection.cpp:114-203 | every handler that gets as far as the user callback runs it: a connection that the callback closes is disconnected |
| `Connections.NothingWithoutCallback` | Net/TcpConnection.cpp:90-203 | every other call does nothing, except that `shutdown` of a connected connection makes it disconnecting |
| `Connections.ClosesInside` | Net/TcpConnection.cpp:193-203 | a close callback runs after the user callback, and after the close callbacks of what that one closes |
| `Connections.EndingDisconnects` | Net/TcpConnection.cpp:114-203 | end of file and errors, a hang-up and a failing `enableReading` disconnect the connection, whatever the callbacks do |
| `Connections.AcceptOutcome` | Net/TcpServer.cpp:69-86 | a new connection gets the next number and its place in the map and is connected, or is closed at once |
| `Connections.ExecAllSnoc` | Net/TcpConnection.cpp:193-203 | calls happen one after the other |
| `Connections.NameLayout` | Net/TcpServer.cpp:71-74 | a name is the server's, a colon, the host string, a hash sign and the number in decimal |
| `Connections.ExecAllMovesOn` | Net/TcpConnection.cpp:90-127 | states only move on from connecting to connected, disconnecting and disconnected |
| `Connections.ExecAllKeeps` | Net/TcpConnection.cpp:193-203 | the same balance of states and close callbacks, and of the map while names fit, inside a callback, with the connections that are being closed |
| `Connections.NamesAreDistinct` | Net/TcpServer.cpp:71-74 | names that fit the buffer are equal only for the same connection number |
| `Connections.NamesDistinctIff` | Net/TcpServer.cpp:71-74 | the first n connections of a server have different names if and only if the host string and the digits of n take at most 29 characters, or n is at most 1 |
| `Connections.MapIsRightIff` | Net/TcpServer.cpp:69-98 | the map holds exactly the connections that are not disconnected after every run of up to n connections, with any re-entrant calls, if and only if the name of connection n fits, or n is at most 1 |
| `Connections.CollisionLosesConnection` | Net/TcpServer.cpp:74-78 | a connection with the name of an earlier one takes its place in the map while the earlier one is still connected |
| `Connections.TenThousandthLosesConnection` | Net/KaSocket.h:132-138 | with a host string of the greatest length, 25, connection 10000 has the name of connection 1000 and takes it off the map, where it was up to then, still connected |
| `Connections.TcpServer.CloseConnection` | Net/TcpConnection.cpp:193-203 | `handleClose`: state first, then the callbacks |
| `Connections.TcpServer.ForceCloseConnection` | Net/TcpConnection.cpp:102-108 | `forceClose`, only when connected or disconnecting |
| `Connections.TcpServer.ConnectEstablished` | Net/TcpConnection.cpp:114-127 | `connectEatablished`, closing at once when reading cannot be enabled |
| `Connections.TcpServer.Accept` | Net/TcpServer.cpp:69-86 | `newConnection` |
| `Logs.NothingIsLost` | Util/KaLog.cpp:178-183 | in every interleaving, what is written, the rest of the line in hand and the queue are the accepted lines in order, which are those of the run's calls of `output`, and the writer never waits while there is a line |
| `Logs.AcceptedAreLinesOf` | Util/KaLog.cpp:125-183 | whatever else goes on, the accepted lines are those of the calls that are not below the level set last, in order |
| `Logs.OutputOutcome` | Util/KaLog.cpp:125-183 | a line that is not below the level is queued last and wakes a waiting writer; any other does nothing |
| `Logs.StepKeepsInv` | Util/KaLog.cpp:324-371 | every step of producers, writer and `uninit` keeps that |
| `Logs.ExitMeansWritten` | Util/KaLog.cpp:353-361 | the writer returns because of the flag exactly when the flag is set and every accepted line is written |
| `Logs.ExitMissedIff` | Util/KaLog.cpp:95-101 | whatever happened between setting the flag and the notification, the writer, left to itself after it, comes to rest within a bounded number of steps; it rests waiting, and only a new line or a spurious wake-up can free it, if and only if at the notification it was past its test of the flag and not waiting yet; otherwise it ends, and nothing changes that |
| `Logs.ExitCanBeMissed` | Util/KaLog.cpp:95-101 | a run after which the flag is set, the notification is over, and the writer waits until a new line or a spurious wake-up |
| `Logs.LogFile.WriteToFile` | Util/KaLog.cpp:292-312 | short writes put a prefix of the line into the file, all of it exactly when the answer is true |
| `Logs.KaLog.SetLevel` | Util/KaLog.cpp:110-116 | the level becomes the given one exactly when it is a level |
| `Logs.KaLog.Output` | Util/KaLog.cpp:125-132 | a line is queued exactly when its level is not below the current one |
| `Logs.KaLog.Take` | Util/KaLog.cpp:350-361 | the oldest line first, and the flag only when there is none |

## Left out

- Sockets, `readv`, `write`, `epoll_wait`, `epoll_ctl`, zlib, UTF-8 validation, the MySQL and Redis clients: parameters. `readv` is an arbitrary chunk within the two segments, `epoll_ctl` its presence rules on open descriptors, `uncompress` and UTF-8 validity arbitrary functions, and `Init` of a new connection may fail or not.
- `ChatSession::process` has an empty body; it is an arbitrary predicate on the payload. `time(NULL)` is one value for each call of `OnRead`.
- Sessions.ChatSession.OnRead: requires that the loop ends, which by `Sessions.CallEndsIff` it need not with the guards as written; `Sessions.ChatSession.ReadPacket` has no such precondition.
- Sessions.ChatSession.HandleRead: requires the same of the buffer after the read, and a chunk within the two segments of `readv`.
- Timers.BoundedLateness: is stated for nonnegative intervals; with a negative one the sum of the intervals is no bound. Firing conservation has no such condition.
- Wrap-around of `size_t`, of the 64-bit time stamps and of repeat counts, and of the `int` connection number; negative sizes passed to `checksum`.
- `Buffer::findString`, `findCRLF`, `findEOF` and `retrieveUntil`: searches and a wrapper that would only add easy members.
- `TcpConnection::send` and the output buffer, which is never filled; `TcpServer::stop`; threads and round robin of the loop pool; `EventLoop::quit`; HTTP, SQL and coroutine stubs.
- Timer callbacks that re-enter the timer queue, and channels destroyed during a pass over the active list.
- Connections.TcpServer.CloseConnection: connections are numbers in a map of the server and not objects of their own, so object lifetime under `shared_ptr` is not modelled.
- Config.TrimSpace: requires that some byte further in front is not a blank, so that the backward loop stops inside the memory that is modelled; `Config.ConfigFileReader.LoadFile` takes that memory as a parameter.
- `ConfigFileReader::SetConfigValue` and `GetConfigName`: map access. `m_has_load` is uninitialised in the source and false here.
- Proto.UserInfo.MergePartialFromCodedStream: what a failing library call leaves in the field it was reading is not specified.
- Proto.ChatMessage.MergePartialFromCodedStream: likewise.
- The accelerated `_InternalParse` branch, arenas and the cached size of messages.
- Pools.ConnPool.Get: one round of the loop; waiting, waking and the mutex itself are steps of `Pools.State`. Liveness is not claimed: a woken thread may find the pool empty again.
- More than one call of `uninit`: the first one waits for the writer to end.
- The FATAL path of the logger, prefixes and clock formatting, truncation of long lines, rolling of log files (the files count as one) and an empty log file name.
- Words of `checksum` are read as a little-endian machine reads them.
