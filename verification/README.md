# NanoNet: a verified model of the packet path

NanoNet is a Linux kernel module that takes market-data packets off the netfilter
pre-routing hook, decides whether to place an order, and sends the order in a frame it
builds itself. This project models that path in Dafny 4.11 and proves what it does: the
Internet checksum and the test built on it, the two packet parsers, the response builder,
the TCP connection table, the pool of response buffers, the processing-time statistics,
client order ids, and the hook and ioctl commands as one state machine whose runs are
arbitrary sequences of packets and commands.

`dafny verify dfyconfig.toml` checks everything.

| file | content |
|---|---|
| `Bytes.dfy`, `Arithmetic.dfy` | machine integers, byte order, error codes; products and quotients |
| `Checksum.dfy` | the checksum loops against sections 1 and 2 of RFC 1071 |
| `Parsers.dfy` | full and fast parser, their relation, the frames they accept |
| `Frames.dfy` | the parsers' results from the bytes of a frame alone |
| `Configuration.dfy`, `Builder.dfy`, `RoundTrip.dfy` | the response frame, the buffer code that writes it, what parsing gives back |
| `Connections.dfy`, `ConnectionHistory.dfy` | the connection table as a map; its contents from the history of calls |
| `HList.dfy`, `ConnectionTable.dfy` | the kernel's linked lists, node by node, and the chained hash table made of them |
| `ResponsePool.dfy` | the buffer pool, over whole runs |
| `Timing.dfy` | minimum, maximum and running average in 64-bit arithmetic |
| `Orders.dfy` | the order decision, its bytes, client order ids |
| `NanoNet.dfy` | hook, application logic, sending, ioctl: the steps and the code that takes them |
| `Steps.dfy` | what one hook call does: which packets are bypassed, refused, taken and answered |
| `Segments.dfy` | TCP packets written from header fields, and what the hook and the table make of them |
| `Runs.dfy` | what holds in every run |

How it is modelled. Memory is a sequence of bytes and a pointer an offset into it. Fixed-width
integers are subset types of `int` and wrap-around is written out. The host is little-endian
and bit-fields are laid out from the low bit, as GCC does there; the checksum is also stated
for a big-endian host. Each hook call, ioctl, table call and pool call is one step. The
kernel's answers (clock, rate limit, allocations, device lookup, transmit result, user copies)
are inputs of the step that asks. The hash function is a parameter about which nothing is
known. Code that changes state is a class or a method proved against a function on values,
down to the list nodes and their pointers; the theorems are about those functions, and
`Runs.Drive` carries them over to the code. `hide` statements in proofs only keep definitions
from the solver where they are not needed. What the code reads from or writes to a packet is
also stated without its own accessors, on the bytes at their offsets or through an encoder, with
the numbers of the formats and the error codes written out.

Where the code departs from its evident intent the model follows the code. The exact condition
under which the two agree is proved, and an input on which they do not:

- `validate_checksum` sums over the stored field and compares with it (src/micro_stack.c:16-19),
  so a header that is good under section 3.1 of RFC 791 passes exactly when its field is zero:
  `GoodHeaderAcceptedIffZero`; `SomeGoodFrameIsRejected`, `SomeGoodPacketRefused`.
- A trailing odd byte is shifted left by eight on every host (src/micro_stack.c:115), which on a
  little-endian host is right exactly when that byte is zero: `OddByteOnLittleEndian`;
  `OddByteFails`.
- A successful send returns 0 (src/response_sender.c:149) and the hook counts a response only
  for a positive result (src/nanonet.c:119), so `responses_sent` is always 0 and right exactly
  when nothing has been sent: `ResponsesCountedIff`; `SomeRunAnswers`.
- RESET_STATS zeroes `connections_active` but leaves the table (src/control_interface.c:71), so
  the count is the table's size exactly when the table was empty at the last reset:
  `ActiveIsSizeIff`; `ActiveCanBeNegative`.
- SET_CONFIG overwrites the live configuration before validating it
  (src/control_interface.c:39-44), which is as intended exactly when what lands is whole and valid
  or already in force: `SetConfigAsIntendedIff`; `RefusedConfigStays`.
- `tot_len` is compared without byte-order conversion (src/security.c:90): `LengthGuard`;
  `LengthGuardFails`.
- The average wraps in 64 bits (src/nanonet.c:135-137): `DriftBoundedIffNoWrap`, and for the
  minimum `TimingInvariant`; `WrappedAverageCanFallBelowMinimum`.
- Client order ids are cut to 15 characters (src/packet_processor.c:24, 61), so today's
  timestamps give equal ids within ten milliseconds: `SameIdIff`,
  `ClockIdsCollideWithinTenMilliseconds`.
- src/micro_stack.c:85 is read as `(*udp_hdr)->...`; as written it does not compile.

## Model

| member | source | states |
|---|---|---|
| Checksum.Accumulate | src/micro_stack.c:105-116 | the summing loop's 32-bit accumulator ends as the word sum modulo 2^32, for every length a C int can hold, negative included |
| Checksum.Fold | src/micro_stack.c:118-120 | the folding loop terminates with the one's-complement representative of what it started from |
| Checksum.FoldStep | src/micro_stack.c:118-120 | one fold strictly decreases the sum, keeps it non-zero and keeps its value modulo 65535 |
| Checksum.ComputeChecksum | src/micro_stack.c:105-123 | the result is 65535 minus the representative of the wrapped word sum |
| Checksum.OnesSumIsCanon | src/micro_stack.c:109-120 | adding first and folding later gives the one's-complement sum of section 1 of RFC 1071 |
| Checksum.NoWrap | src/micro_stack.c:106-112 | at most 131074 bytes never wrap the accumulator |
| Checksum.WrapBoundIsTight | src/micro_stack.c:106-112 | 131076 bytes can wrap it |
| Checksum.ChecksumMeetsRfc | src/micro_stack.c:105-123 | for even lengths, and any length on a big-endian host, the code returns the RFC 1071 checksum if and only if the accumulator does not wrap |
| Checksum.OddByteOnLittleEndian | src/micro_stack.c:114-116 | for odd lengths on a little-endian host, if and only if the last byte is zero |
| Checksum.OddByteFails | src/micro_stack.c:114-116 | a single byte 1 is a failing input |
| Checksum.ByteOrderIndependence | src/micro_stack.c:107-122 | hosts of opposite byte order compute byte-swapped checksums (section 2(B) of RFC 1071) |
| Checksum.AcceptsAny | src/micro_stack.c:16-19 | which fields the test lets through, for any data and any field: those that complete the sum to a multiple of 65535, and 65535 only for all-zero data |
| Checksum.AcceptsExactly | src/micro_stack.c:16-19 | a stored check c within the data is let through if and only if the other words sum to S > 0, c is not 65535 and S plus 2c is a multiple of 65535 |
| Checksum.ValidAcceptedIffZero | src/micro_stack.c:16-19 | data that is good by RFC 1071 is let through if and only if the field is zero |
| Checksum.StoringMakesValid | src/response_sender.c:81-82 | storing the computed checksum in the zeroed field makes the header good by RFC 1071 |
| Parsers.ParsePacket | src/micro_stack.c:21-103 | code and out-parameters of the full parser, on success and on every failure, as the function that `FullCodes`, `UdpFrame`, `TcpFrame` and `PayloadIsData` tell from the bytes |
| Parsers.FastRefinesFull | src/optimizations.c:27-92 | the full parser succeeds if and only if the fast one does, the version is 4 and the checksum tests pass; both then point to the same IP header and payload |
| Parsers.CodesAgree | src/micro_stack.c:36-47 | apart from version and checksums the parsers return the same code except on a non-IPv4 frame of 14 to 33 bytes |
| Parsers.PayloadEndsAtFrameEnd | src/optimizations.c:82-89 | a non-NULL payload runs from the end of the headers to skb->len; it is NULL exactly when a TCP data offset overruns the frame or 2^31 bytes or more follow |
| Parsers.ComposedFrameParses | src/optimizations.c:40-91 | every frame composed of well-formed headers and data is accepted with exactly that data as payload |
| Parsers.AcceptedFrameIsComposed | src/optimizations.c:40-91 | and only such frames are accepted with a payload |
| Parsers.HeaderAcceptedExactly | src/micro_stack.c:56-63 | the IPv4 headers the full parser lets through, as an equation modulo 65535 |
| Parsers.UdpAcceptedExactly | src/micro_stack.c:79-87 | the UDP check test as an equation modulo 65535 for every length field: the zero field is not tested, and a length below 8 leaves the field out of the sum |
| Parsers.GoodHeaderAcceptedIffZero | src/micro_stack.c:56-63 | a header good under section 3.1 of RFC 791 is let through if and only if its check field is zero, otherwise the result is -EINVAL |
| Frames.FastCodes | src/optimizations.c:27-92 | the fast parser's code for every frame, from its bytes |
| Frames.FullCodes | src/micro_stack.c:21-103 | the full parser's code for every frame, in the order of its tests |
| Frames.UdpFrame | src/micro_stack.c:79-87 | a frame of Ethernet header, IP header and UDP datagram passes the full parser if and only if the IP header passes and the datagram's check is zero or completes the sum of exactly as many datagram bytes as its length field names, fewer than eight included |
| Frames.TcpFrame | src/micro_stack.c:67-77 | a frame of Ethernet header, IP header, TCP header and data passes if and only if the IP header does, and the TCP pointer is where the TCP header starts |
| Frames.PayloadIsSummed | src/micro_stack.c:85-85 | a datagram whose check fits its eight header bytes but not its payload is refused |
| Builder.SkBuff.PutEth | src/response_sender.c:60-68 | the Ethernet header, addresses turned round or zero |
| Builder.SkBuff.PutIp | src/response_sender.c:70-82 | the IP header with the checksum of the bytes in the buffer |
| Builder.SkBuff.PutTcp | src/response_sender.c:84-99 | the TCP header, whose bytes `TransportFieldsReadBack` gives one by one |
| Builder.SkBuff.PutUdp | src/response_sender.c:100-109 | the UDP header |
| Builder.SkBuff.PutPayload | src/response_sender.c:111-112 | the response bytes after the headers |
| Builder.SkBuff.Fill | src/response_sender.c:53-112 | an empty buffer ends up holding exactly the response frame |
| RoundTrip.BuildThenParse | src/response_sender.c:28-112 | the fast parser accepts every built frame and returns exactly the response, for TCP and UDP, with or without an original packet |
| RoundTrip.IpFieldsReadBack | src/response_sender.c:70-82 | every byte of the IP header: version and length, hop limit, fragment flag, total length modulo 65536, source the response address, destination the target or the original's source address |
| RoundTrip.TransportFieldsReadBack | src/response_sender.c:84-109 | from the response port to the target port or the original's source port; sequence number of the configuration; acknowledgement 0 or the original's number plus 1 modulo 2^32; flags, window, zero check and urgent pointer; UDP length; link addresses turned round, or zero without an original packet |
| RoundTrip.BuiltHeaderIsGood | src/response_sender.c:70-82 | every emitted IP header has one's-complement sum 65535 |
| RoundTrip.OwnParserAcceptsIffZeroCheck | src/micro_stack.c:61-63 | the module's full parser takes back a frame it built if and only if the emitted check field is zero, that is, the header words sum to a multiple of 65535; otherwise it returns -EINVAL |
| RoundTrip.SomeFrameIsAccepted | src/micro_stack.c:61-63 | for every sender and response there is a target address whose frame the full parser accepts |
| RoundTrip.SomeGoodFrameIsRejected | src/micro_stack.c:61-63 | and one whose frame it rejects with -EINVAL although the header is good |
| HList.AddHead | src/security.c:59-59 | a new first node, linked both ways, and no other chain touched |
| HList.Write | src/security.c:31-39 | overwriting one node in place |
| HList.Delete | src/security.c:75-75 | unlinking a node anywhere in its chain leaves the others linked both ways, in order |
| ConnectionTable.ConnTable.constructor | src/security.c:10-12 | the empty table |
| ConnectionTable.ConnTable.Find | src/security.c:28-42 | following one chain's pointers finds the node if and only if the 4-tuple is in the map |
| ConnectionTable.ConnTable.Rewrite | src/security.c:31-40 | writing a node in place updates the map at its key and nothing else |
| ConnectionTable.ConnTable.Insert | src/security.c:45-59 | allocation and head insertion add the key to the map |
| ConnectionTable.ConnTable.TrackSegment | src/security.c:18-65 | tracking refines the map step, return code included; a failed allocation changes nothing; for every hash function |
| ConnectionTable.ConnTable.Remove | src/security.c:75-76 | unlinking and freeing removes exactly one node and one key |
| ConnectionTable.ConnTable.ClearAll | src/security.c:67-82 | clear, saving each successor before unlinking its node, terminates with every head NULL, every node freed and the map empty, both counters moved by the table's size |
| ConnectionTable.ConnTable.ResetCounters | src/control_interface.c:71-72 | reset zeroes the counters and leaves the table |
| ConnectionTable.ConnTable.OneChainSuffices | src/security.c:24-42 | a node for a 4-tuple anywhere is in its own bucket, once, exactly when the map has it |
| ConnectionHistory.InTableIffOpened | src/security.c:28-64 | after any run a 4-tuple is in the table if and only if a SYN without ACK for it returned 0 since the last clear |
| ConnectionHistory.TrackCodes | src/security.c:44-64 | after any run tracking returns -ENOMEM exactly for an untracked SYN without memory, -EINVAL exactly for any other untracked segment, and otherwise 0 |
| ConnectionHistory.RecordIsDictated | src/security.c:28-61 | its state, numbers and last-seen time are those of the latest SYN, the latest SYN-ACK since insertion or else the insertion, and the latest segment |
| ConnectionHistory.DictatedRecordIsUnique | src/security.c:28-61 | the history leaves no choice of record |
| ConnectionHistory.CountersConserved | src/security.c:60-80 | active plus dropped is the number of connections opened since the last reset; active is the table's size less its size then |
| ConnectionHistory.ActiveIsSizeIff | src/control_interface.c:66-72 | active is the table's size if and only if the table was empty at the last reset; when it is negative |
| ConnectionHistory.ActiveCanBeNegative | src/control_interface.c:66-82 | open, reset, clear leaves -1 |
| ResponsePool.SkbPool.Init | src/optimizations.c:102-122 | the pool filled in order, or, on a failed allocation at any index, exactly the buffers allocated so far freed, last first |
| ResponsePool.SkbPool.Cleanup | src/optimizations.c:124-139 | frees exactly the buffers still held, once each, and empties every slot |
| ResponsePool.SkbPool.Get | src/optimizations.c:141-161 | one take |
| ResponsePool.RunShape | src/optimizations.c:141-161 | in every run of takes and cleanups the first N-1 takes hand out the original buffers in order and the first cleanup frees the rest |
| ResponsePool.BuffersConserved | src/optimizations.c:124-161 | handed out, freed and held buffers are together exactly the original ones |
| ResponsePool.NextTake | src/optimizations.c:149-160 | what the next take returns after any run |
| Timing.LagBounds | src/nanonet.c:135-137 | n times the average never exceeds the total; it lags by at most n(n-1)/2 while no update wraps and by at least 2^64 once one has |
| Timing.DriftBoundedIffNoWrap | src/nanonet.c:135-137 | the drift bound holds if and only if no update wrapped |
| Timing.SmallTotalNeverWraps | src/nanonet.c:135-137 | a total below 2^64 ns rules wraps out |
| Timing.DriftBoundAttained | src/nanonet.c:135-137 | times falling by 1 ns per packet attain the bound |
| Timing.TimingInvariant | src/nanonet.c:125-137 | minimum and maximum are the exact extremes, the average is at most the maximum, and at least the minimum if and only if the last dividend modulo 2^64 is at least n times it, as it is with no wrap |
| Timing.WrappedAverageCanFallBelowMinimum | src/nanonet.c:135-137 | with a wrap it can be below the minimum |
| Timing.WrapCanLeaveMinimumBelow | src/nanonet.c:135-137 | and need not be |
| Orders.IdFieldReadsText | src/packet_processor.c:61-61 | the id field read as a C string is the cut text, and what the allocation held is still there behind its NUL |
| Orders.DecimalValue | src/packet_processor.c:61-61 | the decimal text of a number has no leading zero and reads back as the number |
| Orders.IdTextIsId | src/packet_processor.c:61-61 | the id is "ORD" and digits whose value is the time, or for 13 digits and more its first twelve digits |
| Orders.SameIdIff | src/packet_processor.c:60-61 | two ids are equal if and only if the first twelve digits of the timestamps form the same number |
| Orders.SameIdAmongSameLength | src/packet_processor.c:60-61 | for d digits each: equal quotients by 10^(d-12) when d > 12, equal timestamps otherwise |
| Orders.ClockIdsCollideWithinTenMilliseconds | src/packet_processor.c:60-61 | for 19-digit nanosecond clocks: the same ten-millisecond slot |
| Orders.ProcessMarketData | src/packet_processor.c:33-70 | return code and order on every path |
| Orders.DecisionOnWire | src/packet_processor.c:33-70 | an order is made exactly for data of 24 bytes or more priced under 10000 with memory for it; its 41 bytes are symbol, price plus one, 100, buy, time and the id for that time; -EINVAL, -ENOMEM and 0 exactly otherwise |
| Orders.DecisionAtTheLimits | src/packet_processor.c:38-49 | 9999 and 10000, 24 bytes and 23 |
| Orders.OrderRoundTrip | src/packet_processor.c:18-25 | the packed order decodes to itself |
| NanoNet.Module.constructor | src/nanonet.c:20-41 | initial configuration and statistics, empty table, filled pool |
| NanoNet.Module.CreateResponse | src/response_sender.c:13-125 | when a buffer comes back, what it holds, the pool afterwards, and when a pooled buffer overruns |
| NanoNet.Module.SendResponse | src/response_sender.c:127-150 | result code, frame, sequence number and pool on every path, and when a pooled buffer overruns |
| NanoNet.Module.ApplicationLogic | src/packet_processor.c:72-101 | result code, frame, sequence number and pool, on every path; no order overruns a pooled buffer |
| NanoNet.Module.CountTime | src/nanonet.c:123-137 | the statistics update, with 64-bit wrap-around |
| NanoNet.Module.ScreenPacket | src/nanonet.c:73-113 | the tests before the connection table, the segment and the payload of a packet that passes; `ThreeWays`, `PacketIsTracked` and `PayloadIsData` tell these from the bytes |
| NanoNet.Module.Admit | src/nanonet.c:73-113 | bypass, error or delivery, the counter and the table call of each |
| NanoNet.Module.HandlePacket | src/nanonet.c:64-144 | the whole new state, the verdict and the frame sent, as the step that the theorems on steps and runs describe |
| NanoNet.Module.ZeroStatistics | src/control_interface.c:66-76 | the statistics after RESET_STATS |
| NanoNet.Module.Ioctl | src/control_interface.c:34-92 | the whole new state and the return code of every command |
| Steps.AppResultNeverPositive | src/packet_processor.c:72-101 | no path through order creation and sending ends in a positive result |
| Runs.PacketsConserved | src/nanonet.c:73-143 | in every run since the last reset: calls = bypassed + processed + errors - application failures, processed = NF_STOLEN verdicts, frames sent + failures at most that, responses_sent = 0, timing as of the processed packets |
| Runs.ResponsesCountedIff | src/nanonet.c:116-121 | in every run responses_sent is the number of frames sent since the reset if and only if that number is 0 |
| Runs.AnsweringRun | src/nanonet.c:115-121 | SET_CONFIG and one packet of attractive market data in a frame taken back: one frame on the wire, no response counted |
| Runs.SomeRunAnswers | src/nanonet.c:115-121 | such a run exists for TCP and for UDP, with a configuration that validates |
| Runs.Drive | src/nanonet.c:64-144 | a freshly loaded module driven through any events ends in the state of their run, having sent its frames |
| Runs.TimingInEveryRun | src/nanonet.c:123-137 | in every reachable state, over the times from start to end of the packets taken since the reset: exact extremes, last, average and drift bound, and the lag once an update wrapped; the initial values when there are none |
| Runs.LastPacketTimed | src/nanonet.c:125-134 | after a packet is taken the last time is its end minus its start, plus 2^64 if the clock was set back |
| Runs.TableFollowsCalls | src/nanonet.c:103-103 | the table after a run is that of the table calls the run made |
| Runs.ConnectionsInEveryRun | src/security.c:18-82 | membership and counter conservation in every run of the module |
| Runs.RecordsInEveryRun | src/security.c:28-61 | every record in every run is the dictated one |
| Runs.PoolFollowsRequests | src/response_sender.c:44-51 | the pool after a run is that of as many takes as responses attempted |
| Runs.PoolRunsDry | src/response_sender.c:44-51 | after N-1 attempts a response goes out only if alloc_skb succeeds |
| Steps.HookSends | src/response_sender.c:141-149 | a packet either sends an order frame and advances the sequence number by its length or leaves the configuration alone |
| Runs.SequenceNumbers | src/response_sender.c:141-149 | since SET_CONFIG the configuration is what landed, its number advanced by the bytes sent; each frame was built from the number at its time |
| Runs.WireSequenceNumbers | src/response_sender.c:93-93 | the number in the i-th TCP response on the wire |
| Runs.ResponsesTileOnWire | src/response_sender.c:93-148 | the TCP responses tile the sequence space without gap or overlap (section 3.4 of RFC 9293) |
| Runs.LiveConfigValidIff | src/control_interface.c:38-50 | after any run the live configuration is valid if and only if what the last SET_CONFIG left in place is, complete copy or not |
| Runs.LiveConfigByReturnCode | src/control_interface.c:38-50 | after a 0 it is valid, after an -EINVAL it is not |
| Runs.CommandCodes | src/control_interface.c:34-92 | exactly when a command returns -EFAULT, -EINVAL, -ENOTTY or 0, the conditions on a configuration spelled out |
| Runs.IdleUntilConfigured | src/nanonet.c:20-76 | until the first SET_CONFIG every packet is bypassed and nothing else changes, in any run |
| Runs.SetConfigAsIntendedIff | src/control_interface.c:39-48 | the command does what validating first would do if and only if what lands is whole and valid or already in force |
| Runs.RefusedConfigStays | src/control_interface.c:39-48 | a refused configuration that is in force |
| Steps.AcceptChangesOneCount | src/nanonet.c:73-113 | an accepted packet changes nothing but one counter |
| Steps.ThreeWays | src/nanonet.c:73-113 | exactly which packets are bypassed, refused and taken, from their bytes, the rate limit and the table |
| Steps.GuardsRefuse | src/security.c:84-96 | a packet over the rate limit, from address 0 or with too small a raw tot_len counts an error and changes nothing else |
| Steps.GroupPackets | src/nanonet.c:92-96 | a UDP packet to the multicast group and the configured port is taken while multicast is on; any packet to a group that is not the target is bypassed while it is off |
| Steps.TakenIsTracked | src/nanonet.c:98-107 | a TCP packet for the endpoint is taken if and only if its connection, by addresses and ports, is tracked or it opens one, by the bits of value 2 and 16 in its flag byte; and then is tracked |
| Segments.EncodedFields | include/nanonet.h:37-46 | a TCP header written from its fields reads back as those ports, numbers, SYN and ACK, whatever its other flags and options |
| Segments.PayloadIsData | src/micro_stack.c:94-100 | what follows the headers of an accepted TCP or UDP frame is what the application logic gets |
| Segments.PacketArrives | src/nanonet.c:80-103 | a frame written from header fields and sent to the endpoint reaches the table with exactly those fields |
| Segments.PacketIsTracked | src/security.c:18-65 | from header fields to the table: the call made, when the packet is taken, and the table and counters afterwards, record by record |
| Segments.BucketOf | src/security.c:24-25 | the bucket is the hash of the addresses as stored and the ports as numbers, modulo 1024 |
| Runs.TcpTakenIffOpened | src/nanonet.c:98-107 | in every run a TCP packet for the endpoint is taken if and only if a SYN for its 4-tuple got through since the last clear or it opens one itself |
| Runs.SynRun | src/security.c:44-61 | SET_CONFIG, then a SYN written from header fields: it is taken, and the table holds one record, with its addresses, ports and sequence number |
| Runs.SomeRunOpens | src/security.c:44-61 | there is such a run for every SYN header, with a good IP header and a configuration that validates |
| Steps.AnsweredIff | src/packet_processor.c:72-101 | exactly when a packet taken is answered, and exactly when it counts as an application failure |
| Steps.ResultCodes | src/packet_processor.c:72-101 | exactly when handling a taken packet returns -EINVAL, -ENOMEM, -EIO or 0, and when the pool is asked for a buffer |
| Steps.SentFrameCarriesOrder | src/packet_processor.c:49-66 | a frame sent, read with the fast parser, carries from the response address and port to the target address and port the order that the packet's data calls for, byte by byte |
| Steps.GoodHeaderRefused | src/nanonet.c:80-85 | an enabled hook refuses every packet with a good RFC 791 header and a non-zero check field |
| Steps.StolenHeaders | src/nanonet.c:80-143 | the header equation of every packet taken |
| Steps.OwnFrameTakenIff | src/response_sender.c:70-82 | a UDP frame one module builds is taken by another listening at its target if and only if the header words sum to a multiple of 65535 |
| Steps.OwnFrameAnswered | src/packet_processor.c:72-101 | and is answered when it carries attractive market data and every service succeeds |
| Steps.SomeGoodPacketRefused | src/nanonet.c:80-85 | a packet with a good header that a listening hook refuses |
| Steps.LengthGuard | src/security.c:90-93 | exactly which total lengths the guard rejects, and when that is what it means to reject |
| Steps.LengthGuardFails | src/security.c:90-93 | length 256 is refused, length 1 is not |

## Left out

- The kernel itself: allocation, transmit, rate limiting, clocks and user copies are inputs; what dev_queue_xmit does with a buffer, and the release after a failed transmit (src/response_sender.c:143), are not modelled.
- Interleaving: the statistics take no lock, so hook calls running at once, or against RESET_STATS, are not modelled.
- Module loading and unloading, procfs, debugfs, trace events and log texts.
- Paged socket buffers: skb->data is taken to reach at least skb->len bytes.
- Parsers.ParsePacket: that the bytes its checksums read are in memory is a precondition, because the code does not compare those lengths with skb->len.
- NanoNet.Module.HandlePacket: event counters are unbounded integers, because 2^63 events are out of reach; the 64-bit arithmetic of the average is modelled.
- NanoNet.Module.CreateResponse: what the machine does after the panic of an overrun pooled buffer is not modelled.
- ResponsePool.SkbPool.Init: what the slots hold after a failure is not stated, because the module does not load then.
- packet_ring, per_cpu_stats and nanonet_conn_hash, which are never used, and nanonet_set_cpu_affinity.
- The user-space tools, scripts, tests and documentation.
