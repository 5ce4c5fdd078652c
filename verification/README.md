# dirtyNet verification model

A Dafny model of the parts of dirtyNet that have real behaviour to get wrong, with proofs about it.
`dafny verify dfyconfig.toml` checks the whole project.

1. **The TCP framing codec, its incremental decoder and the session over it**
   (`sandbox/tcp-packet/posix`). A packet is a big-endian type word and, for a greeting, a big-endian
   length word and a payload. `get_packets` appends what one read returned to a persistent buffer and
   takes complete packets off its front. Two programs talk in lockstep: one sends a batch, the other
   accumulates packets until it has as many as it expects.
2. **Exclusive ownership of descriptors**: `udp_socket` and the archived `SocketFD`, over a kernel that
   may hand out any closed number again.
3. **`string_split`**, a cursor loop whose inverse is joining.

## How the model is built

| file | module | what it models |
|---|---|---|
| Bytes.dfy | Bytes | `htonl`, `ntohl` and `memcpy` of 32-bit words, on hosts of either byte order |
| Packet.dfy | Packets | the packet, its constructors, `packet::encode`, `parse_packet` |
| Stream.dfy | Streams | `DecodeAll`, one recursive decode of a whole stream: the reference for the decoder |
| Decoder.dfy | Decoders | `get_packets`: the function `Receive` and the class `Reader` that updates its buffer in place |
| Chunking.dfy | Chunking | runs of `get_packets` over a stream cut into arbitrary reads |
| Wait.dfy | Waits | the accumulate-until-k loops of the mains: the method `WaitFor` and the function `Await` |
| Session.dfy | Sessions | two processes, two FIFO byte channels, every interleaving and every size of read |
| SessionWait.dfy | SessionWait | every wait of a session's processes is a wait of `WaitFor` |
| SessionCuts.dfy | SessionCuts | exactly which schedules are runs: every order of writes and every size of read |
| SessionSafety.dfy, SessionLiveness.dfy, SessionConverse.dfy | | the session theorems |
| Mains.dfy | Mains | the script of the two `main` functions, and the payloads they build in loops |
| MainsWaits.dfy | MainsWaits | the seven waits of the two `main` functions, one by one |
| Descriptors.dfy, DescriptorRuns.dfy | | kernel table, objects' `_fd` fields, the abstract owner map, and every sequence of operations |
| DescriptorChoices.dfy | DescriptorChoices | exactly which programs run, and with which numbers picked by the kernel |
| DescriptorWraps.dfy | DescriptorWraps | SocketFD around descriptors opened elsewhere |
| Sockets.dfy | Sockets | the classes `UdpSocket` and `SocketFD`, fields updated in place, aliasing included |
| Split.dfy | Splitting | `string_split` |
| Lists.dfy | Lists | concatenation of lists of lists |

The imperative members (`EncodeBuffer`, `ParseBuffer`, `Reader.GetPackets`, `WaitFor`, the `Build...Payload` loops, the
methods of the socket classes, `StringSplit`) follow the loops and assignments of the C++ code. Each is
proved equal to a specification function, and the theorems are about those functions.

Three things of the code are modelled as they are, not as they were meant:

- `totalLen` is a `uint32_t` sum. A declared length above 2^32 - 9 wraps, after which the program would
  build the payload string from bytes beyond the buffer. `Parse` wraps as the code does and marks those
  inputs `PastEnd`; the decoder marks them `Undefined` and nothing is claimed of the program from there
  on. No stream is excluded by a precondition. `MessageRoundTripExactly` and `Canonical` say exactly for
  which lengths the codec is right, and `ShortestLostMessage` gives the shortest message it loses.
- `udp_socket` has no self-assignment check, `SocketFD` has one. `WhereClassesDiffer` and
  `SameOwnersExactly` say exactly when that makes a difference in who owns what.
- The server looks at the status of a wait's first read only in its first wait (`server/main.cc` lines
  189-190, 251-252, 331-332), and checks for extra packets; the client always looks at the status and never
  checks for extra packets. `Expect` carries both switches, `FirstReadIsRead` and
  `FirstProtocolError` say exactly what the missing check changes, and the session theorems hold with the switches set either way.

The repository's `last-steps.md` asks for a clean exit when the peer disconnects during a wait. The mains do not
do that: they return -1, and the model follows them. `DisconnectExactly` says for which disconnects this
happens, exactly when the peer had sent fewer whole packets than the wait is for; `ServerLeaves` and
`ClientLeaves` are two of them.

Assumptions about the environment: `write` sends all its bytes; a channel delivers bytes in order without
loss (the byte-stream service of section 3.8 of RFC 9293); `read` returns between one byte and the size of
its buffer, or zero when the peer's socket is closed and nothing is left on the way.
`RunsExactly` says that for the sessions these are all the restrictions there are.

## Model

| member | source | states |
|---|---|---|
| Bytes.ReadBack | sandbox/tcp-packet/posix/shared/shared.cc:55-63 | a word written in network order at any offset of any buffer is read back from there |
| Bytes.WriteBack | sandbox/tcp-packet/posix/shared/shared.cc:82-85 | any four bytes read as a word are restored by writing that word |
| Bytes.StoreIsBigEndian | sandbox/tcp-packet/posix/shared/shared.cc:56-57 | memcpy of htonl(w) leaves the same four bytes on little- and big-endian hosts |
| Bytes.LoadIsBigEndian | sandbox/tcp-packet/posix/shared/shared.cc:110-113 | ntohl of the word memcpy loads, from any offset, is the network-order word on either host |
| Bytes.DigitOfWord | sandbox/tcp-packet/posix/shared/shared.cc:55-63 | byte i of the network image is the digit of 256^(3 - i), and on a little-endian host's memory that of 256^i |
| Bytes.WordOfDigits | sandbox/tcp-packet/posix/shared/shared.cc:109-113 | four bytes of a buffer are read as a word with the first byte counting 256^3 and the last 1 |
| Bytes.FirstDifferenceDecides | sandbox/tcp-packet/posix/shared/shared.cc:109-113 | words compare as their images do at the first byte in which they differ |
| Packets.CreatedPackets | sandbox/tcp-packet/posix/shared/shared.cc:31-45 | the create functions field by field: type, length, payload and validity |
| Packets.WireBytes | sandbox/tcp-packet/posix/shared/shared.cc:47-66 | every byte of an encoding: three zeroes and the type, the payload's length digit by digit in base 256, the payload |
| Packets.EncodeBuffer | sandbox/tcp-packet/posix/shared/shared.cc:47-66 | filling the local buffer by resize and memcpy yields the wire form, for every packet whose payload copy stays in the buffer |
| Packets.Parse | sandbox/tcp-packet/posix/shared/shared.cc:70-128 | a complete verdict consumes no more than the buffer and, for a length that fits, at least a header and yields a well-formed packet; reading past the end happens only for a length that does not fit |
| Packets.ParseBuffer | sandbox/tcp-packet/posix/shared/shared.cc:70-128 | the parser step by step, with memcpy and ntohl on a host of either byte order, gives the same verdict on every buffer |
| Packets.ParseEncode | sandbox/tcp-packet/posix/shared/shared.cc:70-128 | decoding inverts encoding for every well-formed packet, whatever bytes follow |
| Packets.MessageRoundTripExactly | sandbox/tcp-packet/posix/shared/shared.cc:109-126 | a message survives encoding and parsing if and only if it is at most 2^32 - 9 bytes long |
| Packets.ShortestLostMessage | sandbox/tcp-packet/posix/shared/shared.cc:114 | one byte more, and the total wraps to zero: the parse reports having consumed nothing |
| Packets.NotCarried | sandbox/tcp-packet/posix/shared/shared.cc:31-53 | a greeting without payload encodes to nothing, and a packet of type invalid to a header the parser refuses |
| Packets.Canonical | sandbox/tcp-packet/posix/shared/shared.cc:109-126 | encoding the parsed packet gives back the consumed bytes if and only if the declared length fits |
| Packets.ParseMeaning | sandbox/tcp-packet/posix/shared/shared.cc:70-128 | the staged parser without its stages: it completes with p iff p's encoding starts the buffer, refuses iff the type is unknown, and waits iff neither |
| Packets.VerdictStable | sandbox/tcp-packet/posix/shared/shared.cc:70-128 | more input never changes a complete or invalid verdict |
| Packets.PrefixFree | sandbox/tcp-packet/posix/shared/shared.cc:70-128 | no well-formed packet's encoding starts another's |
| Packets.ProperPrefixIsIncomplete | sandbox/tcp-packet/posix/shared/shared.cc:74-123 | every proper prefix of an encoding is reported incomplete |
| Packets.LeastCompletion | sandbox/tcp-packet/posix/shared/shared.cc:100-123 | an incomplete buffer of four bytes or more can be completed, and the length computed from header and known length bytes is the least that completes it |
| Packets.ShortBufferCompletes | sandbox/tcp-packet/posix/shared/shared.cc:74-80 | below four bytes the parser always waits, and the wait can end in a packet iff all bytes seen are zero |
| Streams.Conservation | sandbox/tcp-packet/posix/server/main.cc:45-75 | the decoded packets encoded again, followed by the remainder, are the stream, and decoding stops only where the parser must |
| Streams.OnlyDecoding | sandbox/tcp-packet/posix/server/main.cc:47-75 | that split of a stream into packets and remainder is unique |
| Streams.WireInjective | sandbox/tcp-packet/posix/shared/shared.cc:70-128 | concatenated encodings are uniquely decodable |
| Streams.DecodeInTwo | sandbox/tcp-packet/posix/client/main.cc:43-71 | decoding a part, and then its remainder with the rest of the stream, is decoding the whole; a header that stops it stops it for good |
| Streams.FitIsLongest | sandbox/tcp-packet/posix/client/main.cc:45-69 | Fit counts the longest prefix of a packet list whose encodings total at most n bytes |
| Streams.DecodePrefix | sandbox/tcp-packet/posix/client/main.cc:43-71 | after the first n bytes of a packet list's encoding, exactly that prefix is decoded and the beginning of the next packet is left |
| Streams.DecodeFirst | sandbox/tcp-packet/posix/client/main.cc:43-71 | the same for any stream, with the number of header bytes after which a bad header is noticed |
| Decoders.Reader.constructor | sandbox/tcp-packet/posix/client/main.cc:100-102 | a connection starts with no unprocessed bytes |
| Decoders.Reader.GetPackets | sandbox/tcp-packet/posix/client/main.cc:27-72 | the append, parse and erase loop: socket error iff the read failed and closed iff it reached the end of the stream, the buffer untouched; after data, ok iff the buffer left over waits for more and protocol error iff it starts with an unknown type; packets and buffer left over are, encoded, the old buffer and the chunk; and all of it as one decode determines |
| Decoders.ReceiveMeans | sandbox/tcp-packet/posix/client/main.cc:34-41 | the same of the function that the runs and sessions are made of, for every buffer and every result of a read |
| Decoders.CallsSettle | sandbox/tcp-packet/posix/server/main.cc:47-75 | after every defined call no complete packet is held back at the front of the buffer |
| Decoders.FirstPacketTakesLeftover | sandbox/tcp-packet/posix/server/main.cc:45-74 | the first packet of a call uses up all bytes left over from earlier calls |
| Decoders.ReceivePart | sandbox/tcp-packet/posix/client/main.cc:43-71 | a call reading the next part of a packet stream succeeds, returns the packets that became complete and leaves the beginning of the next |
| Decoders.BurstBound | sandbox/tcp-packet/posix/server/main.cc:45-75 | a call that reads n bytes returns at most 1 + (n - 1) / 4 packets |
| Decoders.BurstBoundIsTight | sandbox/tcp-packet/posix/server/main.cc:45-75 | the bound is met for every number of packets |
| Chunking.EveryCall | sandbox/tcp-packet/posix/server/main.cc:28-78 | status, packets and buffer of every call of every run, told from one decode of the whole stream |
| Chunking.ChunkingInvariance | sandbox/tcp-packet/posix/server/main.cc:45-77 | any two ways of cutting the same bytes leave the same buffer and, without a bad header, deliver the same packets, those of one decode |
| Chunking.StreamRoundTrip | sandbox/tcp-packet/posix/client/main.cc:43-71 | a packet list encoded, concatenated and cut anyhow is delivered as that list with nothing left over |
| Chunking.DeliveredPrefix | sandbox/tcp-packet/posix/client/main.cc:43-71 | while calls succeed, the packets delivered are the longest prefix that fits the bytes read |
| Chunking.RunConserves | sandbox/tcp-packet/posix/server/main.cc:45-75 | packets delivered, encoded again, followed by the buffer, are all bytes read, after every call |
| Chunking.ErrorRun | sandbox/tcp-packet/posix/client/main.cc:56-59 | calls succeed iff they end before the fourth byte of an unknown type; from then on every call is a protocol error without packets, the bad header at the front |
| Chunking.ErrorRunDelivers | sandbox/tcp-packet/posix/client/main.cc:56-59 | such a run delivers exactly the packets completed before the failing call; those decoded in it are lost |
| Chunking.DeliveryTime | sandbox/tcp-packet/posix/client/main.cc:67-71 | a packet comes out of exactly the call in which the bytes read reach the end of its encoding, hence not before that many bytes divided by the buffer size |
| Waits.WaitFor | sandbox/tcp-packet/posix/client/main.cc:115-148 | the loop of main, with its checks before, in and after it, computes Await for every sequence of read results, and leaves the reader usable |
| Waits.WaitBound | sandbox/tcp-packet/posix/client/main.cc:125-134 | a wait for k packets ends with at least k, exactly k where extra packets are refused, and at most k + (B - 1) / 4, for a read buffer of B bytes |
| Waits.WaitExact | sandbox/tcp-packet/posix/server/main.cc:189-211 | a wait for exactly what the peer sends holds it, with nothing left over, however the bytes are cut |
| Waits.WaitEnds | sandbox/tcp-packet/posix/server/main.cc:189-201 | every wait, with any leftover and any reads, data, end of file or errors, ends at exactly the first read that main gives up on or that completes its count, holding exactly what its calls returned; without one it blocks |
| Waits.OverChunks | sandbox/tcp-packet/posix/client/main.cc:158-174 | over reads of data these calls are the calls of a run over the stream, from any call on |
| Waits.DisconnectExactly | sandbox/tcp-packet/posix/client/main.cc:125-133 | when the peer leaves during a wait, main returns -1 for it if and only if fewer whole packets than waited for had been sent, leftover included, however the bytes were cut; and exactly when a bad header comes first |
| Waits.FirstReadIsRead | sandbox/tcp-packet/posix/server/main.cc:189-199 | the read before the loop acts like a read of the loop if and only if its status is looked at, or is ok or undefined |
| Waits.FirstProtocolError | sandbox/tcp-packet/posix/server/main.cc:331-341 | a protocol error in the first read fails the wait at once if looked at; otherwise the wait blocks if no further read returns and fails at the next one that does, with that read's status |
| Waits.WaitComesOut | sandbox/tcp-packet/posix/client/main.cc:115-134 | every wait for one packet or more makes the reads up to its first call that brings the count or fails, a first status unlooked at excepted; it fails with a status, or blocks, exactly by that call, and holds what its calls returned |
| Waits.MakesOnce | sandbox/tcp-packet/posix/client/main.cc:125-134 | that number of reads is determined by the calls |
| Waits.FirstDecides | sandbox/tcp-packet/posix/server/main.cc:207-211 | where more packets than wanted are accepted, the first one alone decides a check of kind or text |
| MainsWaits.ServerPing | sandbox/tcp-packet/posix/server/main.cc:138-171 | the server's first wait, for any leftover and reads: held iff exactly one packet came and it is a ping; too many iff more than one; wrong iff one of another kind; a failed read, the first included, ends it with that status |
| MainsWaits.ClientPong | sandbox/tcp-packet/posix/client/main.cc:115-148 | the client's first wait: held iff at least one packet came and all are pongs, wrong iff one is not, never too many |
| MainsWaits.ServerGreeting | sandbox/tcp-packet/posix/server/main.cc:189-211 | the server's waits for the two greetings: held iff exactly one packet came and it is a greeting; the first read may fail without ending the wait |
| MainsWaits.ClientThree | sandbox/tcp-packet/posix/client/main.cc:158-174 | the client's waits for three: held iff at least three packets came, whatever they are, never too many or wrong |
| MainsWaits.ServerQuit | sandbox/tcp-packet/posix/server/main.cc:331-357 | the server's last wait: held iff exactly one packet came, a greeting with the four bytes of QUIT |
| SessionWait.ChannelKeepsBytes | sandbox/tcp-packet/posix/server/main.cc:33-45 | in every run of every script, what a side has read in all its waits and what is on its way to it are, in order, the encodings of what its peer has written |
| SessionWait.EmptyWriteEnds | sandbox/tcp-packet/posix/server/main.cc:221-227 | a write ends a main iff it carries nothing and the program looks at its result; any other puts its bytes behind those on the way |
| SessionWait.EveryWaitIsAwait | sandbox/tcp-packet/posix/client/main.cc:115-134 | in every run of every script, under every interleaving, each wait of either side, finished, current or failed, is what the loop of main computes from the reads made in it |
| SessionSafety.StepKeeps | sandbox/tcp-packet/posix/client/main.cc:104-251 | every move of either process in a matched phase keeps the lockstep invariant |
| SessionSafety.ReachableInStep | sandbox/tcp-packet/posix/client/main.cc:104-251 | every reachable state of a well-matched script is in lockstep |
| SessionLiveness.NeverFails | sandbox/tcp-packet/posix/server/main.cc:138-361 | under every interleaving and chunking no error exit is taken, each finished wait holds exactly the peer's batch, and the buffer is empty between waits |
| SessionLiveness.EveryMoveSpends | sandbox/tcp-packet/posix/server/main.cc:148-157 | every move of every script, matched or not, spends potential |
| SessionLiveness.RunsAreFinite | sandbox/tcp-packet/posix/server/main.cc:138-361 | no run is longer than writes, bytes and two steps per wait together |
| SessionLiveness.SomeMoveIsEnabled | sandbox/tcp-packet/posix/server/main.cc:333-342 | no state short of the end is stuck |
| SessionLiveness.AlwaysEnds | sandbox/tcp-packet/posix/client/main.cc:125-134 | runs are bounded, and a run cannot go on iff both sides have exited normally holding every batch, with empty buffers and channels |
| SessionLiveness.Completes | sandbox/tcp-packet/posix/client/main.cc:165-174 | every reachable state can be continued to completion |
| SessionLiveness.StuckExactly | sandbox/tcp-packet/posix/server/main.cc:148-157 | for every script, matched or not, a reachable state is stuck if and only if both sides have finished or both wait for bytes with nothing on the way: no process hangs once its peer has gone |
| SessionCuts.RunsExactly | sandbox/tcp-packet/posix/server/main.cc:28-45 | a schedule is a run of a matched script if and only if, phase by phase, it is some order of the sender's writes and of reads of at least one byte, at most 256 by the server and 128 by the client, that take only bytes written before |
| SessionCuts.CompletedRunsExactly | sandbox/tcp-packet/posix/server/main.cc:138-361 | a schedule is a run to the end if and only if it carries out such an order for every phase, and then each wait has made exactly the reads ordered |
| SessionCuts.EveryCutting | sandbox/tcp-packet/posix/client/main.cc:98-101 | whatever way the bytes of all batches are cut into reads of those sizes, some run makes just these reads, wait by wait, and completes |
| SessionConverse.CompletesExactly | sandbox/tcp-packet/posix/server/main.cc:148-171 | all runs of a script complete if and only if every receiver waits for exactly the number sent and accepts what is sent |
| SessionConverse.MismatchShows | sandbox/tcp-packet/posix/server/main.cc:158-171 | a script with an unmatched phase has a run that stops without completing |
| Mains.BuildBigPayload | sandbox/tcp-packet/posix/client/main.cc:193-201 | the nested loops build 528 characters, the k-th being '0' + k / 16 |
| Mains.BuildHundredPayload | sandbox/tcp-packet/posix/server/main.cc:284-290 | the loop builds the fifty characters from '0' on, twice |
| Mains.BuildFiftyPayload | sandbox/tcp-packet/posix/server/main.cc:297-302 | the loop only ever writes the first of fifty characters and leaves 'a' in it, zeroes behind |
| Mains.BuildHundredFiftyPayload | sandbox/tcp-packet/posix/server/main.cc:309-316 | an 'a', 49 zeroes, and twice the fifty characters from '0' on |
| Mains.Texts | sandbox/tcp-packet/posix/client/main.cc:149 | the bytes of the texts the programs send and compare |
| Mains.MainsWrites | sandbox/tcp-packet/posix/server/main.cc:214-324 | batches are written packet by packet, but for the server's last one, which is one write; empty writes are looked for in the server's last two batches |
| Mains.MainsMatch | sandbox/tcp-packet/posix/client/main.cc:104-251 | the two mains fit each other: what each phase sends is what its receiver waits for and accepts |
| Mains.MainsSession | sandbox/tcp-packet/posix/server/main.cc:138-361 | under every schedule, of at most 957 moves, the two mains take no error exit, and stop only with every batch received, the server's last one being QUIT |
| Mains.BigPayloadArrives | sandbox/tcp-packet/posix/server/main.cc:250-262 | the 528-byte payload arrives byte for byte, not before the third read |
| Mains.ServerLeaves | sandbox/tcp-packet/posix/client/main.cc:165-174 | a server that closes after one packet and a half of three makes the client's main return -1 |
| Mains.ClientLeaves | sandbox/tcp-packet/posix/server/main.cc:189-201 | a client that closes after its ping makes the server's main return -1, in the wait whose first status goes unchecked |
| Descriptors.StepRefines | lib/dirtynet/detail/posix/udp_socket.hh:72-97 | each operation of either class refines its meaning on the abstract owner map, whatever number the kernel reuses |
| Descriptors.UdpCloseReleases | lib/dirtynet/detail/posix/udp_socket.hh:81-84 | the guarded close gives up exactly the socket the object holds |
| Descriptors.LegacyResetReleases | archive/legacy-dirtynet/core/socketfd.hh:26-31 | reset does the same: testing for -1 and testing for a sign agree on every reachable state |
| Descriptors.TransferMoves | lib/dirtynet/detail/posix/udp_socket.hh:72-76 | the two assignments of a move hand the socket over |
| DescriptorRuns.StepDoes | lib/dirtynet/detail/posix/udp_socket.hh:72-97 | what each operation of either class does to the objects' descriptors, the kernel's table and the list of closed sockets, without the owner map |
| DescriptorRuns.RunRefines | lib/dirtynet/detail/posix/udp_socket.hh:44-97 | after any operations, live objects hold the sockets the owner map says, not merely some open number |
| DescriptorChoices.ChoicesExactly | lib/dirtynet/detail/posix/udp_socket.hh:44-97 | a sequence of operations with the numbers picked is a run if and only if each operation works on live objects of its class, self-assignment allowed, and each number picked is non-negative and all sockets that had it are closed; so every reuse occurs |
| DescriptorChoices.ProgramsExactly | archive/legacy-dirtynet/core/socketfd.hh:9-32 | the owner map is defined for exactly these sequences, whatever the numbers |
| DescriptorRuns.ExclusiveOwnership | lib/dirtynet/detail/posix/udp_socket.hh:44-97 | held descriptors are distinct and exactly the open ones, no close misses, sockets created are those closed once plus those held, and none stays open without objects |
| DescriptorRuns.SameOwners | archive/legacy-dirtynet/core/socketfd.hh:9-32 | up to the first self-assignment of an object holding a descriptor, both classes give every object the same socket and close the same sockets in the same order, under different number choices |
| DescriptorRuns.SameOwnersExactly | archive/legacy-dirtynet/core/socketfd.hh:9-32 | runs of the two classes agree after every step if and only if no step is such a self-assignment |
| DescriptorRuns.WhereClassesDiffer | lib/dirtynet/detail/posix/udp_socket.hh:78-88 | one operation of each class's code, from worlds that agree on who holds what, leaves worlds that agree if and only if it is not the self-assignment of an object holding a descriptor |
| DescriptorRuns.OpenOwns | lib/dirtynet/detail/posix/udp_socket.hh:44-53 | at any point of a program, open leaves one new object with one new socket, its temporary closing nothing |
| DescriptorRuns.FailedBindCloses | lib/dirtynet/detail/posix/udp_socket.hh:62-68 | at any point of a program, a bind that fails closes the socket it created and leaves no object |
| DescriptorWraps.WrapExactly | archive/legacy-dirtynet/core/socketfd.hh:11 | giving SocketFD a descriptor keeps ownership exclusive iff it is -1, or open and not owned |
| DescriptorWraps.WrapForeign | archive/legacy-dirtynet/core/socketfd.hh:11-12 | otherwise its destructor closes a number that is not open, or another object's socket |
| DescriptorWraps.AnyNumberNext | archive/legacy-dirtynet/core/socketfd.hh:11 | after any run any number can be wrapped by a new object, and any free number opened without owner |
| DescriptorWraps.WrapsExactly | archive/legacy-dirtynet/core/socketfd.hh:9-32 | over whole programs that open sockets and wrap any numbers later, objects hold open descriptors once each and no close misses, at every point, if and only if every wrapped number is -1 or open and unowned at the time |
| Sockets.UdpSocket.MoveFrom | lib/dirtynet/detail/posix/udp_socket.hh:72-76 | the new object takes the descriptor and the source is marked empty |
| Sockets.UdpSocket.MoveAssign | lib/dirtynet/detail/posix/udp_socket.hh:78-88 | one close of what was held, then the transfer, also when the object is assigned to itself |
| Sockets.UdpSocket.Destroy | lib/dirtynet/detail/posix/udp_socket.hh:90-97 | the destructor closes what is held |
| Sockets.UdpSocket.Open | lib/dirtynet/detail/posix/udp_socket.hh:44-53 | error or a new object around the new descriptor, the kernel otherwise unchanged |
| Sockets.UdpSocket.Bind | lib/dirtynet/detail/posix/udp_socket.hh:55-70 | the three outcomes of bind and what each leaves open |
| Sockets.SocketFD.MoveAssign | archive/legacy-dirtynet/core/socketfd.hh:17-24 | unchanged on itself; otherwise one close of what was held, then the transfer |
| Sockets.SocketFD.Reset | archive/legacy-dirtynet/core/socketfd.hh:26-31 | closes what is held and marks the object empty |
| Sockets.UdpProgram.MoveAssign | lib/dirtynet/detail/posix/udp_socket.hh:78-88 | assignment between objects in the heap, aliased or not, is the model's step on all objects together |
| Sockets.UdpProgram.Create | lib/dirtynet/detail/posix/udp_socket.hh:44-53 | so is open |
| Sockets.UdpProgram.MoveConstruct | lib/dirtynet/detail/posix/udp_socket.hh:72-76 | so is move construction |
| Sockets.UdpProgram.Destroy | lib/dirtynet/detail/posix/udp_socket.hh:90-97 | so is the end of an object |
| Sockets.LegacyProgram.MoveAssign | archive/legacy-dirtynet/core/socketfd.hh:17-24 | the same for SocketFD objects |
| Sockets.LegacyProgram.Reset | archive/legacy-dirtynet/core/socketfd.hh:26-31 | reset of an object in the heap is the model's step |
| Sockets.RunUdpProgram | lib/dirtynet/detail/posix/udp_socket.hh:44-97 | a whole program over udp_socket objects in the heap is a run of the model: its objects hold exactly the open descriptors, and no close has missed |
| Sockets.RunLegacyProgram | archive/legacy-dirtynet/core/socketfd.hh:9-32 | the same for SocketFD objects |
| Splitting.FindFirstOf | archive/legacy-dirtynet/core/util.cc:11-20 | the search returns the first delimiter at or after the cursor, or npos iff there is none |
| Splitting.StringSplit | archive/legacy-dirtynet/core/util.cc:5-25 | the cursor loop ends and returns the pieces between delimiters |
| Splitting.JoinOfSplit | archive/legacy-dirtynet/core/util.cc:5-25 | joining the pieces restores the string, no piece contains the delimiter, and there is one piece more than delimiters |
| Splitting.SplitOfJoin | archive/legacy-dirtynet/core/util.cc:5-25 | splitting what was joined from any non-empty list of delimiter-free pieces returns that list |

## Left out

- Reader: the local array that `read` fills is not modelled; a read is the chunk it delivered.
- Reader.GetPackets: the null check on the optional packet (client/main.cc lines 62-65) has no branch, because a complete verdict carries its packet.
- EncodeBuffer: requires the payload to fit the buffer sized from `datalen`; a hand-made packet with a longer payload would be copied past the buffer's end, and nothing is claimed of it.
- CompletesExactly: is about scripts in which every phase makes writes that carry frames and every wait waits for at least one packet.
- Real sockets, `connect`, `accept`, `listen`, `setsockopt`, `errno`, sleeps and logging; the client's checks of its second wait only log and do not appear.
- Short writes and socket buffer capacity: the mains do not loop on `write`; writes are assumed whole.
- Read errors during a session: `Reader` and `WaitFor` handle a negative result of `read`, the session's channels do not produce one.
- `send_to`, `receive`, `get_port`, `kill` and the datagram buffer of `udp_socket`: single library calls and field copies.
- Copies of `SocketFD` and `udp_socket`: deleted by the classes.
- Failed calls of `close`: the model's `close` frees the number, as the callers assume.
- The views `string_split` returns point into its argument; the pieces here are strings of their own.
- IP address, endpoint and port wrappers, `VectorView`, `find_end_char`, `to_int`: single library calls or one bounds check each.
- tcp-ping, udp-ping, udp-many, the runners, benchmarks and notes: I/O plumbing, process management or design intentions without code.
