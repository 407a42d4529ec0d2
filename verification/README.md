# StegoTorus: the chop block protocol and its supporting machines

StegoTorus carries one byte stream each way (a *circuit*) over many short-lived,
unreliable carrier connections. Its `chop` protocol cuts the upstream bytes into
numbered blocks, keeps each block until an acknowledgment reports it, puts blocks
back in order on the other side and hands the bytes upstream. This project models
that protocol, proves what every run of it keeps, and shows where a stronger
property fails. It also proves the resumable machines around it correct.

## How it is built

| file | what it models |
|---|---|
| `Words.dfy` | bytes, 32-bit wrap-around, bits, network byte order |
| `AckPayload.dfy` | the acknowledgment payload and its wire form |
| `Framing.dfy` | block headers, block encoding, the receive loop that cuts a stream into blocks |
| `TransmitQueue.dfy`, `ReassemblyQueue.dfy` | the two 256-slot rings, each refining a map from sequence numbers to blocks |
| `Circuit.dfy`, `CircuitObject.dfy` | one end of a circuit: first as functions on values, then as an object whose methods carry them out on the rings |
| `Draining.dfy` | what draining the reassembly queue amounts to, from any peer |
| `Protocol.dfy` | two ends, every interleaving of sending, retransmitting, losing, duplicating, reordering, draining and acknowledging; invariants and delivery theorems |
| `Progress.dfy` | what can still happen from a reachable state: when another block can be queued, and when everything sent so far can be delivered |
| `Execution.dfy` | two circuit objects, whose methods are steps of the protocol |
| `Carriage.dfy` | framing and protocol together: what one connection carries is what arrives |
| `Hazards.dfy` | runs to states in which stronger claims fail |
| `Hkdf.dfy` | the expansion step of HKDF (section 2.3 of RFC 5869) |
| `Base64.dfy`, `Base64Text.dfy` | the resumable coder, and what it writes (sections 4 and 5 of RFC 4648) |
| `Cookies.dfy` | the cookie wrapper around it |
| `ChunkedBody.dfy`, `ChunkedText.dfy` | the chunked-body states of the HTTP parser, and the texts they accept (section 3.6.1 of RFC 2616) |
| `Socks.dfy`, `SocksOutcome.dfy` | the SOCKS 4, 4a and 5 reader (sections 3, 4 and 5 of RFC 1928), and what it waits for |
| `LruCache.dfy` | the payload cache |
| `UrlGlob.dfy`, `UrlText.dfy` | the URL globber's odometer, and the text of the URLs |

An endpoint's last six fields are history: what was sent under each number,
everything a connection accepted, the queue each acknowledgment was generated
from, the bytes upstream supplied, the bytes the send path took, and whether a
connection ever refused a FIN. No operation reads them. A loss is a block that is
never delivered; a duplicate is one delivered again; any block ever put on a
connection may arrive at any later moment.

The delivery theorems speak about a `Moment`: any position of any run, with either
end as the sender `p` and the other as the receiver `q`.

## Where the code and its documentation differ

The model follows the code.

- Header decoding joins its three tests with "or", and one of them reads a member
  that has not been set yet (`src/protocol/chop_blk.cc:118-126`), where the comment
  asks for window and check field together (`src/protocol/chop_blk.h:29-34`). What
  the unset member holds is a parameter. `AcceptsAsDocumentedIff` says exactly when
  code and comment agree; `CorruptCheckAccepted` gives a header on which they do not.
- Acknowledgments subtract slot indices without reducing the difference modulo 256
  (`src/protocol/chop_blk.cc:457`), and report number 0 as processed when nothing was
  (`src/protocol/chop_blk.cc:452`). `AckTellsIff` gives the exact condition under
  which an acknowledgment is truthful, `ReducedAckTellsIff` the one that reducing
  would leave. `AbortReachable` is a run that ends in the abort, and `BlockZeroLostIff`
  says exactly when an early acknowledgment makes the sender drop a block 0 that was
  not received. No other block can be lost that way.
- A block refused by its connection stays queued, but a FIN is then not noted as
  sent (`src/protocol/chop.cc:1356-1389`). If `circuit_send` made the call, the whole
  circuit closes (`src/connections.cc:349-354`). If a connection that must send did
  (`src/protocol/chop.cc:2310-2313`), or the draining of a received block, only that
  connection goes, the circuit lives on, and a second FIN follows: `SecondFinIff`,
  `ErrorIff`, `RefusedFinFails`.
- An acknowledgment needs a place in the transmit window
  (`src/protocol/chop.cc:1094-1097`, `src/protocol/chop.cc:1577-1584`). With both
  windows full, and no acknowledgment queued that would move one of them, neither end
  can ever queue another block, though both go on retransmitting: `DeadlockReachable`,
  `DeadlockForever`. `DeadlockIff` says that in every other state some continuation
  queues one. A window that fills while `chop_circuit_t::send` still has bytes to send
  closes the circuit instead (`src/protocol/chop.cc:929-930`); the run of
  `DeadlockReachable` sends each byte as it comes, so its windows fill exactly.
- The padding of a special or retransmitted block is handed on in 16 bits
  (`src/protocol/chop_blk.h:330`, `src/protocol/chop_blk.h:357`), so a connection that
  asked for 65536 bytes more than the block needs gets a shorter one:
  `Circuit.SendSpecial`, `Circuit.RetransmitFirst`.
- After the 255th HKDF block has been started, its unused bytes are thrown away, so
  a request cut in two can yield less than the whole: `ChunkedEqualsOneShotIff`.
- The table of hexadecimal digits spells out 128 of its 256 entries
  (`src/http_parser/http_parser.cc:188-197`), which leaves zeros for the rest: a byte
  above 127 in a chunk size counts as the digit 0 (`UnhexMeaning`).
- The chunk-size overflow test misses some overflows. `SizeAcceptedIff` says which
  sizes of any length are accepted, from their digits alone, and which of those are
  read wrong; `MissedStepIff` says it of one step, and `OverflowUnnoticed` is an example.
- On an error the parser does not hand over chunk data that came before it in the same
  buffer (`src/http_parser/http_parser.cc:1802-1808`), so what it hands over can depend
  on the split into calls: `SplitMattersIff`. On input without an error it does not.
- A SOCKS 4 request longer than the limit may succeed if it arrives at once and break
  the connection if it does not. `SplitIndependentIff` says for which bytes the split
  does not matter: those that two particular cuts leave alone. One of the two is not
  enough (`OneCutIsNotEnough`). SOCKS 5 is never affected (`FragmentationIndependent`).
- A character pointer that wraps to zero ends the URL there, since it is copied as a
  C string (`scripts/tool_urlglob.c:509-527`): `CutAtZeroIff`, `ZeroWrittenIff`.
- A character pointer is a signed byte and wraps. A range may therefore never carry,
  as with `[a-z:8]` or any that ends at byte 127, or carry late, as with
  `[a-b:70]`, which announces two URLs and gives four. A number range whose step is not
  positive never carries. `EndsIff` and `CharTurnsIff` say exactly which globs come to
  an end, `AnnouncedIff`, `AmountIff`, `ExcessIff` and `StraightCounts` when the number
  announced is right. A caller who goes on after the end misses the first URL:
  `CallsEnumerate`.

## Model

| member | source | states |
|---|---|---|
| AckPayloads.AckPayload.SetBlockReceived | src/protocol/chop_blk.h:233-248 | marks exactly the given block of the 256 after the HSN, keeps the highest used byte right, and gives up, changing nothing, on any other number |
| AckPayloads.AckPayload.Serialize | src/protocol/chop_blk.cc:213-240 | the wire form of the HSN and of the marked set, trailing zero bytes dropped |
| AckPayloads.ParsedLayout | src/protocol/chop_blk.cc:183-211 | parsing pads the bitmap with zeros and accepts exactly an HSN in range whose next block is not claimed |
| AckPayloads.AckWireRoundTrip | src/protocol/chop_blk.cc:183-240 | an acknowledgment survives the wire: accepted if and only if the HSN is in range and the next block unclaimed, and then it claims exactly the same blocks |
| AckPayloads.OneBlockWire | src/protocol/chop_blk.cc:213-240 | on the wire the HSN comes first, highest byte first, then a bit for each block, the lowest of a byte first, up to the last byte that is not zero |
| Framing.HeaderLayout | src/protocol/chop_blk.h:20-25 | the fields of a header in their places and byte order, the check field zero |
| Framing.HeaderRoundTrip | src/protocol/chop_blk.cc:100-171 | whatever the window and stale memory, an encoded header is read back unchanged |
| Framing.AcceptsAsDocumentedIff | src/protocol/chop_blk.cc:118-126 | for every decrypted header, the exact condition under which decoding accepts what the format's documentation says it accepts |
| Framing.CorruptCheckAccepted | src/protocol/chop_blk.cc:124-126 | a header with a wrong check field that is accepted |
| Framing.BlockOpens | src/protocol/chop_blk.cc:276-327 | a block opens under its own encrypted header as nonce and holds the data and then as many zeros as it has padding |
| Framing.StopsAtBad | src/protocol/chop.cc:2114-2219 | at a header that is refused or a block that does not decrypt, the blocks before have been handed over, the call fails, and nothing behind it is handed over |
| Framing.ChopConn.Recv | src/protocol/chop.cc:2114-2219 | one arrival yields the blocks, error and pending tail of the recursive reference, which consumes whole blocks only |
| Framing.CutMeaning | src/protocol/chop_blk.h:46-55 | what the fragmentation-free reference is: as many leading frames as fit, in order, and a tail without a whole frame |
| Framing.DeframeHonest | src/protocol/chop.cc:2114-2219 | on any part of an honest stream the receive loop agrees with that reference |
| Framing.FragmentationIndependent | src/protocol/chop.cc:2114-2219 | any split of an honest stream, with any window and stale memory at each arrival, gives the same blocks in order and leaves the incomplete tail pending |
| TransmitQueues.FullMeansSlotInUse | src/protocol/chop_blk.h:309-316 | the queue is full if and only if the next number falls on the slot of a number still in the window, even if selective acknowledgment has cleared slots |
| TransmitQueues.TransmitQueue.Enqueue | src/protocol/chop_blk.cc:254-274 | the slot is always empty, no live block is overwritten, and the ring stands for the map with the new block added under its header |
| TransmitQueues.TransmitQueue.Transmit | src/protocol/chop_blk.cc:276-327 | puts exactly the live block with its number, opcode and retransmit count on the wire and leaves the queue alone |
| TransmitQueues.TransmitQueue.PrepareRetransmit | src/protocol/chop_blk.cc:173-181 | counts the retransmission and repads, or fails without change once the 8-bit count is used up |
| TransmitQueues.TransmitQueue.ProcessAck | src/protocol/chop_blk.cc:343-376 | the two slot-freeing loops leave exactly the blocks the acknowledgment does not claim; a bad payload changes nothing |
| TransmitQueues.ProcessAckKeepsValid | src/protocol/chop_blk.cc:343-376 | the lower edge moves to HSN+1 and never backward, the window stays valid, and surviving blocks are unchanged |
| TransmitQueues.TransmitQueue.Advance | src/protocol/chop_blk.h:389-395 | the iterator skips empty slots and only those |
| ReassemblyQueues.ReassemblyQueue.Insert | src/protocol/chop_blk.cc:415-437 | stores the block under its number exactly if it is in the window and not yet held; otherwise nothing changes |
| ReassemblyQueues.ReassemblyQueue.RemoveNext | src/protocol/chop_blk.cc:392-413 | gives the next block if it is there and moves the window by one; otherwise nothing changes |
| ReassemblyQueues.ReassemblyQueue.Empty | src/protocol/chop_blk.h:477-480 | the counter tells whether any slot is occupied |
| ReassemblyQueues.ReassemblyInOrder | src/protocol/chop_blk.cc:392-437 | in any sequence of inserts and removals, blocks come out exactly once, in increasing order from zero, with their own opcode and data; what went in has come out or is held |
| ReassemblyQueues.ReassemblyQueue.GenAck | src/protocol/chop_blk.cc:449-464 | the walk round the ring puts the processed and held numbers on the wire, or aborts in exactly two cases |
| ReassemblyQueues.AckTellsIff | src/protocol/chop_blk.cc:449-464 | an acknowledgment claims exactly what was processed or is held if and only if something was processed, the queue is drained and no held slot index is below the front |
| ReassemblyQueues.ReducedAckTellsIff | src/protocol/chop_blk.cc:449-464 | with the slot difference reduced modulo 256, an acknowledgment is truthful if and only if something was processed and the queue is drained |
| ReassemblyQueues.WrapAborts | src/protocol/chop_blk.cc:457-457 | a drained queue holding block 256 while 255 is awaited cannot be reported |
| ReassemblyQueues.EarlyAckClaimsZero | src/protocol/chop_blk.cc:452-452 | with nothing processed, an accepted payload claims block 0, which never arrived |
| CircuitObjects.Circuit.SendTargeted | src/protocol/chop.cc:1262-1398 | takes as many waiting bytes as the room and a data section hold, queues them with data and padding filling the block exactly, under FIN if upstream is done and nothing is left waiting, else DAT, and notes the FIN and ends the dead cycle only if the connection took the block |
| Circuits.SendTakes | src/protocol/chop.cc:1262-1398 | the same, field by field, and that a send fails exactly if the padding would be too long or the window is full |
| CircuitObjects.Circuit.SendSpecial | src/protocol/chop.cc:1081-1167 | queues the block, on a connection or not, unpadded in the one case and in the other as long as the connection asked if and only if the padding fits 16 bits; a full window changes nothing |
| TransmitQueues.TransmitQueue.FirstWithRoom | src/protocol/chop_blk.h:374-405 | iteration finds the first live block a connection has room for, if there is one |
| CircuitObjects.Circuit.RetransmitFirst | src/protocol/chop.cc:862-905 | that block goes out again under its own number, with its retransmit count one higher and the new padding; a count used up is an error that changes nothing |
| CircuitObjects.Circuit.RecvBlock | src/protocol/chop.cc:1593-1645 | data and FIN are queued; an acknowledgment is processed and its place filled with an empty block |
| Draining.DrainMeaning | src/protocol/chop.cc:1647-1733 | from whatever peer, the blocks held in a row from the front come off; their data up to the first FIN goes upstream and ends the dead cycle; it is an error if and only if a second FIN or data after a FIN is among them, and one RST follows if and only if data is the first offence and the window is open |
| CircuitObjects.Circuit.Drain | src/protocol/chop.cc:1647-1733 | the loop empties the queue in order, delivering data, noting the first FIN and reporting data or a FIN after it |
| CircuitObjects.Circuit.MaybeSendAck | src/protocol/chop.cc:1557-1585 | acknowledges when 32 blocks were processed since the last time, or in a dead cycle with blocks held |
| CircuitObjects.Circuit.ProcessQueue | src/protocol/chop.cc:1647-1740 | draining, then the error or the acknowledgment |
| Protocol.RunInv | src/protocol/chop.cc:1647-1740 | every state of every run satisfies the invariant that ties rings, wires, acknowledgments in flight and both streams together |
| Protocol.BytesConserved | src/protocol/chop.cc:1262-1398 | in every run the data sections in sequence order make up the bytes taken, these and the waiting ones make up what upstream supplied, a FIN follows upstream's end with nothing left to send, and there is one FIN only unless a connection refused it |
| Protocol.DeliveredPrefix | src/protocol/chop.cc:1647-1733 | under loss, duplication and reordering, the bytes handed upstream are always a prefix of the bytes the peer took, which are a prefix of those its upstream supplied |
| Protocol.EofMeansComplete | src/protocol/chop.cc:1721-1724 | end of file is reported only when every byte has been delivered |
| Protocol.FinIsFinal | src/protocol/chop.cc:1647-1733 | after the first FIN nothing is ever delivered in that direction, in any continuation of the run |
| Protocol.AllProcessedMeansAllDelivered | src/protocol/chop.cc:1647-1733 | a receiver that has processed every block has delivered everything taken |
| Protocol.ErrorIff | src/protocol/chop.cc:1656-1733 | in every run an end has reported a protocol error if and only if it has processed two FINs |
| Protocol.SecondFinIff | src/protocol/chop.cc:1282-1389 | a send queues a second FIN if and only if one is queued and sent_fin is not set, which takes a connection that refused it |
| Protocol.NoPrematureDiscard | src/protocol/chop_blk.cc:343-376 | in every run, for every order of stale, duplicated and reordered acknowledgments, any block but block 0 is discarded only after the receiver processed or holds it |
| Protocol.AckFreesIff | src/protocol/chop_blk.cc:343-376 | in every run an arriving acknowledgment frees exactly what its queue had, and block 0, if and only if its HSN is at most one below the window and was sent and the block after it was not held; otherwise nothing changes |
| Protocol.BlockZeroLostIff | src/protocol/chop_blk.cc:343-376 | while the sender holds block 0 and the receiver lacks it, an arriving acknowledgment discards it if and only if block 1 was not held when the acknowledgment was generated |
| Protocol.BlockZeroGoneIff | src/protocol/chop_blk.cc:343-376 | block 0 is gone without having been received if and only if the window has moved while the receiver lacks it, and then it has moved by one |
| Protocol.FrontIsLive | src/protocol/chop_blk.h:374-405 | in every run the block at the lower edge of a nonempty window is still held, so iteration never begins at an empty slot |
| Protocol.WindowAgreement | src/protocol/chop_blk.cc:415-437 | in every run the sender's lower edge is at most the receiver's next number, or one; the receiver's is at most the sender's next; and a live block the receiver lacks is refused if and only if it is block 256 and nothing was processed |
| Protocol.MissingBlockAdvances | src/protocol/chop.cc:1593-1733 | the block a drained receiver waits for is still held by the sender if and only if it is not block 0 or the window has not moved, and its arrival moves the receiver on |
| Protocol.NoncesNeverRepeat | src/protocol/chop_blk.h:25-30 | no two blocks put on connections share number and retransmit count |
| Progress.AckSentIff | src/protocol/chop.cc:1557-1585 | in every run, draining without an error ends with an acknowledgment of the queue as it then is if and only if 32 processed blocks are unreported or blocks are held in a dead cycle, unless the window is full; so at most 31 processed blocks stay unreported |
| Progress.ErrorSendsNoAck | src/protocol/chop.cc:1729-1733 | after an error nothing is acknowledged |
| Progress.DeadlockIff | src/protocol/chop.cc:1094-1097 | from a reachable state some continuation queues another block if and only if it is not deadlocked: both ends out of numbers, or with full windows that nothing queued can move |
| Progress.DeadlockForever | src/protocol/chop.cc:1557-1585 | from a deadlocked state no continuation ever queues another block or takes another byte |
| Progress.CatchUpIff | src/protocol/chop.cc:1593-1733 | from a reachable state some continuation delivers everything sent so far if and only if block 0 is not lost: it was received, is still held by the sender, or was once put on a connection |
| Execution.Retransmit | src/protocol/chop.cc:862-905 | between two linked circuit objects, retransmitting is a step of the protocol from any reachable state: the front of the window is live, so iteration may start there |
| Execution.Receive | src/protocol/chop.cc:1593-1645 | a block the peer put on a connection is received as a step of the protocol |
| Execution.Process | src/protocol/chop.cc:1647-1740 | draining and acknowledging is a step of the protocol, unless it ends the program |
| Execution.LinkedDelivers | src/protocol/chop.cc:1647-1733 | two objects on which only such methods were called are at a moment of some run, and each has handed upstream a prefix of what the other took |
| Carriage.ConnectionDelivers | src/protocol/chop.cc:2114-2219 | whatever packets of a run one connection carries, and however its bytes are split, the receive loop hands over exactly the packets whose bytes have come, in order, each an arrival of the protocol; an incomplete one stays pending |
| Hazards.EarlyAckLosesBlock | src/protocol/chop_blk.cc:452-452 | a run to a state in which block 0 is lost for good |
| Hazards.RefusedFinFails | src/protocol/chop.cc:1356-1389 | a reachable state in which a refused FIN makes the honest peer report an error |
| Hazards.DeadlockReachable | src/protocol/chop.cc:1094-1097 | a run to a deadlocked state with bytes waiting at both ends, in which every block sent carries data |
| Hazards.AbortReachable | src/protocol/chop_blk.cc:457-457 | a run to a drained receiver whose acknowledgment, due now, cannot be generated |
| Hkdf.KeyGenerator.Generate | src/crypt.cc:764-816 | fills the buffer with the next bytes of the one-shot output, zeros where it has run out, and returns how many are good |
| Hkdf.ChunksConcatenate | src/crypt.cc:764-816 | for any sequence of requests the returned bytes are a contiguous stretch of T(1), T(2), ..., never past 255 blocks |
| Hkdf.ChunkedEqualsOneShotIff | src/crypt.cc:800-807 | cutting a request loses nothing if and only if no piece falls after the last block was started |
| Hkdf.ChunkedFallsShort | src/crypt.cc:800-807 | 8129 bytes and then one yield less than 8130 at once |
| Base64.Encoder.Encode | src/base64.cc:62-118 | resuming at any position, the code of all bytes consumed so far |
| Base64.Encoder.EncodeEnd | src/base64.cc:120-147 | completes the last group with padding and the last line, and resets |
| Base64.Decoder.Decode | src/base64.cc:149-206 | resuming at any position, the bytes completed by the digits consumed so far |
| Base64.DigitsInvertIff | src/base64.cc:10-57 | decoding a digit undoes encoding it, and padding and newlines are skipped, if and only if the configured symbols are distinct |
| Base64.StreamRoundTrip | src/base64.cc:62-206 | any bytes, split anywhere for encoding and split anywhere else for decoding, come back |
| Base64Texts.WholeIsLines | src/base64.cc:62-147 | all that is written: four letters of the standard alphabet for every 24 bits, highest first, padding in the last group only, and when wrapping a newline behind every 72 characters and at the end |
| Base64Texts.DecodedIff | src/base64.cc:23-57 | which characters are taken for which digit: the alphabet, the configured symbols and still the standard two, and no others |
| Base64.WholeLength | src/base64.cc:62-147 | four characters for every three bytes begun, and when wrapping a newline for every 54 bytes and one at the end |
| Cookies.GenOneCookie | src/steg/b64cookies.cc:22-59 | name and value are cut off the front of the text at the lengths the random numbers give, with an equals sign between; fewer than five bytes are left bare |
| Cookies.GenB64Cookies | src/steg/b64cookies.cc:61-84 | a text of five bytes or more becomes a list of cookies that carry it, joined by semicolons, with names of one to ten bytes; in a text without separators every part between semicolons is a name, one equals sign and a value; a shorter text stays as it is; the length is at most tripled |
| Cookies.UnwrapB64Cookies | src/steg/b64cookies.cc:8-20 | keeps exactly the bytes that are no separators, in order |
| Cookies.StripMeaning | src/steg/b64cookies.cc:8-20 | what is taken out is exactly every space, semicolon and equals sign |
| Cookies.WrapAndUnwrap | src/steg/b64cookies.cc:8-84 | unwrapping what was wrapped gives the text back, for all random numbers, if and only if it has no separators |
| Cookies.CarryInCookies | src/steg/http.cc:466-469 | encoding, wrapping, unwrapping and decoding return any bytes, for all random numbers and all symbols that suit cookies |
| Cookies.HttpSymbolsFit | src/steg/http.cc:444-444 | the symbols the HTTP module uses suit cookies |
| LruCache.PayloadLRUCache.Get | src/steg/payload_lru_cache.h:55-92 | the retriever's value, hit or miss; the key becomes the most recent and the tracker and map keep the same keys |
| LruCache.PayloadLRUCache.Insert | src/steg/payload_lru_cache.h:133-158 | adds the key last, dropping the oldest exactly when full |
| LruCache.PayloadLRUCache.Evict | src/steg/payload_lru_cache.h:160-174 | removes the oldest key and its value, nothing else |
| LruCache.PayloadLRUCache.Drop | src/steg/payload_lru_cache.h:112-129 | removes the key from both structures if present and says whether it was |
| LruCache.RecentMeaning | src/steg/payload_lru_cache.h:55-92 | the reference order has every accessed key once, sorted by time of last access |
| LruCache.ResidentAreMostRecent | src/steg/payload_lru_cache.h:55-174 | after any run of accesses the resident keys are exactly the most recently accessed ones that fit, in that order |
| ChunkedBody.HttpParser.Execute | src/http_parser/http_parser.cc:1699-1849 | one call on any buffer ends in the state of taking the bytes one by one and hands over the same body, or on an error all of it but what is still marked |
| ChunkedBody.HttpParser.ExecuteAll | src/http_parser/http_parser.cc:1699-1849 | any split into calls ends in the state of a single call and, without an error, hands over the same body |
| ChunkedBody.SplitInvariant | src/http_parser/http_parser.cc:1699-1849 | any split into calls ends in the bytewise state and hands over a prefix of the bytewise body, all of it on input without an error |
| ChunkedBody.DroppedIff | src/http_parser/http_parser.cc:1779-1808 | chunk data that was read is not handed over if and only if the end of a chunk is broken behind data of the same buffer |
| ChunkedBody.SplitMattersIff | src/http_parser/http_parser.cc:1779-1808 | some split into calls hands over something else than a single call if and only if the end of a chunk is broken behind data of it |
| ChunkedTexts.UnhexMeaning | src/http_parser/http_parser.cc:188-197 | a byte is read as a digit if and only if it is a hexadecimal digit, with its own value, or above 127, as zero |
| ChunkedTexts.WellFormedDecodes | src/http_parser/http_parser.cc:1698-1815 | a well-formed chunked body without trailers hands over exactly the chunk payloads and completes the message |
| ChunkedTexts.OnlyWellFormedCompletes | src/http_parser/http_parser.cc:1698-1815 | whatever completes the message without trailers begins with such a body, and its payloads are what is handed over |
| ChunkedTexts.CompletesIff | src/http_parser/http_parser.cc:1698-1815 | the message completes if and only if the bytes begin with a well-formed body |
| ChunkedTexts.ErrorKinds | src/http_parser/http_parser.cc:1698-1815 | which byte is an error in which state, and which error it is |
| ChunkedTexts.SizeReadIff | src/http_parser/http_parser.cc:1738-1748 | a chunk size is read correctly if and only if it is below 2^64 - 1 |
| ChunkedTexts.MissedStepIff | src/http_parser/http_parser.cc:1738-1748 | of one step, exactly which overflows go unnoticed |
| ChunkedTexts.SizeAcceptedIff | src/http_parser/http_parser.cc:1698-1748 | a size of any length is accepted if and only if no sixteen digits in a row are F and in no seventeen the first change is a fall; its value modulo 2^64 is read, so an accepted size is wrong if and only if it is 2^64 or more |
| ChunkedTexts.OverflowUnnoticed | src/http_parser/http_parser.cc:1742-1746 | a seventeen-digit size that is accepted with a wrong value |
| Socks.SocksConn.Socks5HandleNegotiation | src/socks.cc:306-334 | waits for the whole method list, then answers whether it offers "no authentication" |
| Socks.SocksConn.Socks5HandleRequest | src/socks.cc:110-210 | waits for the whole request, then takes exactly it off the buffer |
| Socks.SocksConn.Socks4ReadRequest | src/socks.cc:345-418 | finds the ends of user and host name, with the length limits of the code |
| Socks.SocksConn.HandleSocks | src/socks.cc:455-531 | version dispatch, state and error marking of one call |
| Socks.SocksConn.SocksReadCallback | src/network.cc:255-268 | the callback's loop makes one call for each arrival unless the reader has stopped |
| SocksOutcomes.WaitsIff | src/socks.cc:455-531 | after which bytes the reader still waits, in terms of the bytes; after all others it has an address or the connection is broken |
| Socks.SplitIndependentIff | src/socks.cc:377-393 | for any client bytes, all splits into arrivals end as one arrival does if and only if cutting once after SOCKS4_MAX_LENGTH + 2 bytes and once after one more do |
| Socks.OneCutIsNotEnough | src/socks.cc:384-393 | a request that the first of these cuts leaves alone and the second breaks |
| Socks.FragmentationIndependent | src/socks.cc:455-531 | for any client bytes that do not ask for version 4, or are at most SOCKS4_MAX_LENGTH + 2, and any split into arrivals: same final state, parsed request, replies and unread bytes as one arrival |
| Socks.LimitIsExact | src/socks.cc:377-393 | independence of the split holds for all inputs of a length if and only if the length is at most SOCKS4_MAX_LENGTH + 2 |
| Socks.Socks5Connects | src/socks.cc:306-334 | a greeting and a CONNECT for any IPv4, IPv6 or named destination give exactly that destination and port, the right reply and the unread rest; without "no authentication" the connection is broken |
| Socks.Socks5OnlyConnects | src/socks.cc:110-210 | a version 5 connection gets an address from nothing else |
| Socks.Socks4Connects | src/socks.cc:345-418 | a version 4 request gives its address and port and drops the user name; if the address cannot be converted, family and port stay set on a broken connection |
| Socks.Socks4aConnects | src/socks.cc:345-418 | a version 4a request gives its host name and port; a host name of 256 bytes or more breaks the connection |
| Socks.Socks4OnlyConnects | src/socks.cc:345-418 | a version 4 connection gets an address from nothing else |
| UrlGlobs.UrlGlob.NextUrl | scripts/tool_urlglob.c:434-532 | the carry loop and the writing loop compute one turn of the odometer and the URL it shows, up to its first zero byte |
| UrlTexts.PaddedIff | scripts/tool_urlglob.c:512-515 | the text of a number is the one decimal text of its value that is at least as long as asked, with leading zeros as filler only, behind a minus sign if it is negative |
| UrlTexts.UrlIsJoined | scripts/tool_urlglob.c:490-521 | an URL is its literals and pattern texts joined in their order |
| UrlTexts.CallShows | scripts/tool_urlglob.c:434-532 | what each call before the end gives: the literals and between them the element, character or number of each pattern in the combination with the number of the call, as a C string |
| UrlGlobs.CutAtZeroIff | scripts/tool_urlglob.c:523-527 | the copy is the whole URL if and only if no zero byte was written |
| UrlGlobs.ZeroWrittenIff | scripts/tool_urlglob.c:509-511 | in strings without zero bytes, one is written if and only if a character pointer stands at zero |
| UrlGlobs.AdvanceTurns | scripts/tool_urlglob.c:453-482 | a pattern that turns goes through its values in order and carries exactly at the last |
| UrlGlobs.IdleNeverCarries | scripts/tool_urlglob.c:453-482 | a pattern that does not turn never carries, wherever its pointer has got to |
| UrlGlobs.CharTurnsIff | scripts/tool_urlglob.c:464-471 | a closed form, by one remainder, of whether a character range with any step ever carries past its wrapping pointer |
| UrlGlobs.StepEightNeverTurns | scripts/tool_urlglob.c:464-471 | `[a-z:8]` never carries |
| UrlGlobs.EndsIff | scripts/tool_urlglob.c:451-487 | for every glob the parser returns, the calls come to an end if and only if every pattern turns: each character range by the closed form, each number range with a positive step |
| UrlGlobs.CallsEnumerate | scripts/tool_urlglob.c:434-532 | what every call gives when all patterns turn, however many calls there are: each combination by its place in mixed radix, "no more" after the last, and then round again without the first |
| UrlGlobs.EveryChoiceOnce | scripts/tool_urlglob.c:434-532 | every combination is given by exactly one call before the end |
| UrlGlobs.DigitsOrdered | scripts/tool_urlglob.c:451-453 | combinations come in lexicographic order, the rightmost pattern varying fastest |
| UrlGlobs.ProducesAmount | scripts/tool_urlglob.c:267-274 | with step one and no range that ends at byte 127, exactly as many URLs as the recursively computed amount, then "no more" |
| UrlGlobs.AnnouncedIff | scripts/tool_urlglob.c:267-274 | for every glob the parser returns, the calls give exactly the number announced if and only if every pattern turns and the numbers of their values multiply to it |
| UrlGlobs.AmountIff | scripts/tool_urlglob.c:267-274 | if no pattern takes more values than announced, the numbers agree if and only if each takes as many |
| UrlGlobs.ExcessIff | scripts/tool_urlglob.c:267-274 | if no pattern takes fewer values than announced, the numbers agree if and only if each takes as many |
| UrlGlobs.StraightCounts | scripts/tool_urlglob.c:464-477 | a range whose last value plus step does not wrap takes as many values as announced if and only if its step is one or it has a single value |
| UrlGlobs.ErrorsCancel | scripts/tool_urlglob.c:464-477 | a range that wraps and one that skips, whose errors cancel |

## Left out

- Sockets, timers, libevent buffers and memory: buffers are byte sequences whose operations succeed.
- AES, GCM and HMAC: uninterpreted functions; decryption is assumed to undo encryption.
- Authenticity against forged blocks: every block in a run was put on a connection by the peer.
- Steganography opcodes on the receiving side: such blocks pass through the queue and the first STEG_FIN is noted, but the modules' own data, their replies and the send they trigger are not modelled.
- Closing a circuit or a connection: a run goes on for as long as nobody closes the circuit.
- RST: sending one after an error is modelled, tearing the circuit down on receiving one is not.
- Handshake, transparent proxying, picking a connection and block size, padding choice: the room in a block and whether the connection takes it are parameters of each step.
- When to retransmit, the retransmission made at once after an acknowledgment, and sending after the queue is drained: retransmitting and sending are steps of their own that may happen at any time.
- The order of retransmission in runs: any live block may go out again, where the code takes the first one a connection has room for (`src/protocol/chop.cc:862-905`). For what every run keeps this is more runs, not fewer. Where a continuation is claimed to exist, one that follows the code's order does: a connection that must send passes over a block whose retransmit count is used up (`src/protocol/chop.cc:1186-1222`), so retransmitting the earlier ones often enough brings it to the later one.
- Delivering everything upstream will ever supply: `DeadlockIff` is about the next block and `CatchUpIff` about everything sent so far.
- The transmit queue's overwriting mode without retransmission.
- Rekeying: sequence numbers stay below 2^31, where `should_rekey` (`src/protocol/chop_blk.h:322`) starts to ask for it; `reset` and a circuit that goes on past that number are not modelled.
- The `do_ack` and `steg_cfg` fields of a reassembly slot, which no modelled operation reads.
- Progress.CatchUpIff: assumes that the receiver has two sequence numbers left below 2^31, since it may have to acknowledge on the way; how soon, or whether, a connection delivers is not modelled, only that it can.
- CircuitObjects.Circuit.Drain: leaves out the data of steganography blocks and the send they trigger; it also assumes that the numbers of the blocks held do not reach the last 256 of the 32-bit range.
- CircuitObjects.Circuit.ProcessQueue: leaves out the send and the end-of-file check that may follow the acknowledgment; sending is a step of its own.
- Base64: plain `char` is treated as an unsigned byte, and what the read one past the decoding table finds is a parameter.
- HTTP parser: only the chunked-body states, in strict mode; trailers, the other states and what follows a complete message are outside, and callbacks return 0 without pausing.
- LRU cache: values are returned rather than referred to; the list iterators in the map are positions in a sequence.
- SOCKS: sending the server's reply after connecting, and the C string an address buffer holds (a name with a zero byte inside is kept whole here); the textual form of a numeric address is an uninterpreted function that may fail.
- URL globbing: parsing the text of a glob (the arrays of ten literals and nine patterns are sequences of any length here), the parse errors a range swallows, output buffer sizes, and signed overflow, which C leaves undefined: of a number range that steps beyond the int range, of a step added to a character, and of the announced amount. These are exact integers here.
- JPEG, GIF, HTML, JavaScript, PDF and SWF modules, payload scraping, curl and Apache code, configuration and command line.
