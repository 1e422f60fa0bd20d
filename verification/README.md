# Protocol clients: Modbus, FOCAS and MTConnect

A Dafny model of the protocol clients under `clients/` and proofs of what they promise. `dafny verify dfyconfig.toml`
checks everything; there is one module per file.

Loops, buffers and objects keep the form they have in the source: methods over arrays and classes whose fields the methods
update, each proved against a specification function or predicate. What lies outside the clients is a constant of the
class, an arbitrary function of everything that happened before (`machine`, `peer`, `faults`, `wire`, `connects`), so a
statement about a call or a run holds for every behaviour of the other side.

## What is modelled

**Modbus.** `ModbusTypes` has the vocabulary, `ModbusCodec` the byte orders and element codec, `ModbusCrc` the CRC,
`ModbusFrames` the RTU and MBAP envelopes (MODBUS Messaging on TCP/IP V1.0b, section 3.1.3), `ModbusLink` the
RTU-over-TCP collector and the TCP exchange, `ModbusDevice` the PDUs and a device of coil and register memory (MODBUS
Application Protocol V1.1b3, sections 6.1 to 6.6, 6.11, 6.12 and 7). A batch read expands its addresses into elements
(`ModbusItems`), merges them into spans (`ModbusPlan`), requests each span and scatters the decoded values
(`ModbusSlots`, `ModbusMaster`); `ModbusMerge` says what comes of that and when it is what
reading each address alone gives, and `ModbusOrders` spells out, cell by cell, what that is. Writes are in `ModbusWrite`
and `ModbusWriteBatch`.

**FOCAS.** `FocasBlocks` has frames and block lists, `FocasSession` the two connections and the program download,
`FocasPmc` reads and writes of PMC points, `FocasDirectory` the paged program directory, `FocasProgram` upload and
framing of programs, `FocasRecord` the way of one scaled value from its printed name to the bytes of the reply.

**MTConnect.** `MtConnect` has the bounded table of condition states and the alarm events it gives rise to.

## What does not hold, and exactly when

- A merge sets the span's end to the end of the element that joined last, even when that element is nested in an earlier
  one. `ModbusPlan.LosesNothingExactly` shows that a sorted batch, and every batch it begins with, is fetched whole if and
  only if no element ends before an earlier one. In one given plan an element lies in its own span exactly when the last to
  join it ends no earlier (`ModbusPlan.OwnSpanExactly`).
- An element can be fetched twice, which makes the list of an array address too long: exactly when the merge breaks off
  between two elements of equal offset (`ModbusPlan.RepeatsExactly`), which takes a wider second element and the limit
  (`ModbusPlan.SplitNeedsUnequalWidth`). `ModbusPlan.EqualOffsetsRepeat` and `ModbusSlots.RepeatedElementIsListedTwice`
  give a batch of this kind. `Mergeable` rules out both, nested elements and unequal widths at equal offsets, and
  `ModbusMaster.Master.ReadBatch` promises the values of a mergeable batch.
- The end of a span plus the merge gap is a 32 bit sum. A configuration keeps the promise for every mergeable batch exactly
  when neither its gap nor, in 32 bits, its double reaches 0xFFFF_0000 (`GapFits`, `ModbusMerge.GapFitsExactly`); for every
  other gap `ModbusMaster.WideGapListsTooMuch` is a run that goes wrong. Whatever the gap, addresses of one element come back
  right, and so do batches whose elements do not overlap (`ModbusMaster.Master.ReadBatch`).
- A bit is looked up in the data of a span without asking whether it is there, so an element of width zero, or one whose end
  wraps in 32 bits, can be read behind the data: `ModbusSlots.ReadsBehindExactly` says exactly when,
  `ModbusSlots.LongTextReadsBehind` gives a string whose width wraps to zero. Addresses made from JSON have lengths of at most
  65536 (`stack/src/tool/driver.c:401`), for which no width is zero. In register areas the decoder refuses such elements.
- Transaction id 0xFFFF is read as "any" when a reply is split: the exchange numbered 65535, and each 65536th after it,
  takes whatever reply arrives (`ModbusLink.RunTakesNoStaleReply`, `ModbusLink.WildcardTakesAnything`).
- A reply left in the stream of a Modbus TCP connection is not caught up with while the peer answers: every later exchange
  reads the reply to the one before, and refuses it as an error that opens no new connection (`ModbusLink.StaysOneBehind`).
- An RTU reply does not say which read it answers: a late one is taken for the reply to any read of the same area and number
  of bytes, and of no other (`ModbusLink.RtuTakesLateReplyExactly`).
- The pad byte of an odd text is written as zero rather than left alone, so it is preserved exactly when it was zero
  (`ModbusWriteBatch.OddTextPadsWithZero`, `ModbusWriteBatch.PadByteIsLost`).
- A second payload on one FOCAS block is meant to be refused, but is accepted exactly when the number 28 stands 28 bytes
  before the end of the body (`FocasBlocks.SecondPayloadExactly`, `FocasBlocks.SecondPayloadIsTaken`).
- With an even FOCAS hello counter dropping a session closes the first connection twice
  (`FocasSession.DropClosesTwiceIffEven`, `FocasSession.OneIsClosedTwice`). Roles, and the rule that nothing is used after
  its close, hold for every counter.
- When the second connection of a FOCAS handshake comes up and its hello is not welcomed, it stays open and nothing holds
  it, and in no other case (`Leaks`, in `FocasSession.Session.Handshake`). `Session.lost` collects these, and
  `FocasSession.Session.Close` leaves exactly them open; `FocasSession.OneIsLost` is a session that ends so.
- A FOCAS probe that loses the link shuts both channels, yet the session is set right after. That happens exactly when the
  driver negotiates and every one of the retries + 1 sendings of the probe is lost (`Deafens`); `FocasSession.OneIsDeaf`
  is such a session. When a shut connection sends nothing, its next command fails in transport and the session is over
  (`FocasSession.Session.Command`, `FocasSession.DeafFailsNext`), so the one after opens a new one.
- Record 0 of an item is printed as `NAME@0`, which the driver cannot tell from a name without an offset; when the table
  does not know NAME but does know NAME followed by the block number, that other item is read
  (`FocasRecord.RecordRoute`, `FocasRecord.RecordGoesAstray`).
- A directory entry with number 0 is never listed (`FocasDirectory.DirectoryIsComplete`, `FocasDirectory.NumberZeroIsLost`).
- An error behind the first answer counts as the end of a program or directory, so a link that breaks half way makes a
  success of what came before (`FocasProgram.UploadIsAPrefix`, `FocasDirectory.DirectoryIsAPrefix`).
- `clients/focas/focas_values.c:2792-2796` speaks of a machine that takes one point at a time; the code falls back to single
  writes after any failed read-back, and the model does the same.

## Model

| member | source | states |
|---|---|---|
| ModbusPlan.Plan | clients/modbus/modbus_driver.c:487-504 | the merge loop: its spans are the greedy runs of the sorted elements, each ending where the LAST element that joined it ends, with every sum and difference kept in 32 bits; when ends never decrease they fetch every element under the rules and no other such plan is shorter |
| ModbusPlan.SpansWithinLimit | clients/modbus/modbus_driver.c:493-502 | no span asks for more than one request may, when no element is wider than that |
| ModbusPlan.ExactlyOnce | clients/modbus/modbus_driver.c:487-504 | when sorted ends never decrease and equal offsets have equal widths, a span covers the elements merged into it and no others, so each element is fetched by exactly one request; for any gap whose sums stay in 32 bits, and for the gap 0xFFFF_FFFF |
| ModbusPlan.SpansHaveNoHole | clients/modbus/modbus_driver.c:487-504 | inside a span no more than `gap` offsets in a row are wanted by nobody |
| ModbusPlan.PlanIsAllowed | clients/modbus/modbus_driver.c:487-504 | the plan itself fetches every element, within the limit and without such holes |
| ModbusPlan.Optimal | clients/modbus/modbus_driver.c:487-504 | greedy stays ahead: no other set of spans that fetches every element within the limit and without such holes is smaller |
| ModbusPlan.LosesNothingExactly | clients/modbus/modbus_driver.c:495-497 | the assignment that may shrink a span is harmless on the sorted batch and everything it begins with if and only if no element ends before an earlier one does: otherwise the sorted elements up to the first nested one lose the element around it |
| ModbusPlan.OwnSpanExactly | clients/modbus/modbus_driver.c:495-502 | in a given plan an element lies inside the span it was merged into if and only if the element merged last ends no earlier |
| ModbusPlan.NestedPair | clients/modbus/modbus_driver.c:495-497 | of any two elements with the second nested in the first, one short span is asked for and the first is lost |
| ModbusPlan.NestedElementIsLost | clients/modbus/modbus_driver.c:495-497 | the smallest counterexample: a 4 register float at 0 and a 1 register integer at 1 are asked for as [0, 2) |
| ModbusPlan.RepeatsExactly | clients/modbus/modbus_driver.c:487-504 | without nested elements, and while the sums stay in 32 bits, some element is covered by two spans if and only if the merge breaks off between two elements of equal offset |
| ModbusPlan.SplitNeedsUnequalWidth | clients/modbus/modbus_driver.c:493-502 | and there it breaks off only for an element wider than the one before, which would take the span over the limit |
| ModbusPlan.EqualOffsetsRepeat | clients/modbus/modbus_driver.c:487-504 | the counterexample: four elements, none nested, of which the one at 124 is inside both spans |
| ModbusPlan.NeverRepeatsExactly | clients/modbus/modbus_driver.c:487-504 | over all batches in the 16 bit address space without nested elements and with equal widths at equal offsets: no element is ever fetched twice if and only if the gap is below 0xFFFF_0000 or is 0xFFFF_FFFF |
| ModbusPlan.LastTwins | clients/modbus/modbus_driver.c:493-494 | with any other gap two elements in the last place of the address space are asked for apart, and both twice |
| ModbusPlan.ApartIsOnce | clients/modbus/modbus_driver.c:487-504 | with any gap whatever, elements that begin and end one behind the other are fetched once |
| ModbusTypes.NamesExactly | clients/modbus/modbus_codec.c:18-53 | the thirteen words, in capitals or small letters, that name the four areas, each its own; any other text names none |
| ModbusCodec.OrderApply | clients/modbus/modbus_codec.c:138-161 | the in-place swaps leave the permutation of the chosen order, for every length |
| ModbusCodec.SwapBytesInPlace | clients/modbus/modbus_codec.c:144-151 | swaps every complete pair of bytes of the array and nothing else |
| ModbusCodec.SwapWordsInPlace | clients/modbus/modbus_codec.c:152-160 | swaps every complete pair of words of the array and nothing else |
| ModbusCodec.OrderIsItsOwnInverse | clients/modbus/modbus_codec.c:138-164 | applying an order twice gives the bytes back, for every length and all four orders |
| ModbusCodec.Decode | clients/modbus/modbus_codec.c:176-264 | decoding an element in place is the meaning of its bytes in ABCD order; missing bytes and unsupported orders of text are errors |
| ModbusCodec.Encode | clients/modbus/modbus_codec.c:265-366 | the payload written, of at most the space there is, or the refusal of the source |
| ModbusCodec.DecodeEncode | clients/modbus/modbus_codec.c:176-366 | round trip in every byte order: an integer comes back in the range of its type and equal modulo its size, a flag as 1 or 0, float patterns bit for bit, text cut at its first NUL and padded with blanks |
| ModbusCodec.EncodesExactly | clients/modbus/modbus_codec.c:265-366 | a value is encoded if and only if it is of the kind its type takes, there is room for it, and text is in an order that keeps the words |
| ModbusCrc.Crc16 | clients/modbus/modbus_codec.c:369-390 | the bit loop computes the CRC-16 of MODBUS over Serial Line V1.02, section 2.5.1.2 |
| ModbusCrc.StepIsTurn | clients/modbus/modbus_codec.c:381-387 | one turn of the register in plain arithmetic: the low bit is shifted out, and after an odd one the bits 15, 13 and 0 are switched |
| ModbusCrc.RegisterIsKnown | clients/modbus/modbus_codec.c:369-387 | the register starts at 0xFFFF, an odd bit folds in 0xA001, an even one nothing |
| ModbusCrc.ExampleFrame | clients/modbus/modbus_codec.c:369-390 | the example of the standard: the bytes 02 07 have the CRC 0x1241 |
| ModbusCrc.StepIsLinear | clients/modbus/modbus_codec.c:381-387 | one turn of the register is linear over exclusive or |
| ModbusCrc.StepIsInjective | clients/modbus/modbus_codec.c:381-387 | two different registers stay different after a turn |
| ModbusCrc.RunIsAffine | clients/modbus/modbus_codec.c:369-390 | the CRCs of two frames of one length differ by the register their difference alone leaves |
| ModbusCrc.BurstLeavesTrace | clients/modbus/modbus_codec.c:369-390 | a difference confined to 16 consecutive bits in line order never ends at zero |
| ModbusCrc.BurstChangesCrc | clients/modbus/modbus_codec.c:369-390 | two frames alike outside 16 consecutive bits in line order have different CRCs |
| ModbusCrc.ResidueIsZero | clients/modbus/modbus_codec.c:641-645 | the register over a frame and its own CRC, low byte first, ends at zero, and only then |
| ModbusFrames.RtuFrame | clients/modbus/modbus_codec.c:612-626 | fills the buffer with unit, PDU and CRC, or answers 0 and writes nothing when it does not fit |
| ModbusFrames.ExampleOnTheLine | clients/modbus/modbus_codec.c:612-626 | unit 2, function 7 goes out as 02 07 41 12 |
| ModbusFrames.RtuAcceptsExactly | clients/modbus/modbus_codec.c:628-656 | a frame is accepted if and only if it is long enough, ours, and the CRC of all of it is zero |
| ModbusFrames.RtuRefusals | clients/modbus/modbus_codec.c:628-656 | what else is refused as: too short, another unit, a CRC that is not zero |
| ModbusFrames.RtuRoundTrip | clients/modbus/modbus_codec.c:612-656 | what was framed is split to the same PDU |
| ModbusFrames.RtuRejectsBurst | clients/modbus/modbus_codec.c:628-656 | a corruption of an accepted frame within 16 consecutive bits in line order is never accepted, whatever the length of the frame |
| ModbusFrames.RtuRejectsAdjacentBytes | clients/modbus/modbus_codec.c:628-656 | a corruption of two adjacent bytes of an accepted frame is never accepted |
| ModbusFrames.TcpFrame | clients/modbus/modbus_codec.c:553-570 | fills the buffer with the MBAP header and the PDU, or answers 0 |
| ModbusFrames.TcpSplitExactly | clients/modbus/modbus_codec.c:572-610 | a TCP reply is accepted if and only if its protocol is 0, its length is 2 to 254 and all there, and its id is the one waited for or 0xFFFF is; its PDU is what follows the header |
| ModbusFrames.TcpTakesStaleExactly | clients/modbus/modbus_codec.c:572-610 | a complete reply to transaction t is accepted by a wait for w if and only if w is t or 0xFFFF, and then its PDU is unchanged |
| ModbusLink.CollectReply | clients/modbus/modbus_driver.c:194-238 | the RTU-over-TCP loop: result, buffer and the bytes left in the stream depend on the bytes alone, not on how they were cut up; not one byte behind the reply is taken, and three bytes when its function is not one of ours |
| ModbusLink.Stream.RecvExact | stack/src/core/socket.c:1169-1195 | exactly the bytes asked for, however they are cut up, or none when there are fewer, and then the stream is used up |
| ModbusLink.ReplyIsFound | clients/modbus/modbus_driver.c:194-238 | a reply of a supported function is found whole at the front of any stream and splits to its PDU |
| ModbusLink.RtuTakesLateReplyExactly | clients/modbus/modbus_codec.c:628-656 | an RTU reply to another read is accepted for this one if and only if both ask the same area for the same number of bytes, whatever their starts, and its data is the data of the other |
| ModbusLink.TcpMaster.ExchangeOnce | clients/modbus/modbus_driver.c:240-270 | one exchange under the next transaction id over a stream that goes on where the last one stopped; nothing is sent over a shut connection, and a short or impossible reply shuts it |
| ModbusLink.TcpMaster.Receive | clients/modbus/modbus_driver.c:247-270 | seven bytes, then the announced length less one, out of a stream handed over in pieces: the result is what the bytes at its front are worth, and what stays is what follows the frame, or the header when the length cannot be |
| ModbusLink.TcpMaster.Request | clients/modbus/modbus_driver.c:273-294 | at most retries + 1 exchanges, all but the last failed in transport, and the answer is that of the last |
| ModbusLink.OnlyWildcardTakesStale | clients/modbus/modbus_driver.c:240-270 | an accepted reply carries the current id, for every id but 0xFFFF |
| ModbusLink.RunTakesNoStaleReply | clients/modbus/modbus_driver.c:240-294 | over any run and any peer, only an exchange numbered 65535 modulo 65536 can take a stale reply |
| ModbusLink.WildcardTakesAnything | clients/modbus/modbus_codec.c:597-604 | and that exchange does take a reply to any other transaction |
| ModbusLink.BytesAreFrame | clients/modbus/modbus_codec.c:553-570 | what is framed carries its id, protocol 0, its length and its PDU at their places |
| ModbusLink.RefusesLength | clients/modbus/modbus_driver.c:255-261 | a header is refused for its length if and only if it announces less than 2 or more than 294 bytes |
| ModbusLink.FrameIsRead | clients/modbus/modbus_driver.c:247-270 | a frame at the front of the stream is taken under its own id or 0xFFFF and refused as a protocol error under any other; what follows it stays |
| ModbusLink.StaysInStep | clients/modbus/modbus_driver.c:240-294 | over any run, once nothing is left in the stream and the peer answers each request with one frame, every request gets its own reply |
| ModbusLink.StaysOneBehind | clients/modbus/modbus_driver.c:240-294 | and once one reply is left in it, every later exchange reads the reply to the one before: it is refused without a new connection, or under id 0xFFFF taken |
| ModbusDevice.UnpackPacked | clients/modbus/modbus_codec.c:422-437 | flags packed low bit first unpack to themselves |
| ModbusDevice.LineBitOfPackBits | clients/modbus/modbus_driver.c:654-682 | bit i of packed flags is flag i and the rest of the last byte is clear |
| ModbusDevice.WordBytesSlice | clients/modbus/modbus_codec.c:484-515 | bytes 2i to 2j of a register payload are registers i to j |
| ModbusDevice.ExceptionMeans | clients/modbus/modbus_codec.c:439-482 | the error of each exception code: 5, 6 and 8 are for later, the other known ones and all unknown ones are errors of the protocol |
| ModbusDevice.ReadReplyExactly | clients/modbus/modbus_codec.c:484-515 | a read reply is taken if and only if it has the function code, announces the size wanted and has it; its data is what follows |
| ModbusDevice.WriteReplyExactly | clients/modbus/modbus_codec.c:517-550 | a write reply is taken if and only if it echoes function code, address and count or value |
| ModbusDevice.ServeTwice | clients/modbus/modbus_driver.c:273-294 | every request the driver sends may be repeated: the device ends in the same state and answers alike |
| ModbusDevice.ReadIsServed | clients/modbus/modbus_codec.c:394-406 | a read within the limits passes the reply check with exactly the data asked for |
| ModbusItems.BatchCapacity | clients/modbus/modbus_driver.c:360-376 | the element count of a batch, at least one and at most the maximum |
| ModbusItems.BuildItems | clients/modbus/modbus_driver.c:379-429 | one item per element, addresses in order and elements in order, in 32 and 16 bit arithmetic, or the error of the source |
| ModbusItems.ShiftItems | clients/modbus/modbus_driver.c:419-426 | one-based addresses move down by one; an address 0 is refused |
| ModbusItems.BuiltIsLayout | clients/modbus/modbus_driver.c:379-429 | for addresses within 16 bits of a known area nothing wraps: element e of an address lies e widths behind its offset |
| ModbusItems.SortItems | clients/modbus/modbus_driver.c:341-350 | the sorted array is a permutation ordered by offset and then element |
| ModbusItems.GroupAtSlot | clients/modbus/modbus_driver.c:479-487 | however ties are broken, the elements of one address stand in the sorted group of its area complete and in element order |
| ModbusSlots.FromSpanIsAlone | clients/modbus/modbus_driver.c:541-559 | an element decoded out of the data of a span that covers it is the element read alone |
| ModbusSlots.StoreAllAtSlot | clients/modbus/modbus_driver.c:436-453 | storing a group, seen from one slot: only the items of that address count |
| ModbusSlots.StoreRunIsAlone | clients/modbus/modbus_driver.c:436-453 | the elements of an address stored in order are its value read alone, list or scalar |
| ModbusSlots.ScatterStoresTaken | clients/modbus/modbus_driver.c:537-561 | scattering the data of any span stores the items it takes, whichever they are, in the order of the group |
| ModbusSlots.ScatterCounts | clients/modbus/modbus_driver.c:436-453 | every element of an array address that a span takes adds one entry to its list, wanted or not |
| ModbusSlots.RepeatedElementIsListedTwice | clients/modbus/modbus_driver.c:436-453 | the counterexample of the planner, decoded: an address that asks for two elements gets a list of three |
| ModbusSlots.ReadsBehindExactly | clients/modbus/modbus_driver.c:541-549 | decoding a taken item looks behind the data of its span if and only if the area holds bits and either its width is zero, it stands right behind the span and the span fills whole bytes, or one of the two ends wraps in 32 bits and it lies behind the last byte |
| ModbusSlots.ScatterStaysInside | clients/modbus/modbus_driver.c:537-561 | when no taken item is of that kind the values do not depend on what lies behind the data |
| ModbusSlots.LongTextReadsBehind | clients/modbus/modbus_driver.c:326-333 | the counterexample: a string of length 131071 in a bit area has width zero, and its value is a bit of the byte behind the reply |
| ModbusOrders.DecodeSays | clients/modbus/modbus_codec.c:176-264 | what a number of one, two or four registers says, register by register in each of the four orders: in ABCD the first register is the high one, CDAB exchanges the registers, BADC the bytes, DCBA both |
| ModbusOrders.DecodeSpells | clients/modbus/modbus_codec.c:195-221 | what a string says, character by character: high byte first, or low byte first when the order exchanges bytes, and a blank for each NUL |
| ModbusOrders.LongTextIsCut | clients/modbus/modbus_codec.c:195-207 | of a longer string the first 255 characters |
| ModbusOrders.AloneIsAsRead | clients/modbus/modbus_codec.c:176-264 | reading an address element by element gives what its own cells of its own area say, for all areas, types, orders and lengths |
| ModbusMaster.Master.ExchangeOnce | clients/modbus/modbus_driver.c:170-270 | a success on an answering link means the device carried out the request, and the reply is its reply; losses on either way are errors in transport |
| ModbusMaster.Master.Request | clients/modbus/modbus_driver.c:273-294 | after any losses a success means the request took effect as if it had been sent once; never more than retries + 1 exchanges |
| ModbusMaster.Master.ReadSpan | clients/modbus/modbus_driver.c:506-536 | the data of a span is the memory it asks for, and memory is untouched |
| ModbusMaster.Master.ScatterSpan | clients/modbus/modbus_driver.c:537-561 | the decode loop stores the items the span takes, by the 32 bit test, in order and stops at the first that fails |
| ModbusMaster.Master.SelectArea | clients/modbus/modbus_driver.c:479-486 | the items of one area, in batch order |
| ModbusMaster.Master.ReadGroup | clients/modbus/modbus_driver.c:487-565 | merge, request and scatter of one sorted group leave in its slots what its spans take, for any gap, and other slots as they were; on a clean link it succeeds |
| ModbusMaster.Master.ReadArea | clients/modbus/modbus_driver.c:456-566 | the same for the items of one area of a batch |
| ModbusMaster.Master.AreaHandled | clients/modbus/modbus_driver.c:614-626 | an area is read when its first item comes up, once |
| ModbusMaster.Master.ReadItems | clients/modbus/modbus_driver.c:604-637 | all areas of the batch: every slot holds what the spans of its area gave |
| ModbusMaster.Master.ReadBatch | clients/modbus/modbus_driver.c:568-649 | for every batch within the address space and any merge gap, value i is exactly what the elements taken by the spans of a plan of its area make of it. Without nested elements that is what the cells of address i say, register by register and order by order: for a gap that fits, for any gap when no elements overlap, and for any gap in addresses of one element. On a clean link it succeeds; memory is untouched for every batch |
| ModbusMaster.ReadLong | clients/modbus/modbus_driver.c:568-649 | registers x and y, read as one 32 bit integer under any merge gap: x * 65536 + y, y * 65536 + x, and the two with their bytes exchanged, as a signed number |
| ModbusMerge.GroupIsReady | clients/modbus/modbus_driver.c:479-504 | a group without nested elements meets every precondition of the planner theorems |
| ModbusMerge.SpansAreLegal | clients/modbus/modbus_driver.c:506-536 | whatever the gap and whatever is nested, every span of a batch within the address space is a request that a device answers with data: at most 2000 bits or 125 registers |
| ModbusMerge.SpansAreFull | clients/modbus/modbus_driver.c:487-504 | no two neighbouring spans could have been one: the gap between them is too wide, or together they exceed 2000 bits or 125 registers |
| ModbusMerge.AddressIsRightExactly | clients/modbus/modbus_driver.c:436-561 | without nested elements and for any gap, an address of one element is right, and an array address if and only if each of its elements is taken by one span only |
| ModbusMerge.GapFitsExactly | clients/modbus/modbus_driver.c:488-502 | a configuration reads every mergeable batch right if and only if its merge gap fits: below 0xFFFF_0000, and its double in 32 bits too |
| ModbusMerge.SeparateIsOnce | clients/modbus/modbus_driver.c:487-504 | when no two elements of an area overlap, each is fetched once with any gap |
| ModbusMerge.NestedReadsZero | clients/modbus/modbus_driver.c:495-497 | a register inside a float: whatever the memory holds, the float comes back as the number 0 |
| ModbusMaster.SpanStep | clients/modbus/modbus_driver.c:506-561 | scattering the data of one more legal span stores the elements it takes |
| ModbusMaster.AreaIsGiven | clients/modbus/modbus_driver.c:456-566 | when every span has been stored, every address of the area has what the spans gave |
| ModbusMaster.WideGapListsTooMuch | clients/modbus/modbus_driver.c:568-649 | for every gap that does not fit, a run of the batch read over a clean link that returns lists of more than the two elements asked for |
| ModbusWrite.PackCoils | clients/modbus/modbus_driver.c:654-682 | the buffer holds the flags low bit first, all other bits clear, or the value is refused |
| ModbusWrite.EncodeRegisters | clients/modbus/modbus_driver.c:767-800 | the registers of an address, element after element, odd text filled up with a zero byte |
| ModbusWrite.CoilRequest | clients/modbus/modbus_driver.c:683-752 | single or multiple function code by length, with what the echo must say |
| ModbusWrite.RegisterRequest | clients/modbus/modbus_driver.c:754-837 | single or multiple function code by register count, with what the echo must say |
| ModbusWrite.JobExactly | clients/modbus/modbus_driver.c:683-837 | a value becomes a request if and only if every coil has a flag or number and there are at most 1968, or every element a value of its kind and there are at most 123 registers, or it is text of 1 to 246 characters in an order that keeps the words |
| ModbusWrite.JobDoesImage | clients/modbus/modbus_driver.c:683-837 | the device confirms a write if and only if its cells exist, and then exactly these cells hold the encoded value, whichever function code was used; otherwise nothing changes |
| ModbusWrite.HeldReadsBack | clients/modbus/modbus_codec.c:176-366 | an address whose cells hold its encoded value reads back in canonical form |
| ModbusWrite.CanonicalReturnsAt | clients/modbus/modbus_codec.c:176-366 | what that form is, case by case: a flag comes back as itself, or as 1 or 0 from a register; a number in the range of its type and equal modulo its size; entry e of a list as element e; text cut at its NUL and padded with blanks |
| ModbusWrite.FittingReturns | clients/modbus/modbus_codec.c:176-366 | a value its cells can hold as it is comes back as it was |
| ModbusWrite.CoilsReadBack | clients/modbus/modbus_driver.c:683-752 | the same for coils |
| ModbusWrite.TextReadsBack | clients/modbus/modbus_codec.c:176-224 | the same for text: cut at its NUL, padded with blanks, the pad byte of an odd length playing no part |
| ModbusWrite.NumbersReadBack | clients/modbus/modbus_codec.c:225-366 | the same for numbers and arrays of numbers |
| ModbusWriteBatch.WriteOne | clients/modbus/modbus_driver.c:683-837 | a confirmed write changed exactly the cells of its address |
| ModbusWriteBatch.WriteEntry | clients/modbus/modbus_driver.c:849-880 | unknown areas, read-only areas and offsets out of range are refused before the bus is used, each with its own code |
| ModbusWriteBatch.WriteBatch | clients/modbus/modbus_driver.c:839-884 | a successful batch on an answering link put every value in place, in order; a failed one put the first few in place and nothing else; on a clean link writable addresses succeed |
| ModbusWriteBatch.PutAllHolds | clients/modbus/modbus_driver.c:839-884 | writes of disjoint addresses do not disturb each other |
| ModbusWriteBatch.PutAllElsewhere | clients/modbus/modbus_driver.c:839-884 | every coil and register outside the written ranges, and all inputs, are unchanged |
| ModbusWriteBatch.WriteThenRead | clients/modbus/modbus_driver.c:568-884 | after a batch of disjoint writes every address reads back as the canonical form of its value and nothing else changed |
| ModbusWriteBatch.OddTextPadsWithZero | clients/modbus/modbus_driver.c:776-790 | the unused half of the last register of an odd text is written as zero, so it is preserved if and only if it was zero before |
| ModbusWriteBatch.PadByteIsLost | clients/modbus/modbus_driver.c:776-790 | the counterexample: one character written next to another clears the other |
| ModbusWriteBatch.DisjointIsSeparate | clients/modbus/modbus_driver.c:487-504 | the elements of disjoint addresses do not overlap, so their merged read is faithful |
| ModbusWriteBatch.WriteThenReadBatch | clients/modbus/modbus_driver.c:568-884 | the two driver calls in a row, for disjoint addresses and any merge gap: what a successful write stored, a successful read returns, case by case, and a value that fits comes back as it was; every cell outside is unchanged; on a clean link both succeed for every value that can be written |
| FocasBlocks.Build | clients/focas/focas_codec.c:44-65 | fills the buffer with the frame, byte by byte: four marks, version, function, direction, length, body; or answers 0 |
| FocasBlocks.SplitExactly | clients/focas/focas_codec.c:67-100 | bytes are a frame if and only if they have the marks, a direction from 1 to 4, and are as long as they say; what anything else is refused as |
| FocasBlocks.SplitBuilt | clients/focas/focas_codec.c:44-100 | a built frame splits to its function, direction, length and body, whatever follows |
| FocasBlocks.BodyBegin | clients/focas/focas_codec.c:165-173 | starts an empty block list |
| FocasBlocks.BodyAdd | clients/focas/focas_codec.c:175-186 | appends a block in place and rewrites the count, whatever the buffer holds; nothing changes when it does not fit; a list of blocks grows by that block |
| FocasBlocks.BodyAddPayload | clients/focas/focas_codec.c:188-217 | hangs a payload behind the last block in place, growing that block and filling its length field; refused, with nothing changed, if and only if it is empty, does not fit, or the 28 bytes before it do not begin with 28 |
| FocasBlocks.SecondPayloadExactly | clients/focas/focas_codec.c:200-206 | behind a first payload of any length a second one is accepted if and only if the number 28 stands 28 bytes before the end: in the payload when it has 28 bytes or more, in the block when it has fewer than 27, and for 27 across both |
| FocasBlocks.SecondPayloadIsTaken | clients/focas/focas_codec.c:200-206 | the counterexample: ten bytes behind a block whose first argument is 28 |
| FocasBlocks.SecondPayloadIsRefused | clients/focas/focas_codec.c:200-206 | behind 26 or 27 bytes a second payload is always refused |
| FocasBlocks.FindBlock | clients/focas/focas_codec.c:227-271 | the walk over size fields finds the block or the error of the specification |
| FocasBlocks.BlocksAreInside | clients/focas/focas_codec.c:227-271 | for arbitrary bytes a block that is found lies inside the body and no two found blocks overlap |
| FocasBlocks.CheckBlocks | clients/focas/focas_codec.c:304-335 | success if and only if there is a block and all of them parse and have 0 in bytes 8 and 9; otherwise the first bad one, and its error by these bytes |
| FocasBlocks.CheckOneBlock | clients/focas/focas_codec.c:273-335 | a body of one block: bytes 10 and 11 decide between success, a missing option for 1 and 6, and a refusal for all else |
| FocasBlocks.RequestIsLaidOut | clients/focas/focas_codec.c:165-217 | a built list, with or without a payload, is laid out so: the count, then each block with its size and every field at its place, then the payload |
| FocasBlocks.PrintAndParse | clients/focas/focas_codec.c:165-271 | from bytes laid out as a request every block is found again at its place with its fields, and the payload behind the last |
| FocasPmc.Pmc.PmcRead | clients/focas/focas_values.c:2567-2677 | each value returned was shown by the machine for its own point during the call, whole segment or point by point: two bytes of a word, four of a long, one of a byte, the high one first; an answer that is long enough is returned point for point; the recursion ends; it fails only on an answer that is an error or too short |
| FocasPmc.Pmc.ReadSingly | clients/focas/focas_values.c:2612-2651 | the fallback that asks point by point |
| FocasPmc.ReadFromMemory | clients/focas/focas_values.c:2567-2677 | against a fixed memory a read returns memory[start..start + count), and succeeds if and only if segments are answered whole or at most 64 points are wanted |
| FocasPmc.ShownIsHeld | clients/focas/focas_values.c:2567-2677 | what a machine with a fixed memory shows for a point is what it holds there |
| FocasPmc.Pmc.Points | clients/focas/focas_values.c:2652-2676 | an answer is cut into big endian points of the chosen width |
| FocasPmc.Pmc.WriteBytes | clients/focas/focas_values.c:2724-2734 | the payload is each value in big endian bytes of the chosen width |
| FocasPmc.ImageReads | clients/focas/focas_values.c:2724-2734 | read back as points, the payload is the values cut to the width |
| FocasPmc.ImageCarries | clients/focas/focas_values.c:2724-2734 | byte for byte: value i stands in the two, four or single bytes of its point |
| FocasPmc.PointSays | clients/focas/focas_values.c:2652-2676 | a point shifted together is what its bytes say, high byte first |
| FocasPmc.Pmc.PmcWrite | clients/focas/focas_values.c:2690-2808 | honest over every run: success means that for each point a read made after the last write to it returned exactly the requested value; only the requested values are ever asked for, at their own points; a failure has a failed or short answer or a different value behind it |
| FocasPmc.Pmc.Compare | clients/focas/focas_values.c:2763-2791 | the points are read back up to three times, until they are as wanted |
| FocasPmc.Pmc.WriteSingly | clients/focas/focas_values.c:2796-2805 | the per-point fallback keeps the same promise for all points together |
| FocasPmc.ConfirmedFits | clients/focas/focas_values.c:2763-2791 | a value wider than its points, or negative, is never reported as written |
| FocasPmc.Pmc.PmcBitWrite | clients/focas/focas_values.c:2814-2842 | a bit that is already right is not written; otherwise the only byte ever asked for is one shown BEFORE the write with that bit switched, and success means it was read back; a failure has a failed or short answer or a different value behind it |
| FocasPmc.OneBitDiffers | clients/focas/focas_values.c:2829-2840 | switching a bit changes that bit alone, and nothing exactly when it is already as wanted |
| FocasSession.Session.ExchangeOn | clients/focas/focas_driver.c:132-227 | one exchange: the frame is sent until an answer arrives or the retries are used up, the result is what the last answer is worth, and a link that stays lost shuts every channel and ends the session |
| FocasSession.Session.SendAndReceive | clients/focas/focas_driver.c:152-190 | exactly the sendings that the answers call for, and the last answer |
| FocasSession.TriedIsLost | clients/focas/focas_driver.c:176-190 | a frame is given up if and only if each of its retries + 1 sendings is lost |
| FocasSession.ReceiveBuilt | clients/focas/focas_driver.c:154-172 | a frame that arrives whole is received as it was built |
| FocasSession.ShortIsLost | clients/focas/focas_driver.c:154-172 | a link counts as lost when less than a header arrives, or less than a sound header announces |
| FocasSession.LongBodyIsRefused | clients/focas/focas_driver.c:154-172 | a frame that announces more than 4096 bytes is refused at its header |
| FocasSession.Session.Handshake | clients/focas/focas_driver.c:545-587 | two connections greeted with the counter and the next one, roles by parity, the probe sent on the command channel; it succeeds if and only if both come up and are welcomed, and leaves a connection open that no field holds if and only if the second comes up and is not welcomed; its channels are shut if and only if it probed and every sending of the probe was lost |
| FocasSession.Session.FirstChannel | clients/focas/focas_driver.c:555-563 | the first connection is held as control before it is greeted; it succeeds if and only if the connection comes up and its hello is welcomed |
| FocasSession.Session.SecondChannel | clients/focas/focas_driver.c:565-574 | the second connection is held by no field until its hello has succeeded, so it is left over if and only if it came up |
| FocasSession.Session.AssignRoles | clients/focas/focas_driver.c:576-583 | the connection with the odd counter becomes the transfer channel, the other the command channel |
| FocasSession.Session.Greet | clients/focas/focas_driver.c:453-482 | the hello frame carries the low byte of the counter; it is welcomed if and only if its answer is a plain reply of at least 16 bytes |
| FocasSession.Session.Probe | clients/focas/focas_driver.c:503-527 | sent on the command channel; both channels are shut if and only if every one of its sendings was lost, which its caller does not look at |
| FocasSession.Session.OpenSession | clients/focas/focas_driver.c:590-603 | a handshake after whose failure nothing is held; the same three conditions |
| FocasSession.Session.EnsureSession | clients/focas/focas_driver.c:590-603 | a set session is left alone; otherwise everything half open is dropped first and the outcome is exactly that of a handshake from there; after a failure nothing is held |
| FocasSession.OneHelloLeaks | clients/focas/focas_driver.c:565-574 | a machine that answers one hello and then goes quiet meets the condition of the leak |
| FocasSession.OneIsLost | clients/focas/focas_driver.c:545-603 | opening and closing a session with it leaves a connection open |
| FocasSession.TwoHellosDeafen | clients/focas/focas_driver.c:503-527 | a machine that answers two hellos and then goes quiet meets the condition of a session with shut channels |
| FocasSession.OneIsDeaf | clients/focas/focas_driver.c:503-603 | opening a session with it sets a session whose two channels are shut |
| FocasSession.DeafFailsNext | clients/focas/focas_driver.c:308-316 | the next command on that session fails in transport and ends it |
| FocasSession.ShutIsGivenUp | clients/focas/focas_driver.c:152-190 | on a shut connection, over which nothing can be sent, every exchange ends in a lost link |
| FocasSession.Session.Drop | clients/focas/focas_driver.c:93-108 | the closes, in order, and all fields empty |
| FocasSession.DropClosesTwiceExactly | clients/focas/focas_driver.c:93-108 | dropping closes a connection twice if and only if command and control are the same one |
| FocasSession.DropClosesTwiceIffEven | clients/focas/focas_driver.c:93-108 | in a session that is exactly an even hello counter |
| FocasSession.OneIsClosedTwice | clients/focas/focas_driver.c:93-108 | a run with counter 2 whose drop closes the command connection first and last |
| FocasSession.Session.Close | clients/focas/focas_driver.c:110-121 | a goodbye on both channels, and afterwards only the connections lost in a failed handshake are open |
| FocasSession.Session.Command | clients/focas/focas_driver.c:308-316 | a command list goes out on the command channel and its answer is the reply; on a session whose channels were shut it fails in transport and the session is over |
| FocasSession.Session.TransferExchange | clients/focas/focas_driver.c:263-305 | success if and only if the answer is a plain reply, or a status answer whose code is 0; any other code is the error of the machine, fewer than four bytes or another function are errors of their own |
| FocasSession.TakenExactly | clients/focas/focas_driver.c:263-305 | the same byte by byte: a plain reply, or a status answer whose first four bytes are 0 |
| FocasSession.StatusErrorIs | clients/focas/focas_driver.c:263-305 | the error of a status answer, from its bytes 3 and 5 |
| FocasSession.Session.SendOnly | clients/focas/focas_driver.c:322-340 | a data frame goes out on the transfer channel and no answer is awaited |
| FocasSession.Session.SendText | clients/focas/focas_driver.c:395-414 | the text in order in pieces on the transfer channel; all of it went out if and only if the call succeeds, otherwise a prefix |
| FocasSession.Session.ProgramDownload | clients/focas/focas_driver.c:375-434 | start frame, then exactly the text in order in pieces of at most 1400 bytes, then the end frame, all on the transfer channel; success if and only if the machine took the start frame, all text went out, and it took the end frame; after a failure what went out is a prefix of the text; the start frame has 516 bytes, the kind in byte 1 and the name from byte 6 on |
| FocasSession.Session.Download | clients/focas/focas_driver.c:375-434 | the same with a session opened on demand: a success delivered the whole text on the transfer channel and the machine took the end frame |
| FocasSession.ChunksCarryText | clients/focas/focas_driver.c:400-414 | the pieces put together are the text, and all but the last are full |
| FocasSession.Session.Run | clients/focas/focas_driver.c:93-603 | over every run of open, command, download and close with failures anywhere the log stays orderly, and a set session has two different open connections greeted with opposite parities |
| FocasSession.ChannelsApart | clients/focas/focas_driver.c:230-340 | in an orderly log no connection ever carries both transfer and command frames: transfer frames only where the hello was odd, 0x21 only where it was even |
| FocasSession.OneParity | clients/focas/focas_driver.c:545-587 | no connection is ever greeted with both parities |
| FocasSession.NothingAfterClose | clients/focas/focas_driver.c:93-108 | a closed connection is not used again and, with an odd counter, not closed again |
| FocasDirectory.RecordReads | clients/focas/focas_values.c:1694-1716 | a record with a comment free of NULs and trailing blanks reads back as it was laid out |
| FocasDirectory.Directory.Comment | clients/focas/focas_values.c:1699-1716 | the comment ends at its first NUL and loses its trailing blanks |
| FocasDirectory.Directory.TakeRecords | clients/focas/focas_values.c:1692-1736 | the records of an answer that are no empty slots and lie above the floor, how many they are and the highest number |
| FocasDirectory.Directory.ReadPage | clients/focas/focas_values.c:1661-1739 | one page: the error of the machine, or what its answer adds |
| FocasDirectory.Directory.ProgramDirectory | clients/focas/focas_values.c:1748-1785 | the walk through the pages: an error on the first page is the result, a later one ends the walk with what was found |
| FocasDirectory.PagesAdvance | clients/focas/focas_values.c:1762-1783 | for any machine each page asks further on and brings only numbers above all earlier ones |
| FocasDirectory.DirectoryIsComplete | clients/focas/focas_values.c:1748-1785 | against a machine that gives the eight smallest entries from a number on, the walk gathers the directory in order, up to 64 pages and without an entry numbered 0; it is the whole directory if and only if that leaves nothing out |
| FocasDirectory.DirectoryIsAPrefix | clients/focas/focas_values.c:1762-1772 | against a machine that pages or fails, a success is a stretch of whole pages from the front; it is the whole directory if and only if it has no entry 0, fits 64 pages, and no error came before its end |
| FocasDirectory.NumberZeroIsLost | clients/focas/focas_values.c:1718-1723 | the counterexample: a machine whose only program has number 0 is listed as empty |
| FocasDirectory.StubbornMachine | clients/focas/focas_values.c:1762-1783 | a machine that ignores the start number is listed exactly once, in at most two questions |
| FocasDirectory.ListDirectory | clients/focas/focas_values.c:1748-1785 | the two together: the call returns that directory, or when links break some pages of it from the front, or the error of the first page |
| FocasProgram.CountLines | clients/focas/focas_values.c:2110-2121 | the number of line feeds |
| FocasProgram.Library.Upload | clients/focas/focas_values.c:3788-3888 | runs of lines put together until the text ends, and every way the loop can end |
| FocasProgram.LinesAdvance | clients/focas/focas_values.c:3860-3873 | the line number grows with every question, whatever is answered |
| FocasProgram.UploadIsTheText | clients/focas/focas_values.c:3788-3888 | from a machine that gives whole lines, however many at a time, the upload is exactly the program, and one that does not fit the buffer is refused |
| FocasProgram.UploadIsAPrefix | clients/focas/focas_values.c:3824-3833 | from a machine that serves or fails, a success is a stretch of whole lines from the front; it is the whole program if and only if it fits and no error came before its end |
| FocasProgram.BrokenLinkCutsProgram | clients/focas/focas_values.c:3824-3833 | the counterexample: of two lines the first alone is a success when the link breaks between them |
| FocasProgram.EndingIsTheText | clients/focas/focas_values.c:3860-3888 | whatever is gathered so far, the answer that ends the loop completes the program or refuses it for size |
| FocasProgram.Fetch | clients/focas/focas_values.c:3788-3888 | the same for the call itself, with and without broken links |
| FocasProgram.CheckNumberLine | clients/focas/focas_values.c:3611-3626 | the first text of the program is O and a digit |
| FocasProgram.CheckTail | clients/focas/focas_values.c:3682-3688 | the last character that is not blank is a percent sign |
| FocasProgram.HasTailExactly | clients/focas/focas_values.c:3682-3688 | that sign is byte 37, with nothing behind it but bytes 10, 13 and 32 |
| FocasProgram.ProgramFrame | clients/focas/focas_values.c:3671-3710 | fills the buffer with the framed text and a NUL, or says why not; the buffer is never overrun |
| FocasProgram.FrameProgram | clients/focas/focas_values.c:3734-3745 | a buffer of the length and four more always suffices |
| FocasProgram.FrameShape | clients/focas/focas_values.c:3671-3710 | framed text begins with LF, its last non-blank is a percent sign, and it contains the program unchanged |
| FocasProgram.FrameOnce | clients/focas/focas_values.c:3671-3710 | framing twice is framing once, and framed text is accepted again |
| FocasProgram.ProgramDownload | clients/focas/focas_values.c:3712-3765 | a successful download named the folder of the path in its start frame, put exactly the framed text on the transfer channel, and the machine took the end frame; text without a number line is refused before anything is sent |
| FocasProgram.DirPartIsFolder | clients/focas/focas_values.c:3628-3652 | the folder of a path is everything up to and with its last slash, or all of it without one, at most 508 bytes, and nothing when it is blank |
| FocasRecord.ParseItemName | clients/focas/focas_driver.c:623-654 | the backwards scan for the last @ and the digit loop, in 64 bit arithmetic, give the item name and the byte offset |
| FocasRecord.PrintedNameReads | clients/focas/focas_values.c:333-334 | a name printed with an offset is read back as that name and offset, whatever the name contains |
| FocasRecord.RecordRoute | clients/focas/focas_driver.c:623-681 | record i of an item reaches block b at byte 8i if and only if i is not 0 or name and block number do not spell another item of the table |
| FocasRecord.RecordGoesAstray | clients/focas/focas_driver.c:623-681 | the counterexample: record 0 of block 1 of A, where the table has A1 and no A, is block 0 of A1 |
| FocasRecord.BuildItem | clients/focas/focas_driver.c:683-722 | the request body of an item, or an error beyond twelve blocks |
| FocasRecord.ReadOne | clients/focas/focas_driver.c:724-832 | one point: unknown names and bad lengths are refused before the bus is used; otherwise the item is asked for on the command channel and the result is the field of the reply, if every block is fine |
| FocasRecord.TakeField | clients/focas/focas_driver.c:777-832 | block index, declared payload length, offset and width, with the error of each |
| FocasRecord.TableIsRead | clients/focas/focas_values.c:196-216 | in a block that carries a table of records, record i is the i-th of the table |
| FocasRecord.BytesAreRecord | clients/focas/focas_values.c:196-216 | a laid out record spells its number, high byte first, and its decimals in its last two bytes |
| FocasRecord.RecordReads | clients/focas/focas_values.c:196-216 | eight bytes that spell a signed number and its decimals are read as that |
| FocasRecord.DecodeRecord | clients/focas/focas_values.c:196-216 | the shifts give the signed 32 bit number; decimals outside 0..9 count as none |
| FocasRecord.Scale | clients/focas/focas_values.c:240-250 | the loop divides by ten to the number of decimals |
| FocasRecord.RecordAt | clients/focas/focas_values.c:321-350 | record index of a block as data / 10^dec, through printing, parsing, the block walk and the byte decode; index outside 0..63 is refused |
| MtConnect.WordsThatCount | clients/mtconnect/mtconnect_driver.c:128-134 | the states that are alarms are Fault and Warning, and the category of a condition is CONDITION, letter by letter in any case; no other word is |
| MtConnect.Driver.NoteCondition | clients/mtconnect/mtconnect_driver.c:166-192 | after any run the pushed events are those of the specification, and the table holds the first ids with their last states |
| MtConnect.FirstSight | clients/mtconnect/mtconnect_driver.c:128-192 | the first condition a driver sees: if somebody listens and it is Fault or Warning one event is pushed, with its id, value, severity and code, and otherwise none |
| MtConnect.Driver.ReadBatch | clients/mtconnect/mtconnect_driver.c:234-297 | the conditions among the requested items are noted in the order asked for |
| MtConnect.Driver.FindReading | clients/mtconnect/mtconnect_xml.c:735-750 | the first reading with an id |
| MtConnect.Driver.PushAlarm | clients/mtconnect/mtconnect_driver.c:143-164 | an event is pushed only while somebody listens |
| MtConnect.Driver.Close | clients/mtconnect/mtconnect_driver.c:388-401 | every state is forgotten |
| MtConnect.NewsAt | clients/mtconnect/mtconnect_driver.c:129-192 | the positions of all observations that are news: heard, alarming, among the first 64 distinct ids since the last close, and different from the previous observed state of that id |
| MtConnect.EventsAreTheNews | clients/mtconnect/mtconnect_driver.c:129-192 | the events of a run are exactly the news, in order |
| MtConnect.KnownForGood | clients/mtconnect/mtconnect_driver.c:183-190 | the first 64 ids stay in the table and no later one gets in |
| MtConnect.FoundMeans | clients/mtconnect/mtconnect_driver.c:170-182 | comparing with the remembered state is comparing with the last observed one, even though equal spellings are not stored again |
| MtConnect.NewMeans | clients/mtconnect/mtconnect_driver.c:183-191 | an id the table does not hold is news at first sight while there is room, and never otherwise |

## Left out

- Sockets, serial ports, timeouts, sleeps and mutexes: an exchange is one step, and bytes that arrive are a value.
- The serial line's collector (`mb_rtu_read_reply`), which ends a reply by a quiet line, raw frames and the calls that echo frames.
- JSON building and memory allocation: values are Dafny values and there are no NOMEM paths.
- Conversions of JSON text and fractions to integers and flags: a value has the kind its address wants, or is refused.
- Floating point: Modbus float patterns are opaque words, scaled machine values are reals.
- Quick sort itself: `ModbusItems.SortItems` gives some order by offset and element, and the theorems hold for any order of ties.
- `ModbusMaster.Master.ReadBatch`: what a read behind the data finds is an arbitrary byte; of a batch that leaves the address space nothing is said beyond the errors.
- `ModbusMaster.Master.ExchangeOnce`: a reply that arrives is assumed to answer its own request. Over TCP the transaction id sees to that, except under 0xFFFF; on RTU nothing in the envelope does, and the assumption is that the link delivers no reply late. Both are shown in `ModbusLink` and not composed with the batch calls.
- Broadcast reads and writes are modelled as unanswered; what a device does with them is whatever the link says.
- The FOCAS item table and the parsing of bare command codes are data: `Items` holds any table and any parser.
- `FocasPmc.Pmc.PmcRead`: point numbers are those given to the driver, which cuts them to 32 bits when it builds the block; the letter of the family is already its number, -1 when there is none.
- `FocasPmc.Pmc.PmcWrite`: likewise, and a payload too long for the request buffer is one of the failures the machine function may answer with.
- FOCAS decoding of types other than the bytes of a record, the tool, macro, parameter and alarm operations, and the error texts.
- Program upload path rules and the type check in front of the loop: they only choose the name that is asked for.
- MTConnect documents: parsing XML and turning readings into JSON.
- Even FOCAS hello counters beyond what is said above, and counters above 8 bits other than through their low byte.
- The other drivers (FINS, MC, LSV2, Meldas, KND, HTTP, mock) and all plugins: the same planner again, or fixed frames and tables.
