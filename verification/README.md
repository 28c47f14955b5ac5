# A verified model of the Modbus engine

The repository is a Swift package around libmodbus: a Modbus client and server in C, over serial lines (RTU) and over TCP, and a Swift actor that moves integers and strings through 16-bit registers. This project models the protocol engine as a closed system of client, wire and server, and proves what it is for.

- **The wire** (`Bytes`, `Crc16`, `CrcErrors`, `Backend`, `Corruption`, `FunctionErrors`). Frames of both backends. The RTU checksum with its two lookup tables, taken over value by value, is proved to be the bit-serial CRC with the reflected polynomial 0xA001 and initial value 0xFFFF of section 6.2.2 of MODBUS over Serial Line V1.02. Every burst of up to 16 bits and every odd number of flipped bits is detected, in frames of any length; 16 is the limit. What slaves, servers and clients do with frames so corrupted follows: a reply is never believed, a request that keeps its length never served, a retransmission heard.
- **The receiver** (`Receive`). The incremental state machine on a line that hands out any number of bytes at a time and falls silent when it likes. Result, stored bytes and bytes left over are those of a one-shot parse.
- **The server** (`Memory`, `Server`, `RequestMeaning`, `ReplyLoop`). `Serve` is an interpreter of request PDUs over four tables. The in-place `modbus_reply` on buffers and arrays is proved equal to it, and it refines an ideal memory, `Perform`; what it answers to requests that no client here builds is stated in the numbers of the protocol.
- **The client** (`Protocol`, `BitTables`, `Errors`, `ClientCalls`). Builders, `check_confirmation`, decoders; the bit packers and unpackers with one meaning. Each client function, run against a server object, returns what the ideal memory returns.
- **Whole runs** (`Refinement`, `Lengths`, `TransactionIds`, `SharedBus`). Any sequence of calls on either backend, byte for byte; the agreement of all length computations; late replies on TCP across the wrap of the transaction identifier, with the one case in which they are not harmless; a slave that listens to the traffic of other slaves, and exactly which traffic keeps it aligned.
- **The Swift layer** (`SwiftWords`, `SwiftDevice`) and **strlcpy** (`Strlcpy`).

`dafny verify dfyconfig.toml` checks everything. Code that updates state in place is modelled by classes, arrays and loops; the specification functions they are proved against carry the lemmas.

What the theorems rest on, as the code does: if the server goes on to use its table, the request holds the data it announces (`Server.Readable`) and the reply fits its buffer (`Server.Servable`, the exact condition; every request the client functions build within the limits of `include/modbus.h:70-82` is proved to be so, whatever the tables); pauses longer than a timeout fall between frames (for `ReceiveMsg` itself they may fall anywhere); bit tables hold 0 and 1 (`Memory.WellFormed`, proved to be kept); the Swift host is little-endian; `check_confirmation` does not compare the echoed address or value of functions 5, 6, 15 and 16, and nothing here says it does.

Where comments and code disagree the code is modelled: the comment on `_modbus_receive_msg` (`modbus.c:315-326`) lists EMBUNKEXC among the errors it sets, and the function never sets it.

## Model

| member | source | states |
|---|---|---|
| Bytes.HalvesOfInt | Sources/CModbus/modbus-tcp.c:128-131 | the two bytes stored for any int, negative ones included, are the halves of its low 16 bits |
| Bytes.RegistersRoundTrip | Sources/CModbus/modbus.c:1247-1250 | register values written high byte first are recovered by the decoding expression, whatever follows them |
| Crc16.Crc16 | Sources/CModbus/modbus-rtu.c:150-164 | the two-table loop yields, as high and low byte of its result, the low and high byte of the bit-serial CRC register, for every buffer |
| Crc16.TableEntry | Sources/CModbus/modbus-rtu.c:49-106 | all 256 entries of the two tables together are eight shifts of the index with polynomial 0xA001 |
| Crc16.TableStep | Sources/CModbus/modbus-rtu.c:157-161 | one turn of the loop is one byte of the bit-serial definition, crc_hi being the low half of the register |
| Crc16.SerialByte | Sources/CModbus/modbus-rtu.c:150-164 | feeding the eight bits of a byte one by one equals one exclusive-or and eight shifts |
| Crc16.StepsLinear | Sources/CModbus/modbus-rtu.c:157-161 | any number of shifts is linear over exclusive-or |
| Backends.SendMsgPre | Sources/CModbus/modbus-rtu.c:173-180 | in place: the CRC is appended (RTU) or the MBAP length is stored in bytes 4 and 5 (TCP); nothing else in the buffer changes |
| Backends.CheckIntegrityOf | Sources/CModbus/modbus-rtu.c:373-408 | on RTU 0 for a message to another slave, else the length, or -1 with EMBBADCRC, as the last two bytes are the CRC of the others or not; on TCP always the length |
| Backends.FrameParts | Sources/CModbus/modbus-tcp.c:137-163 | slave, PDU, protocol field and transaction identifier of a frame are recovered from its bytes |
| Backends.MbapLength | Sources/CModbus/modbus-tcp.c:165-174 | six plus the MBAP length field is the length of the frame |
| Backends.SealedIsIntact | Sources/CModbus/modbus-rtu.c:173-180 | a message sealed by its sender passes the integrity check of the slave it is for, and a broadcast that of every slave |
| CrcErrors.TwoBytesToZero | Sources/CModbus/modbus-rtu.c:173-180 | two further bytes bring the register to zero exactly if they are its low and its high byte, in this order |
| CrcErrors.Residue | Sources/CModbus/modbus-rtu.c:390-396 | the CRC comparison succeeds exactly if the register over the whole frame, CRC included, is zero |
| CrcErrors.UndetectedErrors | Sources/CModbus/modbus-rtu.c:390-396 | flipped bits go unnoticed exactly if the error pattern alone leads from a clear register to a clear register |
| CrcErrors.IntegrityExactly | Sources/CModbus/modbus-rtu.c:373-408 | for every message of three or more bytes: 0 if and only if its address is neither this slave nor 0; otherwise the length if and only if the register over all of it is clear, and -1 if and only if it is not |
| CrcErrors.ZeroAfter | Sources/CModbus/modbus-rtu.c:150-164 | up to 16 bits of input bring exactly one register value to zero |
| CrcErrors.BurstDetected | Sources/CModbus/modbus-rtu.c:373-408 | after any error burst within 16 consecutive bits, in a frame of any length, the register is not clear and every slave gets -1, or 0 if the address has become that of another |
| CrcErrors.SerialParity | Sources/CModbus/modbus-rtu.c:150-164 | the parity of register and consumed bits is kept over every input |
| CrcErrors.OddErrorsDetected | Sources/CModbus/modbus-rtu.c:373-408 | the same after any odd number of flipped bits |
| CrcErrors.TwoBytesDetectable | Sources/CModbus/modbus-rtu.c:373-408 | whatever happens to two neighbouring bytes of a frame, and to no other, is an error of the kind that is always detected |
| CrcErrors.SeventeenBitsMayPass | Sources/CModbus/modbus-rtu.c:390-396 | 16 is sharp: flipping the 17-bit pattern of the polynomial at the front of any valid frame keeps its CRC valid |
| Corruption.HeardExactly | Sources/CModbus/modbus-rtu.c:318-339 | one receive call of a slave on any whole frame: the flag goes up exactly for another address, whatever the checksum; a frame to this slave or to all is returned if the register over it is clear, else gives -1 and leaves the flag down |
| Corruption.RetransmissionHeard | Sources/CModbus/modbus-rtu.c:318-339 | a request with a detectable error that is still delimited at its length: the call gives -1 and the retransmission is returned by the next one; if the address has become that of another slave, the flag it raises comes down in the pause before the retransmission, which is returned |
| Corruption.StillWhole | Sources/CModbus/modbus.c:245-312 | a request stays delimited at its length if the function code and the byte count, if it has one, are intact |
| Corruption.OthersIgnored | Sources/CModbus/modbus.c:459-470 | whatever bytes arrive, an RTU server sends nothing and changes nothing unless a frame is delivered that is for it or for all and has a clear register |
| Corruption.CorruptRequestIgnored | Sources/CModbus/modbus-rtu.c:390-407 | any request frame with a detectable error that is still delimited at its length: nothing is sent and no table changes |
| Corruption.ClientCheckExactly | Sources/CModbus/modbus.c:955-965 | anything delivered to an RTU client as a reply: with the address of its slave or 0, EMBBADCRC exactly if the register is not clear, and otherwise what check_confirmation says; with another address it is refused, as EMBBADSLAVE, EMBBADEXC or EMBBADDATA |
| Corruption.CorruptReplyRefused | Sources/CModbus/modbus.c:955-965 | the reply to any call, with any burst up to 16 bits or any odd number of flipped bits, is never taken for success, not even where a corrupted function or byte count makes the receiver stop early; if it is delivered whole with the address of the slave or 0, the errno is EMBBADCRC |
| FunctionErrors.WrongWrite | Sources/CModbus/modbus.c:417-439 | the failing input for errors in the function code: three flipped bits in a request to write four registers make the receiver find an intact request to write one, and the server serves it |
| Receive.Line.Select | Sources/CModbus/modbus.c:367-381 | without a timeout the wait ends at the next byte, with one it ends at a pause, and no byte is lost |
| Receive.Line.Recv | Sources/CModbus/modbus.c:384-405 | an arbitrary number of the waiting bytes, from one to the number asked for, leaves the line for the buffer; whether they fit behind those already there is reported |
| Receive.NextStep | Sources/CModbus/modbus.c:417-439 | after each step, the function-to-meta fall-through included, the state knows exactly the table's length, and gives up exactly if the frame exceeds the largest ADU |
| Receive.ReadSome | Sources/CModbus/modbus.c:366-411 | one turn of the loop stores the next bytes of the traffic behind those read before, or reports the pause or the first byte that does not fit |
| Receive.ReceiveMsg | Sources/CModbus/modbus.c:328-456 | for a buffer of any size, with or without a byte timeout: no byte is stored outside the buffer if and only if Stored bytes fit it; and then, for every way the line hands out its bytes, the return value, the errno of a -1, the bytes stored and the bytes left are those of the one-shot parse, and the rest of the buffer is untouched; it terminates |
| Receive.ParsePrefix | Sources/CModbus/modbus.c:245-312 | a whole frame is found whatever follows it on the line |
| Receive.FrameParses | Sources/CModbus/modbus.c:245-312 | a frame whose PDU has the length its own meta bytes give is delivered at exactly its length, checksum included |
| Receive.DeliveredWhole | Sources/CModbus/modbus.c:328-456 | what a receive call delivers is a prefix of what arrived, and by itself one whole frame |
| BitTables.PackBitsAt | Sources/CModbus/modbus.c:604-627 | bit k of the packed table is cell k, and the padding of the last byte is zero |
| BitTables.BitsAreDigits | Sources/CModbus/modbus.c:975-982 | bit k of a wire byte is its binary digit of weight 2 to the k: the first cell is the least significant bit |
| BitTables.UnpackPack | Sources/CModbus/modbus.c:967-983 | unpacking inverts packing for tables of any length |
| BitTables.PackUnpack | Sources/CModbus/modbus-data.c:43-55 | packing inverts unpacking exactly if the padding bits of the last byte are clear |
| BitTables.PackersAgree | Sources/CModbus/modbus-data.c:59-76 | on 0/1 cells the three packers compute the same bytes |
| BitTables.ResponseIoStatus | Sources/CModbus/modbus.c:604-627 | the packed cells of the range are appended to the response, the bytes behind them stay |
| BitTables.AppendByte | Sources/CModbus/modbus.c:1189-1204 | the inner loop packs up to eight source cells, non-zero meaning on, into one request byte and touches no other |
| BitTables.AppendBits | Sources/CModbus/modbus.c:1185-1204 | the two loops append exactly the packed truth values of the source cells |
| BitTables.GetByteFromBits | Sources/CModbus/modbus-data.c:59-76 | the packed value of at most eight cells, with the clamp to eight |
| BitTables.SetBitsFromBytes | Sources/CModbus/modbus-data.c:43-55 | the cells of the range are the unpacked bits, all other cells stay |
| BitTables.SetBitsFromByte | Sources/CModbus/modbus-data.c:32-39 | eight cells are the unpacked bits of the value, all other cells stay |
| BitTables.ReadByteInto | Sources/CModbus/modbus.c:975-982 | up to eight destination cells are the bits of one response byte, all other cells stay |
| BitTables.ReadBitsInto | Sources/CModbus/modbus.c:967-984 | exactly nb destination cells are the unpacked response bytes, the cells behind them stay |
| Memory.WritesFirst | Sources/CModbus/modbus.c:874-906 | on the ideal memory, a combined write and read returns the table after the write, for any overlap, and keeps every register outside the written range |
| Memory.ReadBack | Sources/CModbus/modbus.c:823-848 | registers an accepted write has stored are readable with the same address and count and hold what was written |
| Server.ServeInvariant | Sources/CModbus/modbus.c:650-917 | for every request to which the code replies inside its buffer, on either backend: sizes and input tables never change, coils stay 0 or 1, and an exception reply leaves all tables as they were |
| Server.RunInvariant | Sources/CModbus/modbus.c:650-917 | the same over every sequence of requests |
| RequestMeaning.ReadableExactly | Sources/CModbus/modbus.c:801-906 | of the requests the receiver delimits, all hold what the server goes on to use, except exactly the multiple writes inside the table whose byte count announces less than their quantity needs |
| RequestMeaning.SingleCoil | Sources/CModbus/modbus.c:756-783 | function 5, any PDU: 85 02 if and only if the address is outside, 85 03 if and only if it is inside and the value neither FF00 nor 0000, no table changed in both; otherwise the request comes back and exactly that coil becomes 1 or 0 |
| RequestMeaning.SingleRegister | Sources/CModbus/modbus.c:784-800 | function 6, any PDU: 86 02 and nothing changed for an address outside, else the request comes back and exactly that register holds the value |
| RequestMeaning.BitsRead | Sources/CModbus/modbus.c:666-707 | functions 1 and 2, any address and quantity: exception 2 for a range outside, else bit k of the data is cell k of the range and the padding is zero |
| RequestMeaning.RegistersRead | Sources/CModbus/modbus.c:708-755 | functions 3 and 4, any address and quantity: exception 2 for a range outside, else the registers of the range, high byte first |
| RequestMeaning.CoilsWritten | Sources/CModbus/modbus.c:801-822 | function 15: exception 2 and nothing changed for a range outside, else coil k of the range is bit k of the data, all others stay, and the first five bytes come back |
| RequestMeaning.RegistersWritten | Sources/CModbus/modbus.c:823-848 | function 16: the same for registers, whose values stand behind the byte count, high byte first |
| RequestMeaning.RegistersExchanged | Sources/CModbus/modbus.c:874-906 | function 23: exception 2 and nothing changed if one of the two ranges is outside, else the values are stored and the read range is returned as it is then |
| RequestMeaning.OtherFunctions | Sources/CModbus/modbus.c:849-914 | function 17 gives its twelve bytes, function 7 nothing, every function not in the switch exception 1; none of them changes a table |
| RequestMeaning.ServerSends | Sources/CModbus/modbus.c:650-917 | a request of any function, slave address, transaction and protocol field, as bytes: left alone on RTU if it is for another slave, else answered by a frame with its address and identifier and the PDU that the rows above describe |
| RequestMeaning.OneByteRequests | Sources/CModbus/modbus.c:256-261 | the frames of report-slave-id and read-exception-status are delivered whole on both backends; the first is answered with the slave id, the second not at all |
| RequestMeaning.RequestFormat | Sources/CModbus/modbus.c:946-1338 | the request of every client call: function code, address, quantity or value, byte count and data, the bits being the truth of the cells |
| Protocol.CheckAtPdu | Sources/CModbus/modbus.c:477-602 | for any request and any received reply, the result depends on the slave or transaction check and the two PDUs alone, and is the acceptance condition or the right errno |
| Protocol.ExactAcceptance | Sources/CModbus/modbus.c:477-602 | a received reply is accepted if and only if it comes from the right slave or transaction and has the function, the exact byte count for reads (although it is halved with truncation) or the quantity for multiple writes |
| Protocol.CheckInNumbers | Sources/CModbus/modbus.c:477-602 | the result for every request of a client call and every reply, in numbers: each errno, exception codes below 12 of this request passed on and all others made EMBBADEXC, and the accepted counts |
| Protocol.CheckOtherFunctions | Sources/CModbus/modbus.c:477-602 | the same for requests of other functions: only a report-slave-id reply, and a reply of three bytes to a function 0, is ever accepted; a reply to read-exception-status never is |
| Protocol.AcceptedBytes | Sources/CModbus/modbus.c:1071-1077 | a reply received from any traffic and accepted for a read holds exactly the bytes the decoding loop reads |
| Refinement.RequestCarries | Sources/CModbus/modbus.c:946-1338 | every request built for a call within limits carries that call, has the length the receiver computes and at most 253 bytes of PDU |
| Refinement.ServeRefines | Sources/CModbus/modbus.c:650-917 | given the request of a call the server answers and changes its tables as the call means, exception included |
| Refinement.ReplyUnderstood | Sources/CModbus/modbus.c:477-602 | the reply to a call, whatever the tables hold, is checked and decoded to what the ideal memory returns |
| Refinement.RequestArrives | Sources/CModbus/modbus.c:328-456 | the request frame of a call is delivered whole and intact with its slave, identifier and PDU |
| Refinement.ReplyPasses | Sources/CModbus/modbus.c:477-602 | a reply frame to a call is delivered whole, intact, and judged on its PDU alone |
| Refinement.NothingDelivered | Sources/CModbus/modbus.c:366-436 | if no frame arrives the client fails, with EMBBADDATA exactly if a reply with a byte count over 251 has begun |
| Refinement.ExchangeRefines | Sources/CModbus/modbus.c:946-1338 | one call from request bytes to decoded reply, on either backend, with any slave, identifier and tables, returns and does what the ideal memory does; what a reply with a wrong checksum comes to is stated by `Corruption.ClientCheckExactly` |
| Refinement.RunRefines | Sources/CModbus/modbus.c:650-917 | any sequence of the nine calls returns the outcomes and leaves the tables of the ideal memory |
| Refinement.WritesBeforeReads | Sources/CModbus/modbus.c:1268-1338 | over the wire, a combined write and read returns the registers after the write and leaves the others alone |
| Refinement.CoilsOverWire | Sources/CModbus/modbus.c:1163-1219 | coils written over the wire are 1 for every source cell other than 0, and all other coils stay |
| Refinement.QuantityLimits | Sources/CModbus/modbus.c:991-1338 | EMBMDATA is returned exactly for more than 2000 bits or 125 registers to read, 1968 bits or 123 registers to write, and 121 registers to write in a combined write and read |
| Refinement.FailuresChangeNothing | Sources/CModbus/modbus.c:991-1338 | a call fails if and only if its quantity is over the limit (EMBMDATA) or its range outside the table (EMBXILADD), and then no table changes |
| Lengths.RequestLengths | Sources/CModbus/modbus-tcp.c:165-174 | a request frame is as long as the receiver's tables and the MBAP header say, and at most 256 (RTU) or 260 (TCP) bytes; a request without data fits the twelve bytes its builder sets aside |
| Lengths.FrameDelimits | Sources/CModbus/modbus.c:417-439 | the receiver finds the end of a frame if and only if its PDU has the length its meta bytes announce and the frame fits the largest ADU |
| Lengths.RequestDelimited | Sources/CModbus/modbus.c:245-312 | the requests the receiver delimits, by number: PDUs of 5 bytes for functions 0 to 6, the announced data for 15, 16 and 23, and one byte for every other function |
| Lengths.ReplyDelimited | Sources/CModbus/modbus.c:245-312 | the replies it delimits, by number: 5 bytes for 5, 6, 15 and 16, the announced data for 0 to 4, 17 and 23, two bytes for every other |
| Lengths.AnswerLengths | Sources/CModbus/modbus.c:280-312 | every PDU the server answers with announces its own length if and only if it has at most 257 bytes; an exception has two bytes, a normal answer as many as follow from the request |
| Lengths.HighFunction | Sources/CModbus/modbus.c:630-642 | a function code from 0x80 on loses the exception bit in its exception reply, which the receiver can delimit if and only if the remaining function has replies of two bytes |
| Lengths.ReplyInside | Sources/CModbus/modbus.c:657 | the frame of the reply fits the 260 bytes of `rsp` if and only if the request is servable |
| Lengths.ComputedLength | Sources/CModbus/modbus.c:134-165 | for a request of any function: undefined for report-slave-id, else header, PDU length of a normal answer and checksum |
| Lengths.ReplyLengths | Sources/CModbus/modbus.c:650-917 | every reply to a request that arrives whole, of any function below 0x80, slave, transaction and protocol field: it fits the buffer of modbus_reply exactly if the request is servable, and the receiver delimits it exactly if it fits the largest ADU; inside the buffer the MBAP header agrees; if neither exception nor slave id it is as long as the client computes; the reply to a single write fits twelve bytes |
| Lengths.CallReplyLengths | Sources/CModbus/modbus.c:134-165 | the exact length of the server's reply to each client call, which the receiver, the MBAP header and, if no exception, the client's own computation agree with, and which fits the buffer of the client function |
| Lengths.RegisterCountReach | Sources/CModbus/modbus.c:708-729 | the reply to a register read stays inside the buffer exactly up to 127 registers on RTU and 125 on TCP, and the receiver delimits it exactly up to 125, so the limit is sharp and RTU replies of 126 and 127 are sent but refused |
| Lengths.BitCountReach | Sources/CModbus/modbus.c:666-685 | the reply to a bit read stays inside the buffer exactly up to 2040 bits on RTU and 2008 on TCP, and the receiver delimits it exactly up to 2008 |
| ReplyLoop.Mapping.constructor | Sources/CModbus/modbus.c:1484-1559 | four fresh tables of zeros, which are well formed |
| ReplyLoop.BuildResponseBasis | Sources/CModbus/modbus-tcp.c:137-157 | the buffer holds a header for the given slave, function and identifier |
| ReplyLoop.ResponseException | Sources/CModbus/modbus.c:630-642 | the buffer holds the exception PDU for function and code |
| ReplyLoop.AppendRegisters | Sources/CModbus/modbus.c:722-726 | the registers of the range are appended, high byte first |
| ReplyLoop.StoreRegisters | Sources/CModbus/modbus.c:836-840 | the registers of the range are replaced by the message's values, all others stay |
| ReplyLoop.ReplyBits | Sources/CModbus/modbus.c:666-705 | the two bit reads of any quantity: packed cells, or the exception for a range outside the table, or the report that the reply would not fit its buffer, exactly when it would not |
| ReplyLoop.ReplyRegisters | Sources/CModbus/modbus.c:708-755 | the two register reads of any quantity: register bytes, or the exception, or the report that the reply would not fit its buffer, exactly when it would not |
| ReplyLoop.ReplyWriteOne | Sources/CModbus/modbus.c:756-800 | the single writes change one cell and echo the request, or send the exception for address or value and change nothing |
| ReplyLoop.ReplyWriteCoils | Sources/CModbus/modbus.c:801-822 | the coils of the range become the request's bits, and address and quantity are returned |
| ReplyLoop.ReplyWriteRegisters | Sources/CModbus/modbus.c:823-848 | the registers of the range become the request's values, and address and quantity are returned |
| ReplyLoop.ReplySlaveId | Sources/CModbus/modbus.c:849-865 | the byte count filled in last is the number of bytes that follow it |
| ReplyLoop.ReplyWriteAndRead | Sources/CModbus/modbus.c:874-906 | all writes happen before the read, for overlapping ranges too; a reply that would not fit is reported |
| ReplyLoop.Dispatch | Sources/CModbus/modbus.c:665-914 | the whole switch stays inside the reply buffer exactly if the request is servable, and then answers and changes the tables as the interpreter does |
| ReplyLoop.ModbusReply | Sources/CModbus/modbus.c:650-917 | for a request in a buffer of any size: no byte is stored outside the reply buffer if and only if the request is servable; and then the tables change and a frame is sent exactly as the interpreter says; only read-exception-status is not answered |
| ClientCalls.Station.Turn | Sources/CModbus/modbus.c:459-917 | receiving and replying on buffers is one turn of the interpreter on the arriving bytes |
| ClientCalls.Client.BuildRequestBasis | Sources/CModbus/modbus-tcp.c:105-134 | the buffer holds header, function, address and quantity, and the transaction counter advances by one, from 65535 to 0 |
| ClientCalls.Client.ReceiveReply | Sources/CModbus/modbus.c:955-965 | receiving into a buffer of any size and checking, for whatever arrives: the count, or -1 with the errno, a wrong checksum included; no byte is stored outside the buffer exactly if the bytes of the call fit it |
| ClientCalls.Client.SendAndCheck | Sources/CModbus/modbus.c:955-969 | sending, receiving and checking leaves the server's tables and the reply bytes of the ideal memory, or its errno |
| ClientCalls.Client.ReadBits | Sources/CModbus/modbus.c:991-1011 | nb and the coils in the destination, or -1 with the errno and the destination untouched |
| ClientCalls.Client.ReadInputBits | Sources/CModbus/modbus.c:1015-1035 | the same for discrete inputs |
| ClientCalls.Client.ReadRegistersOf | Sources/CModbus/modbus.c:1038-1122 | nb and the registers in the destination, cells behind them untouched, or -1 with the errno |
| ClientCalls.Client.WriteBit | Sources/CModbus/modbus.c:1126-1154 | with the request and reply buffers of twelve bytes: the coil is set to the truth of the status, and 1 is returned, or -1 with the errno |
| ClientCalls.Client.WriteRegister | Sources/CModbus/modbus.c:1126-1160 | with the request and reply buffers of twelve bytes: the register holds the low 16 bits of the value, and 1 is returned, or -1 with the errno |
| ClientCalls.Client.WriteBits | Sources/CModbus/modbus.c:1163-1219 | the coils of the range hold the truth of the source cells, and nb is returned, or -1 with the errno |
| ClientCalls.Client.WriteRegisters | Sources/CModbus/modbus.c:1222-1264 | the registers of the range hold the source values, and nb is returned, or -1 with the errno |
| ClientCalls.Client.WriteAndReadRegisters | Sources/CModbus/modbus.c:1268-1338 | the write takes effect and the destination holds the registers after it, or -1 with the errno and nothing changed |
| TransactionIds.RunKeeps | Sources/CModbus/modbus-tcp.c:105-134 | over every run of requests, replies, receptions and discards: the counter is the number of requests modulo 65536, and the replies in flight are the server's genuine answers to consecutive requests up to the last one served; a reception that would not fit its buffer ends the run |
| TransactionIds.TablesFollowCalls | Sources/CModbus/modbus.c:650-917 | over every run from the start, whatever is given up, late or discarded: each request is served on exactly what an ideal memory holds after the calls sent before it |
| TransactionIds.TidCheckExact | Sources/CModbus/modbus-tcp.c:198-212 | in every reachable state a reply in flight passes the identifier check exactly if a multiple of 65536 requests lie between it and the latest one |
| TransactionIds.FlightLength | Sources/CModbus/modbus.c:1126-1147 | in every reachable state a reply in flight exceeds the twelve bytes of a single write if and only if it is the normal answer to a read of more than 24 bits or more than one register |
| TransactionIds.FitsExactly | Sources/CModbus/modbus.c:1126-1147 | in every reachable state the next reply fits the buffer of the latest call unless that is a single write and the reply overlong |
| TransactionIds.LateReplySafety | Sources/CModbus/modbus-tcp.c:198-212 | in every run that has not been ended by an overrun, if the replies in flight belong to the latest 65536 requests: the next reply fits the buffer of the latest call if and only if that is not a single write or the reply not overlong, and the latest call's own reply always fits; a reply that fits is refused, or it is decoded to what an ideal memory returns for the call sent last after all the calls before it, across the wrap of the counter |
| TransactionIds.LateReadOverruns | Sources/CModbus/modbus.c:1126-1147 | the condition is needed: a run in which a recent late reply of 259 bytes is stored before its identifier is looked at, where the latest call, a single write, has a buffer of twelve; receiving it ends the run |
| TransactionIds.RunStaysInside | Sources/CModbus/modbus.c:1126-1147 | a run from the start stays inside all reply buffers if and only if the client never takes an overlong reply while its latest call is a single write |
| TransactionIds.StreamDelivers | Sources/CModbus/modbus.c:328-456 | the receiver takes the replies off the byte stream one by one, storing exactly the bytes of each |
| TransactionIds.ReceivesOne | Sources/CModbus/modbus.c:328-456 | a reception that does not end the run takes exactly one reply: what is left of the byte stream is the other replies |
| TransactionIds.WrapAccepted | Sources/CModbus/modbus-tcp.c:111-117 | the bound is sharp: after any positive multiple of 65536 further requests the late reply is accepted for a request that was never served |
| SharedBus.Slave.Receive | Sources/CModbus/modbus-rtu.c:318-339 | the method on buffers of at least 256 bytes and the flag is the automaton Hear |
| SharedBus.TransactionSettles | Sources/CModbus/modbus-rtu.c:318-339 | one transaction, answered or not, of any request and any reply whose PDU the length tables tell the length of, is consumed whole and gives one positive result if it is for this slave and two zeros if not |
| SharedBus.Aligned | Sources/CModbus/modbus-rtu.c:318-339 | over every sequence of such transactions - report-slave-id, read-exception-status, exceptions of any code and replies of foreign slaves included - the receive calls return exactly the requests to this slave, byte for byte, never take another slave's reply for a request, and end at a frame boundary |
| SharedBus.RequestTakenExactly | Sources/CModbus/modbus-rtu.c:328-338 | a call takes exactly the frame of another slave's request and raises the flag if and only if its PDU is self-delimiting and the frame fits the largest ADU, whatever follows |
| SharedBus.ReplyTakenExactly | Sources/CModbus/modbus-rtu.c:323-331 | with the flag up and further bytes following at once, a call takes exactly the frame of a reply under the same condition |
| SharedBus.ReplyBeforePause | Sources/CModbus/modbus-rtu.c:323-331 | before a pause it is also enough that the frame is shorter than it announces; any other frame breaks alignment |
| SharedBus.DiagnosticsLosesAlignment | Sources/CModbus/modbus.c:256-261 | the failing input: of the eight bytes of a Diagnostics request to another slave a call takes four |
| SharedBus.ServerIsHonest | Sources/CModbus/modbus-rtu.c:318-339 | the replies of this library's server to any request that arrives whole meet the condition if they fit an ADU |
| SharedBus.CallsAligned | Sources/CModbus/modbus-rtu.c:318-339 | any sequence of client calls to slaves that run this library keeps the listener aligned |
| SwiftWords.SwapTwice | Sources/SwiftLibModbus/ModbusDevice.swift:265-271 | swapping every element twice is the identity, an incomplete element at the end included |
| SwiftWords.WireIsSwapped | Sources/SwiftLibModbus/ModbusDevice.swift:367-371 | the registers of a buffer go out as the buffer's bytes with each pair swapped |
| SwiftWords.RoundTrip | Sources/SwiftLibModbus/ModbusDevice.swift:290-379 | values of any width and count, odd numbers of bytes included, survive encoding and decoding with either endianness |
| SwiftWords.BigEndianWireOrder | Sources/SwiftLibModbus/ModbusDevice.swift:367-371 | big-endian values go out most significant byte first, one after the other, then the padding byte |
| SwiftWords.LittleEndianRegisters | Sources/SwiftLibModbus/ModbusDevice.swift:352-379 | with .littleEndian register k of a value of 16 or more bits is its 16-bit word k |
| SwiftWords.LittleEndianBytes | Sources/SwiftLibModbus/ModbusDevice.swift:352-379 | with .littleEndian bytes fill the registers in pairs, the first in the low half, and an odd last register has a zero high half |
| SwiftDevice.SwapElement | Sources/SwiftLibModbus/ModbusDevice.swift:269 | one element's bytes are reversed in place, all other bytes stay |
| SwiftDevice.ConvertBigEndian | Sources/SwiftLibModbus/ModbusDevice.swift:265-271 | every element's bytes are reversed in place, the bytes behind the elements stay |
| SwiftDevice.ConvertRaw | Sources/SwiftLibModbus/ModbusDevice.swift:273-288 | the same for the element sizes 1, 2, 4, 8 and 16, and exactly other sizes are refused, with the buffer untouched |
| SwiftDevice.FillBuffer | Sources/SwiftLibModbus/ModbusDevice.swift:357-371 | the shared buffer, filled and swapped twice in place, holds the encoded registers |
| SwiftDevice.TakeValues | Sources/SwiftLibModbus/ModbusDevice.swift:310-318 | the registers, swapped twice in place, give the decoded values |
| SwiftDevice.WriteValues | Sources/SwiftLibModbus/ModbusDevice.swift:352-379 | the server's registers hold the encoded values, or the call is refused and nothing changes; an empty array sends nothing |
| SwiftDevice.ReadValues | Sources/SwiftLibModbus/ModbusDevice.swift:290-319 | the decoded registers of the server, or nothing if it refuses; no table changes |
| SwiftDevice.WriteThenRead | Sources/SwiftLibModbus/ModbusDevice.swift:290-379 | values written and read back with the same endianness are the same whenever the write is accepted |
| SwiftDevice.WireRoundTrip | Sources/SwiftLibModbus/ModbusDevice.swift:290-379 | the same through builder, server, reply check and decoder, byte for byte on either backend, for every array, the empty one included, for which nothing is sent |
| SwiftDevice.AsciiRoundTrip | Sources/SwiftLibModbus/ModbusDevice.swift:246-263 | through the wire on either backend, a string comes back as its surviving part - the ASCII values up to the first character without one or with value 0 - and that is the string if and only if each of its characters is a single ASCII scalar other than NUL |
| SwiftDevice.WholeExactly | Sources/SwiftLibModbus/ModbusDevice.swift:257-262 | the surviving part of a string is the whole string if and only if each character is a single ASCII scalar other than NUL; CR LF, one character, is not |
| SwiftDevice.SurvivesUntil | Sources/SwiftLibModbus/ModbusDevice.swift:257-262 | the surviving part ends exactly at the end of the string or at the first cluster other than CR LF, scalar outside ASCII, or NUL; before that scalars are kept and CR LF is LF |
| SwiftDevice.CrLfIsLost | Sources/SwiftLibModbus/ModbusDevice.swift:260 | an all-ASCII string without NUL that does not come back: CR LF has the ASCII value of LF |
| SwiftDevice.WriteAsciiString | Sources/SwiftLibModbus/ModbusDevice.swift:255-263 | the server's registers hold the encoded bytes of the string, or the call is refused and nothing changes |
| SwiftDevice.ReadAsciiString | Sources/SwiftLibModbus/ModbusDevice.swift:246-253 | the decoded bytes of the server up to the first zero, or nothing if it refuses; no table changes |
| Strlcpy.CopyByPointers | Sources/CModbus/modbus.c:1588-1611 | for every source, destination and size: as much of the text as fits, one NUL, the rest of the destination untouched, and the length of the source |
| Strlcpy.CopyByLength | Sources/CModbus/strlcpy.c:33-43 | the same result and contents as the pointer loop |
| Strlcpy.CopyIsString | Sources/CModbus/modbus.c:1579-1587 | the destination holds a prefix of the text of fewer than size characters, the whole text exactly if the returned length is less than the size, and is untouched behind its NUL |

## Left out

- Operating-system calls: sockets, serial ports, termios, RTS and RS485 control, Win32, `select` and `recv` errors. A line is a sequence of bytes with pauses; which errno the operating system leaves when a wait ends in silence is not modelled, nor is a short `send`.
- Error recovery: retrying, reconnecting and flushing after errors depend on the operating system and on modes that are off by default. Discarding pending replies appears only as a step of `TransactionIds`.
- Allocation failure, freeing, getters, setters, debug output and error texts.
- The client's report-slave-id call, raw requests and `modbus_reply_exception`; the server's side of report-slave-id is modelled.
- Requests the server does not check: where a read would be answered with more than the reply buffer holds, `ReplyLoop.ModbusReply` reports that and says nothing of what the program does from there on, and `Refinement.ServerTurn` answers nothing. A write whose announced data have not been received (`Server.Readable`), for which the code takes what its buffer held before, is not modelled.
- Negative quantities and C integers wider than 16 bits: quantities are natural numbers; the addresses and single values given to the client methods are any integers, of which the calls of the ideal memory name the 16 bits that reach the wire.
- Bytes that `modbus_reply` reads as an address from requests too short to have one, before it finds that the function does not need it.
- Receive.ReceiveMsg: where a byte would be stored outside the buffer the model stops, and says nothing of what the program does from there on. The response and byte timeouts are pauses in the traffic, of one length.
- ClientCalls.Client.SendAndCheck: the byte timeout is on, as it is by default; client and server take turns on one thread, and the reply arrives before the timeout; late replies are the subject of `TransactionIds`.
- TransactionIds.LateReplySafety: frames are whole, in order and unaltered, as TCP delivers them.
- SharedBus.Aligned: transmissions are free of errors, no request is a broadcast, PDUs seen on the bus are such that the length tables tell their length (`SharedBus.RequestTakenExactly` and its companions show that others break alignment), and an unanswered request to another slave is followed by a pause longer than the response timeout, as the master itself waits that long.
- Corruption.CorruptRequestIgnored: an error in the function code or the byte count can make the receiver take a shorter or longer frame, with a checksum elsewhere; `FunctionErrors.WrongWrite` is an input for which that is accepted, and no theorem says how likely it is. Corrupted bytes followed at once by further ones are covered only where the frame keeps its length.
- CrcErrors.BurstDetected: bits are counted least significant first within each byte, the order of transmission.
- BitTables.AppendByte: the overshooting counter `bit_check` and the mask that leaves the low 8 bits are represented by the position and an 8-bit mask; the conditions of the loop are the same.
- SwiftDevice.ReadValues: values are bit patterns, natural numbers of a given width; signed integers and floating-point numbers are their bit patterns, with no arithmetic on them. `TakeValues` starts from the words as the C function left them rather than from one buffer shared with it.
- SwiftDevice.AsciiRoundTrip: strings are compared by their scalars, not by canonical equivalence, which does not matter for ASCII; a string of more characters than bytes, on which the source stops, is excluded.
- The connecting, reconnecting and idle timers of the Swift actor, host lookup, and the Swift functions that only pass coils through.
- Strlcpy.CopyByPointers: source and destination do not overlap.
