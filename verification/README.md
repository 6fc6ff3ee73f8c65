# Batched-bet wire codec, both sides

A Dafny model of the framing code of a lottery system in which client
agencies send batches of bets to a server over TCP. The server
(`server/common/communication.py`, Python) reads a fixed 13-byte header,
decodes a `BET` frame into bets and encodes the `ACK` and `WIN` replies.
The client (`client/common/communication.go`, Go) builds the `BET` frame
for a batch, writes it and parses the server's `ACK`.

Bytes are ASCII characters (`Text.String = seq<char>`). Fixed-width decimal
fields are digit strings produced by `Text.Padded` (Python's `f"{n:04d}"`,
Go's `%04d`) and read back by `Text.ParseInt` (Go's `strconv.Atoi`, Python's
`int` on a sign and digits). The socket is modelled in `Stream`:

- incoming data is a sequence of non-empty chunks (`Stream.Chunks`), the
  pieces successive reads happen to return; an empty read means the peer
  closed;
- outgoing data meets a script of write replies (`Stream.WriteReply`): each
  write call accepts some number of bytes or fails, and a peer with no reply
  left has gone away.

Every read loop (`Stream.RecvExact`) and send loop (`Stream.SendAll`) is a
method with loop invariants. Each decoder is a pure function over the flat
byte contents: `ServerCodec.DecodeBet` and `ClientCodec.DecodeAck`. The
reading methods (`GetHeader`, `ReadBet`, `ReceiveAck`) are proved to give
exactly the decoder's outcome and to consume exactly the decoder's byte
count, so their results do not depend on how the bytes were cut into reads.
`Interop` connects the two sides:

- the server decodes exactly the bets the client encoded. The client's `;`
  before every record is the delimiter byte the server skips, and the
  client's final newline is the payload byte the server drops;
- the client reads `",agency,batch_id"` from the server's ACK and leaves
  the newline unread. It accepts the ACK exactly when the agency and batch
  id are its own.

Modules: `Wrappers` (Option, Result), `Text`, `Stream`, `ServerCodec`,
`ClientCodec`, `Interop`.

The ACK and WIN replies put a comma after the type (`"ACK,0004,1,5\n"`,
`"WIN,0000"`), so their header is 8 bytes: the type, the comma and four
length digits.

## Model

| member | source | states |
|---|---|---|
| Stream.Recv | server/common/communication.py:12 | one read asks for at most n bytes, returns a prefix of what is left and no more than n, and returns nothing only at end of stream |
| Stream.RecvExact | server/common/communication.py:41-47 | the read-until-complete loop succeeds exactly when the stream holds n bytes; it then returns exactly the first n and consumes no more; otherwise it has consumed everything |
| Stream.SendAll | server/common/communication.py:90-95 | the send loop puts a prefix of the message on the wire, all of it exactly when no error is reported; it stops at a failed or zero-byte write, and its outcome agrees with the recursive reference `Transfer` |
| Stream.Transfer | client/common/communication.go:104-114 | the bytes moved never go backwards or beyond the message length, and the send reports no error exactly when every byte was moved |
| Stream.TransferCompletes | client/common/communication.go:104-114 | a peer whose next write calls each accept at least one byte receives the whole message, however the writes split it |
| ServerCodec.GetHeader | server/common/communication.py:6-24 | returns a header exactly when 13 bytes arrive; the header is the first 13 bytes and its type their first 3; it consumes exactly 13 bytes, or everything when the peer closes early |
| ServerCodec.ParseRecords | server/common/communication.py:58-76 | all records are accepted or none: bets come back exactly when every record has 7 comma-fields; there is one bet per record, in order; bet i keeps fields 0, 2, 3, 4, 5, 6 of record i and drops the bet id |
| ServerCodec.ParsePayload | server/common/communication.py:50-56 | an accepted payload yields exactly the declared batch size of bets, and that size is at least 1 |
| ServerCodec.DecodeBet | server/common/communication.py:26-80 | a header that is not "BET", or has non-numeric fields, yields (None, None) and reads nothing; otherwise the batch id is the header's [9:13] field; never reads past the body |
| ServerCodec.ReadBet | server/common/communication.py:26-47 | reading a BET frame from chunked input gives DecodeBet's outcome on the contents and consumes exactly DecodeBet's byte count, whatever the chunking |
| ServerCodec.ReadBetAccepts | server/common/communication.py:34-76 | a frame is accepted exactly when the header parses, the delimiter and the whole declared payload are present, the record count matches the batch size and every record has 7 fields; then bet i comes from record i and exactly 1 + payload size bytes are consumed |
| ServerCodec.EmptyPayloadRejected | server/common/communication.py:49-63 | an empty payload never yields bets |
| ServerCodec.NoEmptyBatch | server/common/communication.py:53-56 | a declared batch size of 0 or less is never accepted, and the batch id is still reported |
| ServerCodec.ShortPayloadRejected | server/common/communication.py:42-46 | a stream that ends before the declared payload yields (None, batch id) after consuming all it had |
| ServerCodec.ConfirmationLayout | server/common/communication.py:85-88 | the ACK is "ACK," then a 4-digit length that reads back as the length of "agency,batch_id\n", then a comma, then that payload |
| ServerCodec.SendConfirmation | server/common/communication.py:83-98 | the peer receives a prefix of the ACK message, as many bytes as the reference send loop moves against the peer's write replies, and all of it exactly when the send succeeds; so it fails only on a failed or zero-byte write |
| ServerCodec.WinnersPayload | server/common/communication.py:103-108 | appending each winner and a comma, then dropping the last character, gives the winners joined by commas, and an empty string for no winners |
| ServerCodec.WinnersLayout | server/common/communication.py:103-112 | the WIN message is "WIN," then a 4-digit length that reads back as the payload length, then the payload; no winners gives "WIN,0000"; a non-empty, comma-free list splits back into the winners |
| ServerCodec.SendWinners | server/common/communication.py:101-121 | the peer receives a prefix of the WIN message, as many bytes as the reference send loop moves against the peer's write replies, and all of it exactly when the send succeeds; so it fails only on a failed or zero-byte write |
| ClientCodec.BatchHeaderWidth | client/common/communication.go:93 | the BET header is at least 13 bytes, and exactly 13 when the payload length is below 10000, the bet count below 100 and the batch id between -999 and 9999 |
| ClientCodec.DecodeAckAccepts | client/common/communication.go:141-170 | an ACK is accepted exactly when the input starts with "ACK,", then 4 comma-free characters parsing as a non-negative length, then at least that many bytes; the payload is exactly those bytes |
| ClientCodec.ReceiveAck | client/common/communication.go:139-171 | reading the ACK from chunked input gives DecodeAck's outcome on the contents and consumes exactly DecodeAck's byte count |
| ClientCodec.SendBatch | client/common/communication.go:76-136 | when shutting down, sends nothing and returns false without an error; otherwise the wire gets a prefix of the frame, as many bytes as the reference send loop moves against the peer's write replies, and a write error is the one that loop reports; after a full write exactly the ACK's bytes are consumed; the batch is confirmed exactly when the whole frame went out and the ACK payload equals ",id,batchID"; shutting down is the only way to get "false without an error"; a failed write, a failed ACK read and any other ACK payload are each reported as an error, the last one carrying the payload |
| Text.ParsePadded | client/common/communication.go:93 | a zero-padded number of any width parses back to the number |
| Text.PaddedWidth | server/common/communication.py:87 | a zero-padded field is never narrower than its width, and has exactly that width when the number fits |
| Text.SplitJoin | server/common/communication.py:53 | splitting pieces joined by a delimiter gives the pieces back when none contains the delimiter |
| Text.JoinSplit | server/common/communication.py:60 | joining the pieces of a split gives the string back |
| Interop.PayloadIsJoin | client/common/communication.go:87-90 | the client's payload, a ';' before every record, is a ';' followed by the records joined with ';' |
| Interop.HeaderFields | server/common/communication.py:34-36 | the server reads back the payload length, bet count and batch id that the client wrote into the header |
| Interop.BatchRoundTrip | client/common/communication.go:87-103 | the server decodes the client's frame of 1 to 99 bets with fields free of ',' and ';' into those bets in order, bet ids dropped, with the same batch id, and consumes exactly the frame |
| Interop.EmptyBatchRejected | client/common/communication.go:87-103 | the server rejects the client's frame for an empty batch but still reports its batch id |
| Interop.AckRoundTrip | client/common/communication.go:160-170 | from the server's ACK bytes the client reads exactly ",agency,batch_id" and leaves the final newline unread |
| Interop.AckMatches | client/common/communication.go:130-135 | that payload equals the expected ",id,batchID" exactly when the agency is the client's id and the batch ids agree, for any ids, commas included |
| Interop.ConfirmationAccepted | client/common/communication.go:122-135 | end to end, the client accepts the server's ACK for (agency, batch id) exactly when they are its own id and the batch it sent |

## Left out

- `server/common/server.py`: the accept loop and the SIGTERM handler are socket and signal plumbing, and that loop does not use the batch protocol.
- `client/common/client.go`: a timed send loop, a signal-handling goroutine and sleeps, all timing and concurrency.
- `SendBet` (client/common/communication.go:14-73): a superseded single-bet format that the server's 13-byte header does not accept.
- `createClientSocket`: network dialing; a failure ends the process. `SendBatch` takes the connection's streams as parameters instead.
- `compose_maker.py`: deployment tooling.
- The bet record type from `common.utils` is not part of this model. `ServerCodec.Bet` holds the six strings passed to its constructor.
- Text.ParseInt: accepts only an optional sign followed by ASCII digits. Python's `int()` also accepts surrounding whitespace, underscores between digits and non-ASCII digits. The model rejects those header fields, where the server would read them. Go's `Atoi` is modelled exactly for the 4 characters it parses.
- UTF-8 decoding is not modelled: every character is one ASCII byte, so decoding cannot fail.
- Stream.Recv: a read ends only by the peer closing. Socket errors raised by `recv`, which the server turns into `(None, None)`, are not modelled. Go's `Read` returning data together with an error is not modelled either.
- Stream.SendAll: a write call that fails moves no bytes. A real write may move some bytes before it fails.
- ClientCodec.SendBatch: requires that the frame contains no '%'. Go passes the frame to `Fprintf` as a format string, and the model writes it literally.
- ClientCodec.ReceiveAck: Go allocates the payload buffer with the announced length, so a negative length crashes the client. The model reports this as the error `NegativeSize` rather than a crash.
- Logging, and the distinct exception and error types: every failure is an error value, and sends report only success or failure.
- Which agency and batch id the server's handler passes to `send_confirmation` is decided by code that is not part of this model. `Interop.ConfirmationAccepted` covers every agency and batch id.
- The bet record's constructor may itself convert or reject fields, for example by parsing the number. That code is not part of this model, so a record with seven fields always yields a bet here.
