/**
  The client's half of the batched-bet protocol: building the BET frame for
  a batch, sending it with the full-send loop, and reading and checking the
  server's ACK.
 */
module ClientCodec {
  import opened Wrappers
  import opened Text
  import opened Stream

  const AckHeaderSize: nat := 8

  /** A wager as the client holds it; the bet id is a number, written in decimal. */
  datatype ClientBet = ClientBet(clientId: String, betId: int, name: String, surname: String, dni: String, birthdate: String, number: String)

  /** Why reading the ACK failed. `NegativeSize` stands for the crash of allocating a buffer of negative length. */
  datatype AckError = HeaderReadFailed | InvalidHeader | InvalidSize | NegativeSize | PayloadReadFailed

  datatype BatchError = WriteError(send: SendError) | AckError(ack: AckError) | UnexpectedAck(payload: String)

  /**
    How sending a batch ends: confirmed by the expected ACK, not attempted
    because the client is shutting down (false without an error), or failed.
   */
  datatype BatchOutcome = Confirmed | NotSent | Failed(error: BatchError)

  /** The seven fields of a record, in wire order. */
  function Fields(b: ClientBet): (f: seq<String>)
    ensures |f| == 7
  {
    [b.clientId, Decimal(b.betId), b.name, b.surname, b.dni, b.birthdate, b.number]
  }

  /** A record's text: its seven fields separated by commas. */
  function RecordText(b: ClientBet): String
  {
    Join(Fields(b), ',')
  }

  /** One record of the payload: a ';' and then the record's text. */
  function BetRecord(b: ClientBet): String
  {
    ";" + RecordText(b)
  }

  /** The payload: the records of the bets, in order, each introduced by its ';'. */
  function BatchPayload(bets: seq<ClientBet>): String
  {
    if |bets| == 0 then [] else BetRecord(bets[0]) + BatchPayload(bets[1..])
  }

  /** "BET", the payload length, the bet count and the batch id, zero-padded to 4, 2 and 4 digits. */
  function BatchHeader(bets: seq<ClientBet>, batchId: int): String
  {
    "BET" + Padded(|BatchPayload(bets)|, 4) + Padded(|bets|, 2) + Padded(batchId, 4)
  }

  /** The whole frame: header, payload and a final newline that the declared length does not count. */
  function BatchMessage(bets: seq<ClientBet>, batchId: int): String
  {
    BatchHeader(bets, batchId) + BatchPayload(bets) + "\n"
  }

  /** The ACK payload that confirms the batch. */
  function ExpectedAck(clientId: String, batchId: int): String
  {
    "," + clientId + "," + Decimal(batchId)
  }

  /**
    The header is at least 13 bytes, and exactly 13, the size the server
    reads, when the payload length, the bet count and the batch id each fit
    their field.
   */
  lemma BatchHeaderWidth(bets: seq<ClientBet>, batchId: int)
    ensures |BatchHeader(bets, batchId)| >= 13
    ensures |BatchHeader(bets, batchId)| == 13 <==>
      |BatchPayload(bets)| < 10000 && |bets| < 100 && -1000 < batchId < 10000
  {
    PaddedWidth(|BatchPayload(bets)|, 4);
    PaddedWidth(|bets|, 2);
    PaddedWidth(batchId, 4);
    assert Pow10(2) == 100 && Pow10(3) == 1000 && Pow10(4) == 10000;
  }

  /**
    The payload length an ACK header announces: the header must split on ','
    into exactly "ACK" and an integer, and a negative length is fatal.
   */
  function AckLength(header: String): Result<nat, AckError>
  {
    var parts := Split(header, ',');
    if |parts| != 2 || parts[0] != "ACK" then Failure(InvalidHeader)
    else
      match ParseInt(parts[1])
      case None => Failure(InvalidSize)
      case Some(n) => if n < 0 then Failure(NegativeSize) else Success(n)
  }

  /**
    What reading the ACK yields from the incoming bytes, and how many it
    consumes: an 8-byte header read in full, then exactly the announced
    number of payload bytes, returned as they are.
   */
  function DecodeAck(data: String): (r: (Result<String, AckError>, nat))
    ensures r.1 <= |data|
  {
    if |data| < AckHeaderSize then (Failure(HeaderReadFailed), |data|)
    else
      match AckLength(data[..AckHeaderSize])
      case Failure(e) => (Failure(e), AckHeaderSize)
      case Success(n) =>
        if |data| - AckHeaderSize < n then (Failure(PayloadReadFailed), |data|)
        else (Success(data[AckHeaderSize..AckHeaderSize + n]), AckHeaderSize + n)
  }

  /**
    The ACK is accepted exactly when the stream starts with "ACK,", then four
    comma-free characters that parse as a non-negative length, then at least
    that many bytes; the payload is those bytes and nothing after them is read.
   */
  lemma DecodeAckAccepts(data: String)
    ensures DecodeAck(data).0.Success? <==>
      && |data| >= AckHeaderSize
      && data[..4] == "ACK,"
      && Free(data[4..8], ',')
      && ParseInt(data[4..8]).Some?
      && 0 <= ParseInt(data[4..8]).value <= |data| - AckHeaderSize
    ensures DecodeAck(data).0.Success? ==>
      var n := ParseInt(data[4..8]).value;
      DecodeAck(data) == (Success(data[AckHeaderSize..AckHeaderSize + n]), AckHeaderSize + n)
  {
    if |data| >= AckHeaderSize {
      var header := data[..AckHeaderSize];
      var parts := Split(header, ',');
      JoinSplit(header, ',');
      if |parts| == 2 && parts[0] == "ACK" {
        assert header == "ACK" + [','] + parts[1];
        assert data[..4] == "ACK," && data[4..8] == parts[1];
      }
      if data[..4] == "ACK," && Free(data[4..8], ',') {
        assert header == "ACK" + [','] + data[4..8];
        SplitJoin(["ACK", data[4..8]], ',');
        assert Join(["ACK", data[4..8]], ',') == header;
      }
    }
  }

  /**
    Reads the ACK: the 8-byte header with a full read, then the payload with
    the read loop. The outcome and the bytes consumed are those of
    `DecodeAck` on the stream's contents, whatever the cut into reads.
   */
  method ReceiveAck(c: Chunks) returns (r: Result<String, AckError>, rest: Chunks)
    ensures r == DecodeAck(Contents(c)).0
    ensures Contents(rest) == Contents(c)[DecodeAck(Contents(c)).1..]
  {
    var header, ok, more := RecvExact(c, AckHeaderSize);
    rest := more;
    if !ok {
      assert Contents(rest) == Contents(c)[|Contents(c)|..];
      r := Failure(HeaderReadFailed);
      return;
    }
    var size := AckLength(header);
    if size.Failure? {
      r := Failure(size.error);
      return;
    }
    var payload, complete, after := RecvExact(rest, size.value);
    rest := after;
    if !complete {
      assert Contents(rest) == Contents(c)[|Contents(c)|..];
      r := Failure(PayloadReadFailed);
      return;
    }
    assert Contents(rest) == Contents(c)[AckHeaderSize + size.value..];
    assert payload == Contents(c)[AckHeaderSize..AckHeaderSize + size.value];
    r := Success(payload);
  }

  /**
    Sends one batch and waits for its ACK. Unless the client is shutting
    down, the frame goes out with the full-send loop; the batch is confirmed
    exactly when all of it was written and the ACK read afterwards is the
    expected one. Any other ACK payload is an error that carries it.
   */
  method SendBatch(clientId: String, shuttingDown: bool, bets: seq<ClientBet>, batchId: int,
                   replies: seq<WriteReply>, incoming: Chunks)
    returns (r: BatchOutcome, wire: String, rest: Chunks)
    requires '%' !in BatchMessage(bets, batchId)
    ensures |wire| <= |BatchMessage(bets, batchId)|
    ensures wire == BatchMessage(bets, batchId)[..|wire|]
    ensures shuttingDown ==> r == NotSent && wire == []
    ensures r == Confirmed <==>
      && !shuttingDown
      && wire == BatchMessage(bets, batchId)
      && DecodeAck(Contents(incoming)).0 == Success(ExpectedAck(clientId, batchId))
    ensures r == NotSent <==> shuttingDown
    ensures !shuttingDown ==> |wire| == Transfer(|BatchMessage(bets, batchId)|, 0, replies).0
    ensures r.Failed? && r.error.WriteError? ==>
      Transfer(|BatchMessage(bets, batchId)|, 0, replies).1 == Some(r.error.send)
    ensures !shuttingDown && wire == BatchMessage(bets, batchId) ==>
      Contents(rest) == Contents(incoming)[DecodeAck(Contents(incoming)).1..]
    ensures !shuttingDown && wire != BatchMessage(bets, batchId) ==>
      r.Failed? && r.error.WriteError? && rest == incoming
    ensures !shuttingDown && wire == BatchMessage(bets, batchId) && DecodeAck(Contents(incoming)).0.Failure? ==>
      r == Failed(AckError(DecodeAck(Contents(incoming)).0.error))
    ensures (&& !shuttingDown
             && wire == BatchMessage(bets, batchId)
             && DecodeAck(Contents(incoming)).0.Success?
             && DecodeAck(Contents(incoming)).0.value != ExpectedAck(clientId, batchId)) ==>
      r == Failed(UnexpectedAck(DecodeAck(Contents(incoming)).0.value))
    ensures r.Failed? && r.error.UnexpectedAck? ==>
      && DecodeAck(Contents(incoming)).0 == Success(r.error.payload)
      && r.error.payload != ExpectedAck(clientId, batchId)
  {
    rest := incoming;
    if shuttingDown {
      r := NotSent;
      wire := [];
      return;
    }
    var message := BatchMessage(bets, batchId);
    var err;
    wire, err := SendAll(message, replies);
    if err.Some? {
      r := Failed(WriteError(err.value));
      return;
    }
    var ack;
    ack, rest := ReceiveAck(incoming);
    if ack.Failure? {
      r := Failed(AckError(ack.error));
      return;
    }
    if ack.value == ExpectedAck(clientId, batchId) {
      r := Confirmed;
    } else {
      r := Failed(UnexpectedAck(ack.value));
    }
  }
}
