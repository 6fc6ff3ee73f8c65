/**
  The server's half of the batched-bet protocol: reading the fixed 13-byte
  header, decoding a BET frame into bets, and encoding the ACK and WIN
  replies, each sent with the full-send loop.
 */
module ServerCodec {
  import opened Wrappers
  import opened Text
  import opened Stream

  const HeaderSize: nat := 13
  const FieldsPerRecord: nat := 7

  /**
    A wager as the server keeps it: the six text fields handed to the bet
    record, in the order the record takes them. The record's own type is not
    part of this model.
   */
  datatype Bet = Bet(agency: String, firstName: String, lastName: String, document: String, birthdate: String, number: String)

  /** A received header: its first three characters and all 13 bytes. */
  datatype Header = Header(msgType: String, raw: String)

  /**
    The outcome of reading a BET frame, as the server reports it: the bets
    (absent on any failure) and the batch id (absent when the header itself
    was rejected).
   */
  datatype ReadBetResult = ReadBetResult(bets: Option<seq<Bet>>, batchId: Option<int>)

  /** The decimal fields of a BET header. */
  datatype BetFields = BetFields(payloadSize: int, batchSize: int, batchId: int)

  /**
    Reads the header with the full-read loop: exactly the first 13 bytes of
    the stream, never more, or nothing if the peer closes before 13 bytes.
   */
  method GetHeader(c: Chunks) returns (h: Option<Header>, rest: Chunks)
    ensures h.Some? <==> |Contents(c)| >= HeaderSize
    ensures h.Some? ==> h.value.raw == Contents(c)[..HeaderSize] && h.value.msgType == Contents(c)[..3]
    ensures h.Some? ==> Contents(rest) == Contents(c)[HeaderSize..]
    ensures h.None? ==> Contents(rest) == []
  {
    var data, ok, more := RecvExact(c, HeaderSize);
    rest := more;
    if !ok {
      h := None;
      return;
    }
    h := Some(Header(data[..3], data));
  }

  /**
    The header fields of a BET frame: the type must be "BET" and the three
    fixed-width fields must parse as integers.
   */
  function ParseBetHeader(header: String): Option<BetFields>
  {
    if Slice(header, 0, 3) != "BET" then None
    else
      match (ParseInt(Slice(header, 3, 7)), ParseInt(Slice(header, 7, 9)), ParseInt(Slice(header, 9, 13)))
      case (Some(p), Some(b), Some(i)) => Some(BetFields(p, b, i))
      case _ => None
  }

  /**
    `bet` is what the record yields: it has exactly seven comma-separated
    fields, agency, bet id, first name, last name, document, birthdate and
    number, and the bet keeps all of them but the bet id.
   */
  predicate RecordGives(record: String, bet: Bet) {
    var f := Split(record, ',');
    |f| == FieldsPerRecord && bet == Bet(f[0], f[2], f[3], f[4], f[5], f[6])
  }

  /** Turns every record into a bet, or rejects the lot if any record is malformed. */
  function ParseRecords(records: seq<String>): (r: Option<seq<Bet>>)
    ensures r.Some? <==> forall i :: 0 <= i < |records| ==> |Split(records[i], ',')| == FieldsPerRecord
    ensures r.Some? ==> |r.value| == |records|
    ensures r.Some? ==> forall i :: 0 <= i < |records| ==> RecordGives(records[i], r.value[i])
  {
    if |records| == 0 then Some([])
    else
      var f := Split(records[0], ',');
      if |f| != FieldsPerRecord then None
      else
        match ParseRecords(records[1..])
        case None => None
        case Some(bets) =>
          assert forall i :: 1 <= i < |records| ==> records[i] == records[1..][i - 1];
          Some([Bet(f[0], f[2], f[3], f[4], f[5], f[6])] + bets)
  }

  /** The records of a payload: its last byte dropped, the rest split on ';'. */
  function Records(payload: String): (records: seq<String>)
    ensures |records| >= 1
  {
    Split(DropLast(payload), ';')
  }

  /**
    Decodes a BET payload against the declared batch size: the record count
    must match and every record must have seven fields, or nothing is kept.
   */
  function ParsePayload(payload: String, batchSize: int): (r: Option<seq<Bet>>)
    ensures r.Some? ==> |r.value| == batchSize >= 1
  {
    var records := Records(payload);
    if |records| != batchSize then None else ParseRecords(records)
  }

  /**
    What reading a BET frame yields from the bytes following its header,
    however they are cut into reads, and how many of those bytes it consumes.
    Only a header of type BET with three numeric fields leads to reading at
    all; then one delimiter byte is skipped and exactly the declared payload
    size is read (a negative size reads nothing).
   */
  function DecodeBet(header: String, body: String): (r: (ReadBetResult, nat))
    ensures r.1 <= |body|
    ensures Slice(header, 0, 3) != "BET" ==> r == (ReadBetResult(None, None), 0)
    ensures r.0.batchId.None? <==> ParseBetHeader(header).None?
    ensures r.0.batchId.None? ==> r.0.bets.None? && r.1 == 0
    ensures r.0.batchId.Some? ==> r.0.batchId == ParseInt(Slice(header, 9, 13))
  {
    match ParseBetHeader(header)
    case None => (ReadBetResult(None, None), 0)
    case Some(h) =>
      var skipped := if |body| > 0 then 1 else 0;
      var size := if h.payloadSize < 0 then 0 else h.payloadSize;
      if |body| - skipped < size then (ReadBetResult(None, Some(h.batchId)), |body|)
      else (ReadBetResult(ParsePayload(body[skipped..skipped + size], h.batchSize), Some(h.batchId)), skipped + size)
  }

  /**
    Reads a BET frame whose header has already been read: one read of the
    delimiter byte, then the full-read loop for the payload. The outcome and
    the bytes consumed are those of `DecodeBet` on the stream's contents, so
    they do not depend on how the peer's bytes were cut into reads.
   */
  method ReadBet(c: Chunks, header: String) returns (r: ReadBetResult, rest: Chunks)
    ensures DecodeBet(header, Contents(c)).0 == r
    ensures Contents(rest) == Contents(c)[DecodeBet(header, Contents(c)).1..]
  {
    var fields := ParseBetHeader(header);
    if fields.None? {
      r := ReadBetResult(None, None);
      rest := c;
      return;
    }
    var h := fields.value;
    var (delimiter, afterDelimiter) := Recv(c, 1);
    assert Contents(afterDelimiter) == Contents(c)[|delimiter|..];
    var size := if h.payloadSize < 0 then 0 else h.payloadSize;
    var payload, ok, more := RecvExact(afterDelimiter, size);
    rest := more;
    if !ok {
      assert Contents(rest) == Contents(c)[|Contents(c)|..];
      r := ReadBetResult(None, Some(h.batchId));
      return;
    }
    assert payload == Contents(c)[|delimiter|..|delimiter| + size];
    r := ReadBetResult(ParsePayload(payload, h.batchSize), Some(h.batchId));
  }

  /**
    A BET frame is accepted exactly when its header is well formed, the
    stream holds the delimiter byte and the whole declared payload, the
    payload (less its last byte) has as many ';'-records as declared and each
    record has seven fields. Then bet i comes from record i, and exactly the
    delimiter and the payload are consumed.
   */
  lemma ReadBetAccepts(header: String, body: String)
    ensures DecodeBet(header, body).0.bets.Some? <==>
      && ParseBetHeader(header).Some?
      && var h := ParseBetHeader(header).value;
      && h.payloadSize >= 0 && |body| >= 1 + h.payloadSize
      && var records := Records(body[1..1 + h.payloadSize]);
      && |records| == h.batchSize
      && forall i :: 0 <= i < |records| ==> |Split(records[i], ',')| == FieldsPerRecord
    ensures DecodeBet(header, body).0.bets.Some? ==>
      var h := ParseBetHeader(header).value;
      var records := Records(body[1..1 + h.payloadSize]);
      var bets := DecodeBet(header, body).0.bets.value;
      && DecodeBet(header, body).1 == 1 + h.payloadSize
      && |bets| == |records| == h.batchSize
      && forall i :: 0 <= i < |bets| ==> RecordGives(records[i], bets[i])
  {
  }

  /** An empty payload never yields bets: its one record has one field. */
  lemma EmptyPayloadRejected(payload: String, batchSize: int)
    requires |payload| == 0
    ensures ParsePayload(payload, batchSize).None?
  {
  }

  /** A declared batch size of zero or less is never accepted: a split has at least one piece. */
  lemma NoEmptyBatch(header: String, body: String)
    requires ParseBetHeader(header).Some? && ParseBetHeader(header).value.batchSize <= 0
    ensures DecodeBet(header, body).0.bets.None?
    ensures DecodeBet(header, body).0.batchId == Some(ParseBetHeader(header).value.batchId)
  {
  }

  /** A stream that ends before the declared payload is complete yields no bets but still the batch id. */
  lemma ShortPayloadRejected(header: String, body: String)
    requires ParseBetHeader(header).Some?
    requires ParseBetHeader(header).value.payloadSize > 0
    requires |body| < 1 + ParseBetHeader(header).value.payloadSize
    ensures DecodeBet(header, body) == (ReadBetResult(None, Some(ParseBetHeader(header).value.batchId)), |body|)
  {
  }

  // ---------------------------------------------------------------------------
  // Replies

  /** The ACK payload: agency and batch id, comma-separated, newline-terminated. */
  function ConfirmationPayload(agency: String, batchId: int): String
  {
    agency + "," + Decimal(batchId) + "\n"
  }

  /** The ACK message: "ACK,", the payload length as four zero-padded digits, a comma, the payload. */
  function ConfirmationMessage(agency: String, batchId: int): String
  {
    var payload := ConfirmationPayload(agency, batchId);
    "ACK," + Padded(|payload|, 4) + "," + payload
  }

  /**
    "ACK," and the length field form an 8-byte header whose length reads back
    as the payload's; a comma and the payload follow, so the declared length
    covers the newline but not that comma.
   */
  lemma ConfirmationLayout(agency: String, batchId: int)
    requires |ConfirmationPayload(agency, batchId)| < 10000
    ensures var m := ConfirmationMessage(agency, batchId);
      var payload := ConfirmationPayload(agency, batchId);
      && |m| == 9 + |payload|
      && m[..4] == "ACK,"
      && ParseInt(m[4..8]) == Some(|payload|)
      && m[8..] == "," + payload
  {
    var payload := ConfirmationPayload(agency, batchId);
    ParsePadded(|payload|, 4);
    PaddedWidth(|payload|, 4);
    assert ConfirmationMessage(agency, batchId)[4..8] == Padded(|payload|, 4);
  }

  /**
    Sends the ACK with the full-send loop. The peer receives a prefix of the
    ACK message, and all of it exactly when the send succeeds; how much it
    receives is what the peer's write replies let through.
   */
  method SendConfirmation(agency: String, batchId: int, replies: seq<WriteReply>) returns (wire: String, ok: bool)
    ensures |wire| <= |ConfirmationMessage(agency, batchId)|
    ensures wire == ConfirmationMessage(agency, batchId)[..|wire|]
    ensures ok <==> wire == ConfirmationMessage(agency, batchId)
    ensures |wire| == Transfer(|ConfirmationMessage(agency, batchId)|, 0, replies).0
  {
    var err;
    wire, err := SendAll(ConfirmationMessage(agency, batchId), replies);
    ok := err == None;
  }

  /**
    Builds the WIN payload the way the server does: each winner followed by a
    comma, then the last character dropped. The result is the winners joined
    by commas, and empty when there are none.
   */
  method WinnersPayload(winners: seq<String>) returns (payload: String)
    ensures payload == Join(winners, ',')
  {
    var acc: String := [];
    var i := 0;
    while i < |winners|
      invariant 0 <= i <= |winners|
      invariant i == 0 ==> acc == []
      invariant i > 0 ==> acc == Join(winners[..i], ',') + [',']
    {
      if i > 0 {
        JoinSnoc(winners[..i], winners[i], ',');
        assert winners[..i + 1] == winners[..i] + [winners[i]];
      } else {
        assert winners[..1] == [winners[0]];
      }
      acc := acc + winners[i] + [','];
      i := i + 1;
    }
    payload := DropLast(acc);
    if |winners| > 0 {
      assert winners[..|winners|] == winners;
      assert acc == Join(winners, ',') + [','];
      assert payload == acc[..|acc| - 1];
    }
  }

  /** A WIN message around a payload: "WIN,", its length as four zero-padded digits, the payload. */
  function WinnersFrame(payload: String): String
  {
    "WIN," + Padded(|payload|, 4) + payload
  }

  /** The WIN message for a list of winners. */
  function WinnersMessage(winners: seq<String>): String
  {
    WinnersFrame(Join(winners, ','))
  }

  /**
    Sends the WIN message for `winners` with the full-send loop. The peer
    receives a prefix of the message, and all of it exactly when the send
    succeeds; how much it receives is what the peer's write replies let
    through.
   */
  method SendWinners(winners: seq<String>, replies: seq<WriteReply>) returns (wire: String, ok: bool)
    ensures |wire| <= |WinnersMessage(winners)|
    ensures wire == WinnersMessage(winners)[..|wire|]
    ensures ok <==> wire == WinnersMessage(winners)
    ensures |wire| == Transfer(|WinnersMessage(winners)|, 0, replies).0
  {
    var payload := WinnersPayload(winners);
    var err;
    wire, err := SendAll(WinnersFrame(payload), replies);
    ok := err == None;
  }

  /**
    A WIN message has an 8-byte header whose length field reads back as the
    payload length, and the payload splits back into the winners when there
    is at least one and none contains a comma. No winners gives "WIN,0000".
   */
  lemma WinnersLayout(winners: seq<String>)
    requires |Join(winners, ',')| < 10000
    ensures var m := WinnersMessage(winners);
      && |m| == 8 + |Join(winners, ',')|
      && m[..4] == "WIN,"
      && ParseInt(m[4..8]) == Some(|Join(winners, ',')|)
      && m[8..] == Join(winners, ',')
    ensures |winners| == 0 ==> WinnersMessage(winners) == "WIN,0000"
    ensures |winners| >= 1 && AllFree(winners, ',') ==> Split(WinnersMessage(winners)[8..], ',') == winners
  {
    var payload := Join(winners, ',');
    ParsePadded(|payload|, 4);
    PaddedWidth(|payload|, 4);
    if |winners| >= 1 && AllFree(winners, ',') {
      SplitJoin(winners, ',');
    }
    if |winners| == 0 {
      assert Digits(0) == "0";
      assert Padded(0, 4) == Zeros(3) + "0";
      assert Zeros(3) == "000";
    }
  }
}
