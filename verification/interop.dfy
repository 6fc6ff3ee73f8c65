/**
  How the two halves fit together: the server decodes exactly the bets the
  client encoded, and the client reads exactly the ACK payload the server
  encoded, despite the leading ';' and trailing newline on one side and the
  extra comma on the other.
 */
module Interop {
  import opened Wrappers
  import opened Text
  import ClientCodec
  import ServerCodec

  /** The bet the server keeps for a client bet: every field but the bet id. */
  function ServerView(b: ClientCodec.ClientBet): ServerCodec.Bet
  {
    ServerCodec.Bet(b.clientId, b.name, b.surname, b.dni, b.birthdate, b.number)
  }

  function ServerViews(bets: seq<ClientCodec.ClientBet>): seq<ServerCodec.Bet>
  {
    seq(|bets|, i requires 0 <= i < |bets| => ServerView(bets[i]))
  }

  /** No text field holds one of the payload's delimiters. */
  predicate Clean(b: ClientCodec.ClientBet) {
    forall f :: f in [b.clientId, b.name, b.surname, b.dni, b.birthdate, b.number] ==> Free(f, ',') && Free(f, ';')
  }

  function RecordTexts(bets: seq<ClientCodec.ClientBet>): seq<String>
  {
    seq(|bets|, i requires 0 <= i < |bets| => ClientCodec.RecordText(bets[i]))
  }

  /** The client's ';' before every record is a ';' before the ';'-join of the records. */
  lemma {:induction false} PayloadIsJoin(bets: seq<ClientCodec.ClientBet>)
    requires |bets| >= 1
    ensures ClientCodec.BatchPayload(bets) == ";" + Join(RecordTexts(bets), ';')
  {
    if |bets| > 1 {
      PayloadIsJoin(bets[1..]);
      assert RecordTexts(bets)[1..] == RecordTexts(bets[1..]);
    } else {
      assert ClientCodec.BatchPayload(bets) == ClientCodec.BetRecord(bets[0]);
    }
  }

  /** A clean bet's record splits on ',' back into its seven fields. */
  lemma RecordFields(b: ClientCodec.ClientBet)
    requires Clean(b)
    ensures Free(ClientCodec.RecordText(b), ';')
    ensures Split(ClientCodec.RecordText(b), ',') == ClientCodec.Fields(b)
  {
    var f := ClientCodec.Fields(b);
    assert AllFree(f, ',') && AllFree(f, ';') by {
      forall i | 0 <= i < |f| ensures Free(f[i], ',') && Free(f[i], ';') {
        if i != 1 {
          assert f[i] in [b.clientId, b.name, b.surname, b.dni, b.birthdate, b.number];
        }
      }
    }
    JoinFree(f, ',', ';');
    SplitJoin(f, ',');
  }

  /** The fields of a 13-byte header, cut where the server cuts them. */
  lemma HeaderSlices(a: String, b: String, c: String, d: String)
    requires |a| == 3 && |b| == 4 && |c| == 2 && |d| == 4
    ensures var h := a + b + c + d;
      Slice(h, 0, 3) == a && Slice(h, 3, 7) == b && Slice(h, 7, 9) == c && Slice(h, 9, 13) == d
  {
  }

  /** Each number the client writes into the header fills its field exactly and reads back unchanged. */
  lemma FieldFits(n: int, width: nat)
    requires width == 2 || width == 4
    requires (if width == 2 then 0 <= n < 100 else -1000 < n < 10000)
    ensures |Padded(n, width)| == width
    ensures ParseInt(Padded(n, width)) == Some(n)
  {
    assert Pow10(1) == 10 && Pow10(2) == 100 && Pow10(3) == 1000 && Pow10(4) == 10000;
    PaddedWidth(n, width);
    ParsePadded(n, width);
  }

  /** The server reads the header fields the client wrote. */
  lemma HeaderFields(bets: seq<ClientCodec.ClientBet>, batchId: int)
    requires |ClientCodec.BatchPayload(bets)| < 10000 && |bets| < 100 && -1000 < batchId < 10000
    ensures ServerCodec.ParseBetHeader(ClientCodec.BatchHeader(bets, batchId))
      == Some(ServerCodec.BetFields(|ClientCodec.BatchPayload(bets)|, |bets|, batchId))
  {
    var p := |ClientCodec.BatchPayload(bets)|;
    FieldFits(p, 4);
    FieldFits(|bets|, 2);
    FieldFits(batchId, 4);
    HeaderSlices("BET", Padded(p, 4), Padded(|bets|, 2), Padded(batchId, 4));
  }

  /** The server's reading of the records of a clean batch: each record is a bet, the bet id dropped. */
  lemma RecordsParse(bets: seq<ClientCodec.ClientBet>)
    requires forall i :: 0 <= i < |bets| ==> Clean(bets[i])
    ensures ServerCodec.ParseRecords(RecordTexts(bets)) == Some(ServerViews(bets))
  {
    var texts := RecordTexts(bets);
    forall i | 0 <= i < |texts|
      ensures Split(texts[i], ',') == ClientCodec.Fields(bets[i])
    {
      RecordFields(bets[i]);
    }
    var parsed := ServerCodec.ParseRecords(texts);
    assert parsed.Some?;
    assert parsed.value == ServerViews(bets);
  }

  /** The payload the server reads back, less its last byte, splits into the records the client wrote. */
  lemma PayloadRecords(bets: seq<ClientCodec.ClientBet>)
    requires |bets| >= 1
    requires forall i :: 0 <= i < |bets| ==> Clean(bets[i])
    ensures var payload := ClientCodec.BatchPayload(bets);
      && |payload| >= 1
      && ServerCodec.Records(payload[1..] + "\n") == RecordTexts(bets)
  {
    var payload := ClientCodec.BatchPayload(bets);
    var texts := RecordTexts(bets);
    PayloadIsJoin(bets);
    var joined := Join(texts, ';');
    assert payload[1..] == joined;
    assert DropLast(joined + "\n") == joined;
    assert AllFree(texts, ';') by {
      forall i | 0 <= i < |texts| ensures Free(texts[i], ';') {
        RecordFields(bets[i]);
      }
    }
    SplitJoin(texts, ';');
  }

  /** Where the server's header read cuts the client's frame. */
  lemma FrameCut(bets: seq<ClientCodec.ClientBet>, batchId: int, more: String)
    requires |ClientCodec.BatchPayload(bets)| < 10000 && |bets| < 100 && -1000 < batchId < 10000
    ensures var m := ClientCodec.BatchMessage(bets, batchId) + more;
      && m[..ServerCodec.HeaderSize] == ClientCodec.BatchHeader(bets, batchId)
      && m[ServerCodec.HeaderSize..] == ClientCodec.BatchPayload(bets) + "\n" + more
      && |ClientCodec.BatchMessage(bets, batchId)| == 14 + |ClientCodec.BatchPayload(bets)|
  {
    ClientCodec.BatchHeaderWidth(bets, batchId);
  }

  /**
    Cross-side round trip: the server, reading the 13-byte header and then
    the BET frame from the bytes the client sends (followed by anything),
    gets back every bet in order, less its bet id, and the batch id, and
    consumes exactly the rest of the frame.
   */
  lemma BatchRoundTrip(bets: seq<ClientCodec.ClientBet>, batchId: int, more: String)
    requires 1 <= |bets| < 100
    requires |ClientCodec.BatchPayload(bets)| < 10000
    requires -1000 < batchId < 10000
    requires forall i :: 0 <= i < |bets| ==> Clean(bets[i])
    ensures var m := ClientCodec.BatchMessage(bets, batchId) + more;
      && m[..3] == "BET"
      && ServerCodec.DecodeBet(m[..ServerCodec.HeaderSize], m[ServerCodec.HeaderSize..])
        == (ServerCodec.ReadBetResult(Some(ServerViews(bets)), Some(batchId)),
            |ClientCodec.BatchMessage(bets, batchId)| - ServerCodec.HeaderSize)
  {
    var payload := ClientCodec.BatchPayload(bets);
    var m := ClientCodec.BatchMessage(bets, batchId) + more;
    FrameCut(bets, batchId, more);
    HeaderFields(bets, batchId);
    PayloadRecords(bets);
    RecordsParse(bets);
    var body := m[ServerCodec.HeaderSize..];
    assert body[1..1 + |payload|] == payload[1..] + "\n";
    assert ServerCodec.ParsePayload(body[1..1 + |payload|], |bets|) == Some(ServerViews(bets));
  }

  /**
    An empty batch is never accepted: its frame carries only the newline as
    payload, which the server skips as the delimiter before reading an empty
    payload whose one empty record is not a bet.
   */
  lemma EmptyBatchRejected(batchId: int, more: String)
    requires -1000 < batchId < 10000
    ensures var m := ClientCodec.BatchMessage([], batchId) + more;
      ServerCodec.DecodeBet(m[..ServerCodec.HeaderSize], m[ServerCodec.HeaderSize..])
        == (ServerCodec.ReadBetResult(None, Some(batchId)), 1)
  {
    var m := ClientCodec.BatchMessage([], batchId) + more;
    ClientCodec.BatchHeaderWidth([], batchId);
    HeaderFields([], batchId);
    assert m[..13] == ClientCodec.BatchHeader([], batchId);
    assert m[13..] == "\n" + more;
    ServerCodec.EmptyPayloadRejected([], 0);
  }

  /**
    Cross-side ACK: from the bytes the server sends to confirm a batch, the
    client reads ",agency,batch_id" and stops just before the final newline.
   */
  lemma AckRoundTrip(agency: String, batchId: int, more: String)
    requires |ServerCodec.ConfirmationPayload(agency, batchId)| < 10000
    ensures var m := ServerCodec.ConfirmationMessage(agency, batchId);
      ClientCodec.DecodeAck(m + more) == (Success("," + agency + "," + Decimal(batchId)), |m| - 1)
  {
    var m := ServerCodec.ConfirmationMessage(agency, batchId);
    var payload := ServerCodec.ConfirmationPayload(agency, batchId);
    var data := m + more;
    ServerCodec.ConfirmationLayout(agency, batchId);
    assert data[..4] == "ACK,";
    assert data[4..8] == m[4..8];
    ClientCodec.DecodeAckAccepts(data);
    assert data[8..8 + |payload|] == "," + agency + "," + Decimal(batchId);
  }

  /**
    The ACK payload the server builds is the one the client expects exactly
    when the agency is the client's id and the batch ids agree, whatever the
    ids contain: the number after the last comma holds no comma.
   */
  lemma AckMatches(agency: String, batchId: int, clientId: String, expectedId: int)
    ensures "," + agency + "," + Decimal(batchId) == ClientCodec.ExpectedAck(clientId, expectedId)
      <==> agency == clientId && batchId == expectedId
  {
    var a := agency + "," + Decimal(batchId);
    var b := clientId + "," + Decimal(expectedId);
    assert "," + agency + "," + Decimal(batchId) == "," + a;
    assert ClientCodec.ExpectedAck(clientId, expectedId) == "," + b;
    if "," + a == "," + b {
      assert a == ("," + a)[1..] == ("," + b)[1..] == b;
      LastDelimiter(agency, Decimal(batchId), clientId, Decimal(expectedId), ',');
      DecimalInjective(batchId, expectedId);
    }
  }

  /**
    End to end: when the server confirms a batch of agency `agency` and id
    `batchId`, the client's check of the ACK passes exactly when `agency` is
    its own id and `batchId` the batch it sent.
   */
  lemma ConfirmationAccepted(agency: String, batchId: int, clientId: String, expectedId: int, more: String)
    requires |ServerCodec.ConfirmationPayload(agency, batchId)| < 10000
    ensures ClientCodec.DecodeAck(ServerCodec.ConfirmationMessage(agency, batchId) + more).0
        == Success(ClientCodec.ExpectedAck(clientId, expectedId))
      <==> agency == clientId && batchId == expectedId
  {
    AckRoundTrip(agency, batchId, more);
    AckMatches(agency, batchId, clientId, expectedId);
  }
}
