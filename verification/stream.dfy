/**
  The socket as both sides of the codec see it. A TCP connection carries a
  byte stream, not messages: a read of `n` bytes may return fewer, and a write
  may accept fewer than it was given. The incoming side is the data the peer
  sent, cut into the pieces successive reads happen to return; the outgoing
  side is the peer's reply to each successive write call.
 */
module Stream {
  import opened Wrappers
  import opened Text

  /**
    Incoming data, as the pieces successive reads deliver. A read never
    returns an empty piece while the connection is open: an empty read means
    the peer has closed it.
   */
  type Chunks = c: seq<String> | forall i :: 0 <= i < |c| ==> |c[i]| > 0

  /** The bytes still to be read, however they are cut. */
  function Contents(c: seq<String>): String
  {
    if |c| == 0 then [] else c[0] + Contents(c[1..])
  }

  /**
    One read asking for at most `n` bytes (Python's `sock.recv(n)`, Go's
    `conn.Read` into an `n`-byte buffer): a prefix of the next delivery, or
    nothing once the peer has closed.
   */
  function Recv(c: Chunks, n: nat): (r: (String, Chunks))
    ensures |r.0| <= n
    ensures Contents(c) == r.0 + Contents(r.1)
    ensures r.0 == [] <==> n == 0 || Contents(c) == []
  {
    if n == 0 || |c| == 0 then ([], c)
    else if |c[0]| <= n then (c[0], c[1..])
    else
      var rest := [c[0][n..]] + c[1..];
      assert rest[1..] == c[1..];
      assert c[0] == c[0][..n] + c[0][n..];
      (c[0][..n], rest)
  }

  /**
    The read loop used for every fixed-size field: keep reading until `n`
    bytes have arrived, each read asking only for what is still missing, and
    give up when the peer closes first.
   */
  method RecvExact(c: Chunks, n: nat) returns (data: String, ok: bool, rest: Chunks)
    ensures ok <==> |Contents(c)| >= n
    ensures ok ==> data == Contents(c)[..n] && Contents(rest) == Contents(c)[n..]
    ensures !ok ==> data == Contents(c) && Contents(rest) == []
  {
    data := [];
    rest := c;
    while |data| < n
      invariant |data| <= n
      invariant Contents(c) == data + Contents(rest)
      decreases n - |data|
    {
      var (piece, more) := Recv(rest, n - |data|);
      if piece == [] {
        ok := false;
        return;
      }
      data := data + piece;
      rest := more;
    }
    ok := true;
  }

  /** What the peer does with one write call: take up to `n` bytes, or fail. */
  datatype WriteReply = Accepts(n: nat) | Fails

  /** Why a full send stopped: the write failed, or it wrote nothing. */
  datatype SendError = WriteFailed | ConnectionBroken

  /**
    Reference outcome of sending bytes `sent..len` of a message against the
    peer's successive write replies: the final count of bytes moved and the
    error, if any. A peer that has no reply left has gone away.
   */
  function Transfer(len: nat, sent: nat, replies: seq<WriteReply>): (r: (nat, Option<SendError>))
    requires sent <= len
    ensures sent <= r.0 <= len
    ensures r.1 == None <==> r.0 == len
    decreases |replies|
  {
    if sent == len then (sent, None)
    else if |replies| == 0 || replies[0].Fails? then (sent, Some(WriteFailed))
    else if replies[0].n == 0 then (sent, Some(ConnectionBroken))
    else
      var k := if replies[0].n < len - sent then replies[0].n else len - sent;
      Transfer(len, sent + k, replies[1..])
  }

  /** Every one of the first `k` write calls accepts at least one byte. */
  predicate Progressing(replies: seq<WriteReply>, k: nat) {
    k <= |replies| && forall i :: 0 <= i < k ==> replies[i].Accepts? && replies[i].n > 0
  }

  /**
    The full-send loop of both sides: write what is still unsent until the
    whole message has gone, stopping at a failed or zero-byte write. The peer
    receives `wire`, always a prefix of the message, and all of it exactly
    when no error is reported.
   */
  method SendAll(message: String, replies: seq<WriteReply>) returns (wire: String, err: Option<SendError>)
    ensures |wire| <= |message| && wire == message[..|wire|]
    ensures err == None <==> wire == message
    ensures (|wire|, err) == Transfer(|message|, 0, replies)
  {
    var sent := 0;
    var rs := replies;
    wire := [];
    while sent < |message|
      invariant sent <= |message|
      invariant wire == message[..sent]
      invariant Transfer(|message|, sent, rs) == Transfer(|message|, 0, replies)
      decreases |message| - sent
    {
      if |rs| == 0 || rs[0].Fails? {
        err := Some(WriteFailed);
        return;
      }
      var k := if rs[0].n < |message| - sent then rs[0].n else |message| - sent;
      if k == 0 {
        err := Some(ConnectionBroken);
        return;
      }
      wire := wire + message[sent..sent + k];
      sent := sent + k;
      rs := rs[1..];
    }
    err := None;
  }

  /**
    A peer whose next `len - sent` write calls each accept at least one byte
    takes the whole message, however it splits it.
   */
  lemma {:induction false} TransferCompletes(len: nat, sent: nat, replies: seq<WriteReply>)
    requires sent <= len
    requires Progressing(replies, len - sent)
    ensures Transfer(len, sent, replies) == (len, None)
    decreases len - sent
  {
    if sent < len {
      var k := if replies[0].n < len - sent then replies[0].n else len - sent;
      assert Progressing(replies[1..], len - (sent + k)) by {
        forall i | 0 <= i < len - (sent + k)
          ensures replies[1..][i].Accepts? && replies[1..][i].n > 0
        {
          assert replies[1..][i] == replies[i + 1];
        }
      }
      TransferCompletes(len, sent + k, replies[1..]);
    }
  }
}
