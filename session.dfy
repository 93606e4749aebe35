/** Client and server together over one connection: the frames the client
    encodes are drained by the server's handler, and each reply the server
    writes is what one recv() of at most RECV_CAPACITY bytes gives the
    client to parse. */
module Session {
  import opened Bytes
  import opened Wire
  import opened Store
  import opened Server
  import opened Transport
  import opened Client

  /** The reply the client reads when a whole server response is waiting. */
  function Received(response: seq<byte>): (reply: Option<Reply>)
    ensures |response| <= RECV_CAPACITY ==> reply == ParseReply(response)
  {
    ParseReply(Take(response, RECV_CAPACITY))
  }

  /** Two requests on one connection: the server answers both, in order,
      and consumes every byte. */
  lemma {:induction false} TwoRequests(op1: byte, op2: byte, keyHash: u64, key: seq<byte>, value1: seq<byte>, value2: seq<byte>, s: Shards)
    requires FrameFits(op1, key, value1) && FrameFits(op2, key, value2)
    ensures var e1 := Dispatch(Intended(op1, keyHash, key, value1), s);
      var e2 := Dispatch(Intended(op2, keyHash, key, value2), e1.shards);
      var d := Drain(EncodeFrame(op1, keyHash, key, value1) + EncodeFrame(op2, keyHash, key, value2), s);
      d == Drained([], [e1.response, e2.response], e2.shards, false)
  {
    var second := EncodeFrame(op2, keyHash, key, value2);
    var e1 := Dispatch(Intended(op1, keyHash, key, value1), s);
    var e2 := Dispatch(Intended(op2, keyHash, key, value2), e1.shards);
    var middle := Drain(second, e1.shards);
    assert middle == Drained([], [e2.response], e2.shards, false) by {
      DrainEmpty(e2.shards);
      DrainEncodedFrame(op2, keyHash, key, value2, [], e1.shards);
      assert second + [] == second;
    }
    DrainEncodedFrame(op1, keyHash, key, value1, second, s);
  }

  /** put(k, v) then get(k): put reports success and get returns v, as
      long as the reply fits one receive and v does not end in a line
      ending. */
  lemma {:induction false} PutThenGetReturnsValue(keyHash: u64, key: seq<byte>, value: seq<byte>, s: Shards)
    requires FrameFits(OP_PUT, key, value)
    requires 1 + |value| <= RECV_CAPACITY
    requires value == [] || !IsLineEnding(value[|value| - 1])
    ensures var d := Drain(EncodeFrame(OP_PUT, keyHash, key, value) + EncodeFrame(OP_GET, keyHash, key, []), s);
      && |d.responses| == 2 && d.rest == []
      && Succeeded(Received(d.responses[0]))
      && GetResult(Received(d.responses[1])) == Some(value)
      && Lookup(d.shards, keyHash, key) == Some(value)
  {
    TwoRequests(OP_PUT, OP_GET, keyHash, key, value, [], s);
    PutThenGet(s, keyHash, key, value, keyHash);
    ParseReplyOfResponse(STATUS_OK, OK_REPLY[1..]);
    assert [STATUS_OK] + OK_REPLY[1..] == OK_REPLY;
    ParseReplyOfResponse(STATUS_OK, value);
  }

  /** del(k) of a present key reports success, and a get after it
      returns the empty string. */
  lemma {:induction false} DelThenGetFindsNothing(keyHash: u64, key: seq<byte>, s: Shards)
    requires FrameFits(OP_DEL, key, [])
    requires Lookup(s, keyHash, key).Some?
    ensures var d := Drain(EncodeFrame(OP_DEL, keyHash, key, []) + EncodeFrame(OP_GET, keyHash, key, []), s);
      && |d.responses| == 2
      && Succeeded(Received(d.responses[0]))
      && GetResult(Received(d.responses[1])) == Some([])
  {
    TwoRequests(OP_DEL, OP_GET, keyHash, key, [], [], s);
    DelThenGet(s, keyHash, key, keyHash);
    DeletedIsSuccess();
    NotFoundIsFailure();
  }

  /** del(k) twice: the first reports success, the second failure. */
  lemma {:induction false} SecondDelFails(keyHash: u64, key: seq<byte>, s: Shards)
    requires FrameFits(OP_DEL, key, [])
    requires Lookup(s, keyHash, key).Some?
    ensures var d := Drain(EncodeFrame(OP_DEL, keyHash, key, []) + EncodeFrame(OP_DEL, keyHash, key, []), s);
      && |d.responses| == 2
      && Succeeded(Received(d.responses[0]))
      && !Succeeded(Received(d.responses[1]))
  {
    TwoRequests(OP_DEL, OP_DEL, keyHash, key, [], [], s);
    DelThenGet(s, keyHash, key, keyHash);
    DeletedIsSuccess();
    NotFoundIsFailure();
  }

  lemma DeletedIsSuccess()
    ensures Received(DELETED_REPLY) == Some(Reply(STATUS_OK, DELETED_REPLY[1..]))
  {
    ParseReplyOfResponse(STATUS_OK, DELETED_REPLY[1..]);
    assert [STATUS_OK] + DELETED_REPLY[1..] == DELETED_REPLY;
  }

  lemma NotFoundIsFailure()
    ensures Received(NOT_FOUND_REPLY) == Some(Reply(STATUS_FAIL, NOT_FOUND_REPLY[1..]))
  {
    ParseReplyOfResponse(STATUS_FAIL, NOT_FOUND_REPLY[1..]);
    assert [STATUS_FAIL] + NOT_FOUND_REPLY[1..] == NOT_FOUND_REPLY;
  }

  /** A value of RECV_CAPACITY bytes or more never comes back whole: the
      client reads at most RECV_CAPACITY bytes of the reply, status byte
      included. */
  lemma {:induction false} LongValueIsCut(value: seq<byte>)
    requires |value| >= RECV_CAPACITY
    ensures GetResult(Received([STATUS_OK] + value)) != Some(value)
  {
    var text := StripLineEndings(Take([STATUS_OK] + value, RECV_CAPACITY));
    assert |text| <= RECV_CAPACITY;
  }

  /** A value that ends in '\n' or '\r' comes back from get without its
      trailing line endings, so not unchanged. */
  lemma {:induction false} LineEndingIsCut(value: seq<byte>)
    requires |value| < RECV_CAPACITY
    requires value != [] && IsLineEnding(value[|value| - 1])
    ensures GetResult(Received([STATUS_OK] + value)) == Some(StripLineEndings(value))
    ensures GetResult(Received([STATUS_OK] + value)) != Some(value)
  {
    TrailingLineEndingIsLost(STATUS_OK, value);
    StripAfterFirst(STATUS_OK, value);
  }
}
