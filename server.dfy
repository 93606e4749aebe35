/** The server's connection handler: received bytes are appended to a
    per-connection buffer, every complete frame at its front is cut off,
    parsed and applied to the store, and one reply is written per frame. */
module Server {
  import opened Bytes
  import opened Wire
  import opened Store

  /** The reply to one request and the store after it. */
  datatype Effect = Effect(response: seq<byte>, shards: Shards)

  /** What the server does with one parsed request. */
  function Dispatch(req: Request, s: Shards): (e: Effect)
    ensures !req.Put? && !req.Del? ==> e.shards == s
    ensures req.Malformed? ==> e.response == INVALID_REPLY
    ensures req.Unknown? ==> e.response == UNKNOWN_REPLY
    ensures req.Get? ==>
      && |e.response| > 0
      && (e.response[0] == STATUS_OK <==> Lookup(s, req.keyHash, req.key).Some?)
      && (Lookup(s, req.keyHash, req.key).Some? ==> e.response[1..] == Lookup(s, req.keyHash, req.key).value)
      && (Lookup(s, req.keyHash, req.key).None? ==> e.response == NOT_FOUND_REPLY)
    ensures req.Put? ==> e.response == OK_REPLY && e.shards == Insert(s, req.keyHash, req.key, req.value)
    ensures req.Del? ==>
      && e.shards == Erase(s, req.keyHash, req.key)
      && e.response == (if Lookup(s, req.keyHash, req.key).Some? then DELETED_REPLY else NOT_FOUND_REPLY)
  {
    match req
    case Get(keyHash, key) =>
      var response := match Lookup(s, keyHash, key)
        case Some(value) => [STATUS_OK] + value
        case None => NOT_FOUND_REPLY;
      Effect(response, s)
    case Put(keyHash, key, value) => Effect(OK_REPLY, Insert(s, keyHash, key, value))
    case Del(keyHash, key) =>
      var erased := Lookup(s, keyHash, key).Some?;
      Effect(if erased then DELETED_REPLY else NOT_FOUND_REPLY, Erase(s, keyHash, key))
    case Unknown(_) => Effect(UNKNOWN_REPLY, s)
    case Malformed => Effect(INVALID_REPLY, s)
  }

  /** A GET after a PUT to the same entry returns the value put. */
  lemma PutThenGet(s: Shards, keyHash: u64, key: Key, value: Value, getHash: u64)
    requires PartitionOf(getHash) == PartitionOf(keyHash)
    ensures Dispatch(Get(getHash, key), Dispatch(Put(keyHash, key, value), s).shards).response
         == [STATUS_OK] + value
  {
    var t := Dispatch(Put(keyHash, key, value), s).shards;
    assert Lookup(t, getHash, key) == Lookup(t, keyHash, key);
  }

  /** A DEL of a present entry answers DELETED, and a GET after it NOT_FOUND;
      a second DEL answers NOT_FOUND and changes nothing. */
  lemma DelThenGet(s: Shards, keyHash: u64, key: Key, getHash: u64)
    requires PartitionOf(getHash) == PartitionOf(keyHash)
    ensures var d := Dispatch(Del(keyHash, key), s);
      && (d.response == DELETED_REPLY <==> Lookup(s, keyHash, key).Some?)
      && Dispatch(Get(getHash, key), d.shards).response == NOT_FOUND_REPLY
      && Dispatch(Del(keyHash, key), d.shards) == Effect(NOT_FOUND_REPLY, d.shards)
  {
    var d := Dispatch(Del(keyHash, key), s);
    assert Lookup(d.shards, getHash, key) == Lookup(d.shards, keyHash, key);
    assert DELETED_REPLY[1] != NOT_FOUND_REPLY[1];
  }

  // ---------------------------------------------------------------------
  // The inner loop: drain every complete frame from the buffer
  // ---------------------------------------------------------------------

  /** What is left after the inner loop stops: the unconsumed bytes, the
      replies written, the store, and whether it stopped on a total_size
      below 17, where the C++ reads outside the message. */
  datatype Drained = Drained(rest: seq<byte>, responses: seq<seq<byte>>, shards: Shards, undefined: bool)

  function Drain(buffer: seq<byte>, s: Shards): (d: Drained)
    ensures d.undefined <==> NextFrame(d.rest).Undefined?
    ensures !d.undefined ==> NextFrame(d.rest).NeedMore?
    decreases |buffer|
  {
    match NextFrame(buffer)
    case NeedMore => Drained(buffer, [], s, false)
    case Undefined => Drained(buffer, [], s, true)
    case Frame(message, rest) =>
      var e := Dispatch(Parse(message), s);
      var d := Drain(rest, e.shards);
      d.(responses := [e.response] + d.responses)
  }

  /** Draining buffer + more is draining buffer, then draining what it left
      with more appended; unless the first drain got stuck on an undefined
      frame, which stays stuck. */
  function Resume(d: Drained, more: seq<byte>): Drained
  {
    if d.undefined then d.(rest := d.rest + more)
    else
      var e := Drain(d.rest + more, d.shards);
      e.(responses := d.responses + e.responses)
  }

  /** One turn of the inner loop: the frame at the front is answered and
      the rest is drained from the store it leaves. */
  lemma DrainStep(buffer: seq<byte>, message: seq<byte>, rest: seq<byte>, s: Shards)
    requires NextFrame(buffer) == Frame(message, rest)
    ensures |message| >= HEADER_SIZE
    ensures var e := Dispatch(Parse(message), s);
      var d := Drain(rest, e.shards);
      && Drain(buffer, s).responses == [e.response] + d.responses
      && Drain(buffer, s).rest == d.rest
      && Drain(buffer, s).shards == d.shards
      && Drain(buffer, s).undefined == d.undefined
  {
  }

  /** An empty buffer is left as it is and answers nothing. */
  lemma DrainEmpty(s: Shards)
    ensures Drain([], s) == Drained([], [], s, false)
  {
    assert NextFrame([]).NeedMore?;
  }

  lemma AppendAssociates<T>(a: seq<T>, b: seq<T>, c: seq<T>)
    ensures a + (b + c) == (a + b) + c
  {
  }

  lemma {:induction false} DrainAppend(buffer: seq<byte>, more: seq<byte>, s: Shards)
    ensures Drain(buffer + more, s) == Resume(Drain(buffer, s), more)
    decreases |buffer|
  {
    NextFrameAppend(buffer, more);
    match NextFrame(buffer)
    case NeedMore =>
    case Undefined =>
    case Frame(message, rest) =>
      var e := Dispatch(Parse(message), s);
      var d0 := Drain(rest, e.shards);
      assert Drain(buffer, s) == d0.(responses := [e.response] + d0.responses);
      var d1 := Drain(rest + more, e.shards);
      assert Drain(buffer + more, s) == d1.(responses := [e.response] + d1.responses);
      DrainAppend(rest, more, e.shards);
      if !d0.undefined {
        var d2 := Drain(d0.rest + more, d0.shards);
        AppendAssociates([e.response], d0.responses, d2.responses);
      }
  }

  /** The handler consumes exactly the encoded frame at the front of its
      buffer, answers it as the client intended, and goes on with the rest. */
  lemma {:induction false} DrainEncodedFrame(op: byte, keyHash: u64, key: seq<byte>, value: seq<byte>, rest: seq<byte>, s: Shards)
    requires FrameFits(op, key, value)
    ensures var e := Dispatch(Intended(op, keyHash, key, value), s);
      var d := Drain(rest, e.shards);
      Drain(EncodeFrame(op, keyHash, key, value) + rest, s) == d.(responses := [e.response] + d.responses)
  {
    NextFrameOfEncoded(op, keyHash, key, value, rest);
    ParseEncodeFrame(op, keyHash, key, value);
  }

  /** A frame whose key runs past its end is answered "Invalid message" and
      removed whole, so the frame after it is still read and answered. */
  lemma {:induction false} MalformedFrameIsSkipped(bad: seq<byte>, op: byte, keyHash: u64, key: seq<byte>, value: seq<byte>, s: Shards)
    requires |bad| >= HEADER_SIZE && DeclaredSize(bad) == |bad|
    requires HEADER_SIZE + KeyLength(bad) > |bad|
    requires FrameFits(op, key, value)
    ensures Drain(bad + EncodeFrame(op, keyHash, key, value), s).responses
         == [INVALID_REPLY, Dispatch(Intended(op, keyHash, key, value), s).response]
  {
    var frame := EncodeFrame(op, keyHash, key, value);
    var buffer := bad + frame;
    assert NextFrame(buffer) == Frame(bad, frame) by {
      assert buffer[..SIZE_FIELD] == bad[..SIZE_FIELD];
      assert buffer[..|bad|] == bad && buffer[|bad|..] == frame;
    }
    var e := Dispatch(Intended(op, keyHash, key, value), s);
    assert Drain(frame, s).responses == [e.response] by {
      DrainEncodedFrame(op, keyHash, key, value, [], s);
      assert frame + [] == frame;
      assert NextFrame([]).NeedMore?;
    }
    KeyOverrunIsMalformed(bad);
    DrainStep(buffer, bad, frame, s);
  }

  // ---------------------------------------------------------------------
  // The outer loop: one receive after another
  // ---------------------------------------------------------------------

  /** The connection fed a sequence of receives.  An empty chunk is a
      receive that returned zero or an error, which ends the connection; an
      undefined frame ends the model of it too. */
  function Serve(buffer: seq<byte>, chunks: seq<seq<byte>>, s: Shards): (d: Drained)
    decreases |chunks|
  {
    if chunks == [] || chunks[0] == [] then Drained(buffer, [], s, false)
    else
      var d := Drain(buffer + chunks[0], s);
      if d.undefined then d
      else
        var e := Serve(d.rest, chunks[1..], d.shards);
        e.(responses := d.responses + e.responses)
  }

  /** One turn of the outer loop. */
  lemma ServeStep(buffer: seq<byte>, chunks: seq<seq<byte>>, s: Shards)
    requires chunks != [] && chunks[0] != []
    ensures var d := Drain(buffer + chunks[0], s);
      var e := Serve(d.rest, chunks[1..], d.shards);
      && (d.undefined ==> Serve(buffer, chunks, s) == d)
      && (!d.undefined ==>
            Serve(buffer, chunks, s).responses == d.responses + e.responses
            && Serve(buffer, chunks, s).shards == e.shards)
  {
  }

  function Concat(chunks: seq<seq<byte>>): seq<byte>
  {
    if chunks == [] then [] else chunks[0] + Concat(chunks[1..])
  }

  predicate NoEmptyChunk(chunks: seq<seq<byte>>)
  {
    forall i | 0 <= i < |chunks| :: chunks[i] != []
  }

  /** Two runs agree on everything observable: the replies, the store,
      whether they got stuck, and, when not stuck, the bytes left over. */
  predicate Agree(d1: Drained, d2: Drained)
  {
    && d1.responses == d2.responses
    && d1.shards == d2.shards
    && d1.undefined == d2.undefined
    && (!d1.undefined ==> d1.rest == d2.rest)
  }

  /** However the stream is cut into receives, the handler does what it
      would do with the whole stream in one buffer. */
  lemma {:induction false} ServeIsDrainOfConcat(buffer: seq<byte>, chunks: seq<seq<byte>>, s: Shards)
    requires NextFrame(buffer).NeedMore?
    requires NoEmptyChunk(chunks)
    ensures Agree(Serve(buffer, chunks, s), Drain(buffer + Concat(chunks), s))
    decreases |chunks|
  {
    if chunks == [] {
      assert buffer + Concat(chunks) == buffer;
    } else {
      var c := chunks[0];
      assert buffer + Concat(chunks) == (buffer + c) + Concat(chunks[1..]);
      DrainAppend(buffer + c, Concat(chunks[1..]), s);
      var d := Drain(buffer + c, s);
      if !d.undefined {
        ServeIsDrainOfConcat(d.rest, chunks[1..], d.shards);
      }
    }
  }

  /** So two ways of cutting the same bytes into receives give the same
      replies and the same store. */
  lemma {:induction false} ChunkingDoesNotMatter(chunks1: seq<seq<byte>>, chunks2: seq<seq<byte>>, s: Shards)
    requires NoEmptyChunk(chunks1) && NoEmptyChunk(chunks2)
    requires Concat(chunks1) == Concat(chunks2)
    ensures Agree(Serve([], chunks1, s), Serve([], chunks2, s))
  {
    ServeIsDrainOfConcat([], chunks1, s);
    ServeIsDrainOfConcat([], chunks2, s);
  }

  // ---------------------------------------------------------------------
  // The handler, updating its buffer and the store in place
  // ---------------------------------------------------------------------

  class ConnectionHandler {
    var buffer: seq<byte>
    const store: PartitionedStore

    ghost predicate Valid()
    {
      store.Valid()
    }

    constructor (store: PartitionedStore)
      requires store.Valid()
      ensures Valid() && this.store == store && buffer == []
    {
      this.store := store;
      buffer := [];
    }

    /** Read the fields of one whole frame at successive offsets and apply
        it to the partition its hash selects. */
    method HandleMessage(message: seq<byte>) returns (response: seq<byte>)
      requires Valid() && |message| >= HEADER_SIZE
      modifies store.partitions
      ensures Valid()
      ensures Effect(response, store.Contents()) == Dispatch(Parse(message), old(store.Contents()))
    {
      ghost var s := store.Contents();
      var offset := SIZE_FIELD;
      var op := message[offset];
      offset := offset + 1;
      var keyHash := FromBE64(message[offset..offset + 8]);
      offset := offset + 8;
      var keyLength := FromBE32(message[offset..offset + SIZE_FIELD]);
      offset := offset + SIZE_FIELD;
      if offset + keyLength > |message| {
        assert Parse(message) == Malformed;
        return INVALID_REPLY;
      }
      var key := message[offset..offset + keyLength];
      offset := offset + keyLength;
      var partition := PartitionOf(keyHash);
      if op == OP_GET {
        assert Parse(message) == Get(keyHash, key);
        var found := store.Find(partition, key);
        response := if found.Some? then [STATUS_OK] + found.value else NOT_FOUND_REPLY;
      } else if op == OP_PUT {
        if offset + SIZE_FIELD > |message| {
          assert Parse(message) == Malformed;
          return INVALID_REPLY;
        }
        var valueLength := FromBE32(message[offset..offset + SIZE_FIELD]);
        offset := offset + SIZE_FIELD;
        if offset + valueLength > |message| {
          assert Parse(message) == Malformed;
          return INVALID_REPLY;
        }
        var value := message[offset..offset + valueLength];
        assert Parse(message) == Put(keyHash, key, value);
        store.Assign(partition, key, value);
        assert store.Contents() == Insert(s, keyHash, key, value);
        response := OK_REPLY;
      } else if op == OP_DEL {
        assert Parse(message) == Del(keyHash, key);
        var erased := store.Remove(partition, key);
        assert store.Contents() == Erase(s, keyHash, key);
        response := if erased then DELETED_REPLY else NOT_FOUND_REPLY;
      } else {
        assert Parse(message) == Unknown(op);
        response := UNKNOWN_REPLY;
      }
    }

    /** One successful receive: append the chunk, then cut off and answer
        frames until the buffer holds no complete one. */
    method Receive(chunk: seq<byte>) returns (responses: seq<seq<byte>>, defined: bool)
      requires Valid()
      modifies this`buffer, store.partitions
      ensures Valid()
      ensures var d := Drain(old(buffer) + chunk, old(store.Contents()));
        && buffer == d.rest && responses == d.responses
        && store.Contents() == d.shards && defined == !d.undefined
    {
      buffer := buffer + chunk;
      responses := [];
      defined := true;
      ghost var goal := Drain(buffer, store.Contents());
      while true
        invariant Valid()
        invariant defined
        invariant var d := Drain(buffer, store.Contents());
          && d.rest == goal.rest && d.shards == goal.shards && d.undefined == goal.undefined
          && responses + d.responses == goal.responses
        decreases |buffer|
      {
        if |buffer| < SIZE_FIELD {
          break;
        }
        var totalSize := FromBE32(buffer[..SIZE_FIELD]);
        if |buffer| < totalSize {
          break;
        }
        if totalSize < HEADER_SIZE {
          defined := false;
          break;
        }
        ghost var before, s := buffer, store.Contents();
        var message := buffer[..totalSize];
        buffer := buffer[totalSize..];
        DrainStep(before, message, buffer, s);
        var response := HandleMessage(message);
        ghost var d := Drain(buffer, store.Contents());
        AppendAssociates(responses, [response], d.responses);
        responses := responses + [response];
      }
    }

    /** The connection's life: receive after receive until one returns
        nothing, answering frames as they complete. */
    method HandleClient(chunks: seq<seq<byte>>) returns (responses: seq<seq<byte>>)
      requires Valid()
      modifies this`buffer, store.partitions
      ensures Valid()
      ensures var d := Serve(old(buffer), chunks, old(store.Contents()));
        responses == d.responses && store.Contents() == d.shards
    {
      responses := [];
      var i := 0;
      ghost var goal := Serve(buffer, chunks, store.Contents());
      while i < |chunks|
        invariant Valid()
        invariant 0 <= i <= |chunks|
        invariant var d := Serve(buffer, chunks[i..], store.Contents());
          responses + d.responses == goal.responses && d.shards == goal.shards
      {
        if chunks[i] == [] {
          break;
        }
        ghost var before, s := buffer, store.Contents();
        ServeStep(before, chunks[i..], s);
        assert chunks[i..][1..] == chunks[i + 1..];
        var more, defined := Receive(chunks[i]);
        ghost var e := Serve(buffer, chunks[i + 1..], store.Contents());
        AppendAssociates(responses, more, e.responses);
        responses := responses + more;
        if !defined {
          break;
        }
        i := i + 1;
      }
    }
  }
}
