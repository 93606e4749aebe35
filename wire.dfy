/** The request frame shared by client and server, and the unframed reply.

    A frame is [total_size:u32][op:u8][key_hash:u64][key_len:u32][key], plus
    [value_len:u32][value] for PUT, every integer big-endian.  total_size
    counts the whole frame, its own four bytes included. */
module Wire {
  import opened Bytes

  const OP_GET: byte := 1
  const OP_PUT: byte := 2
  const OP_DEL: byte := 3

  /** Width of the total_size field. */
  const SIZE_FIELD: nat := 4
  /** total_size, op, key_hash and key_len: the bytes the server reads from
      every frame before it checks anything. */
  const HEADER_SIZE: nat := 17
  /** Offsets of the fixed fields inside a frame. */
  const OP_AT: nat := 4
  const HASH_AT: nat := 5
  const KEY_LEN_AT: nat := 13

  /** The status byte that opens every reply: '0' success, '1' failure. */
  const STATUS_OK: byte := 48
  const STATUS_FAIL: byte := 49

  const OK_REPLY: seq<byte> := Ascii("0OK")
  const DELETED_REPLY: seq<byte> := Ascii("0DELETED")
  const NOT_FOUND_REPLY: seq<byte> := Ascii("1NOT_FOUND")
  const INVALID_REPLY: seq<byte> := Ascii("1ERROR: Invalid message")
  const UNKNOWN_REPLY: seq<byte> := Ascii("1ERROR: Unknown command")

  /** A request as the server understands one frame. */
  datatype Request =
    | Get(keyHash: u64, key: seq<byte>)
    | Put(keyHash: u64, key: seq<byte>, value: seq<byte>)
    | Del(keyHash: u64, key: seq<byte>)
    | Unknown(op: byte)
    | Malformed

  // ---------------------------------------------------------------------
  // Client side: building a frame
  // ---------------------------------------------------------------------

  /** Bytes a frame for op occupies: the header and the key, and for PUT the
      value length and the value. */
  function FrameLength(op: byte, key: seq<byte>, value: seq<byte>): nat
  {
    HEADER_SIZE + |key| + (if op == OP_PUT then SIZE_FIELD + |value| else 0)
  }

  /** The frame fits when its length is representable in total_size. */
  predicate FrameFits(op: byte, key: seq<byte>, value: seq<byte>)
  {
    FrameLength(op, key, value) < TWO_32
  }

  /** value_len and value, which only a PUT frame carries. */
  function ValueField(op: byte, value: seq<byte>): seq<byte>
  {
    if op == OP_PUT then BE32(|value| % TWO_32) + value else []
  }

  /** The frame the client writes.  total_size, key_len and value_len are
      computed in 32-bit unsigned arithmetic and so wrap modulo 2^32. */
  function EncodeFrame(op: byte, keyHash: u64, key: seq<byte>, value: seq<byte>): seq<byte>
  {
    BE32(FrameLength(op, key, value) % TWO_32)
      + ([op] + (BE64(keyHash) + (BE32(|key| % TWO_32) + (key + ValueField(op, value)))))
  }

  /** Where every field of an encoded frame sits. */
  lemma {:induction false} FrameLayout(op: byte, keyHash: u64, key: seq<byte>, value: seq<byte>)
    ensures var f := EncodeFrame(op, keyHash, key, value);
      && |f| == FrameLength(op, key, value)
      && f[..SIZE_FIELD] == BE32(|f| % TWO_32)
      && f[OP_AT] == op
      && f[HASH_AT..KEY_LEN_AT] == BE64(keyHash)
      && f[KEY_LEN_AT..HEADER_SIZE] == BE32(|key| % TWO_32)
      && f[HEADER_SIZE..] == key + ValueField(op, value)
  {
    var f := EncodeFrame(op, keyHash, key, value);
    var x3 := key + ValueField(op, value);
    var x2 := BE32(|key| % TWO_32) + x3;
    var x1 := BE64(keyHash) + x2;
    var x0 := [op] + x1;
    assert f == BE32(FrameLength(op, key, value) % TWO_32) + x0;
    assert f[SIZE_FIELD..] == x0 && x0[1..] == x1 && x1[8..] == x2 && x2[4..] == x3;
    assert f[HEADER_SIZE..] == x3;
    assert f[HASH_AT..KEY_LEN_AT] == x1[..8];
    assert f[KEY_LEN_AT..HEADER_SIZE] == x2[..4];
  }

  /** An encoded frame's length, and the total_size field at its front. */
  lemma {:induction false} EncodedSize(op: byte, keyHash: u64, key: seq<byte>, value: seq<byte>)
    ensures var f := EncodeFrame(op, keyHash, key, value);
      |f| == FrameLength(op, key, value) && f[..SIZE_FIELD] == BE32(FrameLength(op, key, value) % TWO_32)
  {
    var rest := [op] + (BE64(keyHash) + (BE32(|key| % TWO_32) + (key + ValueField(op, value))));
    assert |ValueField(op, value)| == if op == OP_PUT then SIZE_FIELD + |value| else 0;
    assert EncodeFrame(op, keyHash, key, value)[..SIZE_FIELD] == (BE32(FrameLength(op, key, value) % TWO_32) + rest)[..SIZE_FIELD];
  }

  /** When it fits, the declared total_size is the frame's own length,
      prefix included: 17 + |key| for GET and DEL, 21 + |key| + |value| for PUT. */
  lemma {:induction false} DeclaredSizeIsFrameLength(op: byte, keyHash: u64, key: seq<byte>, value: seq<byte>)
    requires FrameFits(op, key, value)
    ensures var f := EncodeFrame(op, keyHash, key, value);
      && FromBE32(f[..SIZE_FIELD]) == |f|
      && |f| == (if op == OP_PUT then 21 + |key| + |value| else 17 + |key|)
  {
    var f := EncodeFrame(op, keyHash, key, value);
    var n := FrameLength(op, key, value);
    assert FromBE32(f[..SIZE_FIELD]) == n by {
      EncodedSize(op, keyHash, key, value);
      assert n % TWO_32 == n;
      FromBE32OfBE32(n);
    }
    EncodedSize(op, keyHash, key, value);
  }

  /** For GET and DEL the value argument is not encoded at all. */
  lemma EncodingIgnoresValue(op: byte, keyHash: u64, key: seq<byte>, value1: seq<byte>, value2: seq<byte>)
    requires op != OP_PUT
    ensures EncodeFrame(op, keyHash, key, value1) == EncodeFrame(op, keyHash, key, value2)
  {
  }

  // ---------------------------------------------------------------------
  // Server side: cutting a frame off the buffer and reading its fields
  // ---------------------------------------------------------------------

  /** What the server's inner loop finds at the front of its buffer. */
  datatype Split =
    | NeedMore                                  // fewer than 4 bytes, or fewer than total_size
    | Undefined                                 // total_size < 17: the field reads run past the message
    | Frame(message: seq<byte>, rest: seq<byte>)

  function DeclaredSize(buffer: seq<byte>): u32
    requires |buffer| >= SIZE_FIELD
  {
    FromBE32(buffer[..SIZE_FIELD])
  }

  function NextFrame(buffer: seq<byte>): (s: Split)
    ensures s.Frame? ==>
      && |buffer| >= SIZE_FIELD
      && buffer == s.message + s.rest
      && |s.message| == DeclaredSize(buffer) >= HEADER_SIZE
  {
    if |buffer| < SIZE_FIELD then NeedMore
    else
      var total := DeclaredSize(buffer);
      if |buffer| < total then NeedMore
      else if total < HEADER_SIZE then Undefined
      else Frame(buffer[..total], buffer[total..])
  }

  /** A frame is cut only once all of it is buffered: the buffer is left
      alone exactly when it holds less than four bytes or less than
      total_size bytes. */
  lemma NextFrameWaitsForWholeFrame(buffer: seq<byte>)
    ensures NextFrame(buffer).NeedMore? <==>
      (|buffer| < SIZE_FIELD || |buffer| < DeclaredSize(buffer))
    ensures NextFrame(buffer).Undefined? <==>
      (|buffer| >= SIZE_FIELD && DeclaredSize(buffer) <= |buffer| && DeclaredSize(buffer) < HEADER_SIZE)
  {
  }

  /** Bytes arriving later never change a frame already complete at the
      front of the buffer, nor a declared size that is already undefined. */
  lemma NextFrameAppend(buffer: seq<byte>, more: seq<byte>)
    ensures NextFrame(buffer).Frame? ==>
      NextFrame(buffer + more) == Frame(NextFrame(buffer).message, NextFrame(buffer).rest + more)
    ensures NextFrame(buffer).Undefined? ==> NextFrame(buffer + more).Undefined?
  {
    if |buffer| >= SIZE_FIELD {
      assert (buffer + more)[..SIZE_FIELD] == buffer[..SIZE_FIELD];
      if NextFrame(buffer).Frame? {
        var total := DeclaredSize(buffer);
        assert (buffer + more)[..total] == buffer[..total];
        assert (buffer + more)[total..] == buffer[total..] + more;
      }
    }
  }

  function KeyLength(message: seq<byte>): u32
    requires |message| >= HEADER_SIZE
  {
    FromBE32(message[KEY_LEN_AT..HEADER_SIZE])
  }

  /** The request a whole frame carries, read field by field as the server
      does.  The key is checked before the op, so an overrunning key is
      Malformed whatever the op; bytes after the last field are ignored. */
  function Parse(message: seq<byte>): Request
    requires |message| >= HEADER_SIZE
  {
    var op := message[OP_AT];
    var keyHash := FromBE64(message[HASH_AT..KEY_LEN_AT]);
    var keyEnd := HEADER_SIZE + KeyLength(message);
    if keyEnd > |message| then Malformed
    else
      var key := message[HEADER_SIZE..keyEnd];
      if op == OP_GET then Get(keyHash, key)
      else if op == OP_PUT then
        if keyEnd + SIZE_FIELD > |message| then Malformed
        else
          var valueEnd := keyEnd + SIZE_FIELD + FromBE32(message[keyEnd..keyEnd + SIZE_FIELD]);
          if valueEnd > |message| then Malformed
          else Put(keyHash, key, message[keyEnd + SIZE_FIELD..valueEnd])
      else if op == OP_DEL then Del(keyHash, key)
      else Unknown(op)
  }

  /** The request the client meant to send with op. */
  function Intended(op: byte, keyHash: u64, key: seq<byte>, value: seq<byte>): Request
  {
    if op == OP_GET then Get(keyHash, key)
    else if op == OP_PUT then Put(keyHash, key, value)
    else if op == OP_DEL then Del(keyHash, key)
    else Unknown(op)
  }

  /** Parse once the key length is known to match a key at the front of
      what follows the header. */
  lemma {:induction false} ParseAfterKey(message: seq<byte>, key: seq<byte>, tail: seq<byte>)
    requires |message| >= HEADER_SIZE && KeyLength(message) == |key|
    requires message[HEADER_SIZE..] == key + tail
    ensures var op := message[OP_AT];
      var keyHash := FromBE64(message[HASH_AT..KEY_LEN_AT]);
      Parse(message) ==
        if op == OP_GET then Get(keyHash, key)
        else if op == OP_DEL then Del(keyHash, key)
        else if op != OP_PUT then Unknown(op)
        else if |tail| < SIZE_FIELD || SIZE_FIELD + FromBE32(tail[..SIZE_FIELD]) > |tail| then Malformed
        else Put(keyHash, key, tail[SIZE_FIELD..SIZE_FIELD + FromBE32(tail[..SIZE_FIELD])])
  {
    var keyEnd := HEADER_SIZE + |key|;
    assert message[HEADER_SIZE..keyEnd] == key;
    if |tail| >= SIZE_FIELD {
      assert message[keyEnd..keyEnd + SIZE_FIELD] == tail[..SIZE_FIELD];
      var valueEnd := SIZE_FIELD + FromBE32(tail[..SIZE_FIELD]);
      if valueEnd <= |tail| {
        assert message[keyEnd + SIZE_FIELD..keyEnd + valueEnd] == tail[SIZE_FIELD..valueEnd];
      }
    }
  }

  /** The fields the server reads first, in a frame whose key length fits. */
  lemma {:induction false} EncodedHeader(op: byte, keyHash: u64, key: seq<byte>, value: seq<byte>)
    requires |key| < TWO_32
    ensures var f := EncodeFrame(op, keyHash, key, value);
      && |f| >= HEADER_SIZE
      && f[OP_AT] == op
      && FromBE64(f[HASH_AT..KEY_LEN_AT]) == keyHash
      && KeyLength(f) == |key|
      && f[HEADER_SIZE..] == key + ValueField(op, value)
  {
    FrameLayout(op, keyHash, key, value);
    FromBE64OfBE64(keyHash);
    assert |key| % TWO_32 == |key|;
    FromBE32OfBE32(|key|);
  }

  /** A PUT's value field gives back the value length and the value. */
  lemma {:induction false} EncodedValueField(value: seq<byte>)
    requires |value| < TWO_32
    ensures var tail := ValueField(OP_PUT, value);
      && |tail| == SIZE_FIELD + |value|
      && FromBE32(tail[..SIZE_FIELD]) == |value|
      && tail[SIZE_FIELD..] == value
  {
    assert |value| % TWO_32 == |value|;
    FromBE32OfBE32(|value|);
  }

  /** Round trip: the server reads back what the client encoded. */
  lemma {:induction false} ParseEncodeFrame(op: byte, keyHash: u64, key: seq<byte>, value: seq<byte>)
    requires FrameFits(op, key, value)
    ensures |EncodeFrame(op, keyHash, key, value)| >= HEADER_SIZE
    ensures Parse(EncodeFrame(op, keyHash, key, value)) == Intended(op, keyHash, key, value)
  {
    var f := EncodeFrame(op, keyHash, key, value);
    var tail := ValueField(op, value);
    EncodedHeader(op, keyHash, key, value);
    ParseAfterKey(f, key, tail);
    if op == OP_PUT {
      EncodedValueField(value);
    }
  }

  /** Padding inside a frame after the last field does not change what a
      well-formed frame means. */
  lemma {:induction false} ParseIgnoresPadding(message: seq<byte>, padding: seq<byte>)
    requires |message| >= HEADER_SIZE && !Parse(message).Malformed?
    ensures Parse(message + padding) == Parse(message)
  {
    var m := message + padding;
    assert m[..|message|] == message;
    assert m[KEY_LEN_AT..HEADER_SIZE] == message[KEY_LEN_AT..HEADER_SIZE];
    assert m[HASH_AT..KEY_LEN_AT] == message[HASH_AT..KEY_LEN_AT];
    var keyEnd := HEADER_SIZE + KeyLength(message);
    assert m[HEADER_SIZE..keyEnd] == message[HEADER_SIZE..keyEnd];
    if message[OP_AT] == OP_PUT {
      assert m[keyEnd..keyEnd + SIZE_FIELD] == message[keyEnd..keyEnd + SIZE_FIELD];
      var valueEnd := keyEnd + SIZE_FIELD + FromBE32(message[keyEnd..keyEnd + SIZE_FIELD]);
      assert m[keyEnd + SIZE_FIELD..valueEnd] == message[keyEnd + SIZE_FIELD..valueEnd];
    }
  }

  /** A key length running past the frame makes it Malformed, whatever the op. */
  lemma KeyOverrunIsMalformed(message: seq<byte>)
    requires |message| >= HEADER_SIZE && HEADER_SIZE + KeyLength(message) > |message|
    ensures Parse(message) == Malformed
  {
  }

  /** An encoded frame at the front of the buffer is cut off whole, and what
      follows it is kept in order. */
  lemma {:induction false} NextFrameOfEncoded(op: byte, keyHash: u64, key: seq<byte>, value: seq<byte>, rest: seq<byte>)
    requires FrameFits(op, key, value)
    ensures NextFrame(EncodeFrame(op, keyHash, key, value) + rest)
         == Frame(EncodeFrame(op, keyHash, key, value), rest)
  {
    var f := EncodeFrame(op, keyHash, key, value);
    DeclaredSizeIsFrameLength(op, keyHash, key, value);
    var b := f + rest;
    assert b[..SIZE_FIELD] == f[..SIZE_FIELD];
    assert b[..|f|] == f && b[|f|..] == rest;
  }

  // ---------------------------------------------------------------------
  // Client side: reading the reply
  // ---------------------------------------------------------------------

  /** A reply as the client sees it: the status byte and the rest. */
  datatype Reply = Reply(status: byte, payload: seq<byte>)

  predicate IsLineEnding(b: byte)
  {
    b == 10 || b == 13
  }

  /** The text with every trailing '\n' and '\r' removed: the longest prefix
      that does not end in one, such that only line endings were removed. */
  function StripLineEndings(s: seq<byte>): (r: seq<byte>)
    ensures r <= s
    ensures r == [] || !IsLineEnding(r[|r| - 1])
    ensures forall i | |r| <= i < |s| :: IsLineEnding(s[i])
  {
    if s != [] && IsLineEnding(s[|s| - 1]) then StripLineEndings(s[..|s| - 1]) else s
  }

  /** A leading byte that is not a line ending is never stripped: stripping
      acts on what follows it alone. */
  lemma {:induction false} StripAfterFirst(b: byte, rest: seq<byte>)
    requires !IsLineEnding(b)
    ensures StripLineEndings([b] + rest) == [b] + StripLineEndings(rest)
    decreases |rest|
  {
    var whole := [b] + rest;
    if rest != [] && IsLineEnding(rest[|rest| - 1]) {
      assert whole[..|whole| - 1] == [b] + rest[..|rest| - 1];
      StripAfterFirst(b, rest[..|rest| - 1]);
    } else {
      assert whole[|whole| - 1] == if rest == [] then b else rest[|rest| - 1];
    }
  }

  /** The reply in a received chunk: None when nothing is left after
      stripping, otherwise the first byte as status and the rest as payload. */
  function ParseReply(raw: seq<byte>): (reply: Option<Reply>)
    ensures reply.Some? <==> StripLineEndings(raw) != []
    ensures reply.Some? ==> [reply.value.status] + reply.value.payload == StripLineEndings(raw)
  {
    var text := StripLineEndings(raw);
    if text == [] then None else Some(Reply(text[0], text[1..]))
  }

  /** Trailing line endings after a reply do not change it. */
  lemma {:induction false} ParseReplyIgnoresLineEndings(raw: seq<byte>, endings: seq<byte>)
    requires forall i | 0 <= i < |endings| :: IsLineEnding(endings[i])
    ensures ParseReply(raw + endings) == ParseReply(raw)
    decreases |endings|
  {
    if endings != [] {
      var shorter := endings[..|endings| - 1];
      var whole := raw + endings;
      assert whole[..|whole| - 1] == raw + shorter;
      assert IsLineEnding(whole[|whole| - 1]);
      assert StripLineEndings(whole) == StripLineEndings(raw + shorter);
      ParseReplyIgnoresLineEndings(raw, shorter);
    } else {
      assert raw + endings == raw;
    }
  }

  /** A reply the server writes is read back as written, unless its last
      byte is a line ending. */
  lemma {:induction false} ParseReplyOfResponse(status: byte, payload: seq<byte>)
    requires !IsLineEnding(if payload == [] then status else payload[|payload| - 1])
    ensures ParseReply([status] + payload) == Some(Reply(status, payload))
  {
    var raw := [status] + payload;
    assert raw[|raw| - 1] == if payload == [] then status else payload[|payload| - 1];
    assert StripLineEndings(raw) == raw;
  }

  /** ... and a payload that ends in a line ending comes back shortened. */
  lemma {:induction false} TrailingLineEndingIsLost(status: byte, payload: seq<byte>)
    requires payload != [] && IsLineEnding(payload[|payload| - 1])
    ensures ParseReply([status] + payload) != Some(Reply(status, payload))
  {
    var raw := [status] + payload;
    assert raw[|raw| - 1] == payload[|payload| - 1];
    assert |StripLineEndings(raw)| < |raw|;
  }
}
