/** The client: the server list it reads at start-up, the routing of a key
    to one server, the table of open connections, and get/put/del, each of
    which sends one frame and reads one reply. */
module Client {
  import opened Bytes
  import opened Wire
  import opened Transport

  const MAX_BUFFER_SIZE: nat := 1024
  /** recv() leaves one byte of the buffer unused. */
  const RECV_CAPACITY: nat := MAX_BUFFER_SIZE - 1

  const INT_MIN: int := -0x8000_0000
  const INT_MAX: int := 0x7fff_ffff

  /** The connection table's mark for "no connection". */
  const NO_CONNECTION: int := -1

  datatype ServerInfo = ServerInfo(address: string, port: int)

  // ---------------------------------------------------------------------
  // The server list: one "address:port" per line
  // ---------------------------------------------------------------------

  /** Position of the first ':' in line, if any. */
  function FindColon(line: string): (r: Option<nat>)
    ensures r.None? <==> ':' !in line
    ensures r.Some? ==> r.value < |line| && line[r.value] == ':' && ':' !in line[..r.value]
  {
    if line == [] then None
    else if line[0] == ':' then Some(0)
    else match FindColon(line[1..])
      case None => None
      case Some(i) =>
        assert line[..i + 1] == [line[0]] + line[1..][..i];
        Some(i + 1)
  }

  predicate IsDigit(c: char)
  {
    '0' as int <= c as int <= '9' as int
  }

  /** The white space std::stoi skips before a number. */
  predicate IsSpace(c: char)
  {
    c == ' ' || c == '\t' || c == '\n' || c == 11 as char || c == 12 as char || c == '\r'
  }

  function SkipSpaces(s: string): string
  {
    if s != [] && IsSpace(s[0]) then SkipSpaces(s[1..]) else s
  }

  /** What is left once the leading white space is skipped is a suffix of
      s that does not start with white space, and everything skipped was
      white space. */
  lemma {:induction false} SkipSpacesIsSuffix(s: string)
    ensures var r := SkipSpaces(s);
      && (r == [] || !IsSpace(r[0]))
      && |r| <= |s| && r == s[|s| - |r|..]
      && forall i | 0 <= i < |s| - |r| :: IsSpace(s[i])
  {
    if s != [] && IsSpace(s[0]) {
      SkipSpacesIsSuffix(s[1..]);
    }
  }

  /** The longest prefix of s made of decimal digits. */
  function LeadingDigits(s: string): string
  {
    if s != [] && IsDigit(s[0]) then [s[0]] + LeadingDigits(s[1..]) else []
  }

  lemma {:induction false} LeadingDigitsIsLongest(s: string)
    ensures var d := LeadingDigits(s);
      && d <= s
      && (forall i | 0 <= i < |d| :: IsDigit(d[i]))
      && (|d| < |s| ==> !IsDigit(s[|d|]))
  {
    if s != [] && IsDigit(s[0]) {
      LeadingDigitsIsLongest(s[1..]);
    }
  }

  /** The value of one character read as a decimal digit. */
  function DigitValue(c: char): int
  {
    c as int - '0' as int
  }

  /** The number a digit string writes in base ten. */
  function DigitsValue(d: string): int
  {
    if d == [] then 0
    else DigitsValue(d[..|d| - 1]) * 10 + DigitValue(d[|d| - 1])
  }

  /** std::stoi: optional white space, an optional sign, then at least one
      digit; None where it throws, for want of digits or out of int range. */
  function Stoi(s: string): (r: Option<int>)
    ensures r.Some? ==> INT_MIN <= r.value <= INT_MAX
  {
    var t := SkipSpaces(s);
    var negative := t != [] && t[0] == '-';
    var u := if t != [] && (t[0] == '+' || t[0] == '-') then t[1..] else t;
    var digits := LeadingDigits(u);
    if digits == [] then None
    else
      var v: int := if negative then -DigitsValue(digits) else DigitsValue(digits);
      if v < INT_MIN || v > INT_MAX then None else Some(v)
  }

  /** The decimal rendering of n, without leading zeros. */
  function Decimal(n: nat): (d: string)
    ensures |d| > 0 && forall i | 0 <= i < |d| :: IsDigit(d[i])
  {
    if n < 10 then [('0' as int + n) as char]
    else Decimal(n / 10) + [('0' as int + n % 10) as char]
  }

  lemma {:induction false} DigitsValueOfDecimal(n: nat)
    ensures DigitsValue(Decimal(n)) == n
  {
    if n >= 10 {
      var d := Decimal(n);
      assert d[..|d| - 1] == Decimal(n / 10);
      DigitsValueOfDecimal(n / 10);
    }
  }

  lemma {:induction false} LeadingDigitsOfDigits(d: string, rest: string)
    requires forall i | 0 <= i < |d| :: IsDigit(d[i])
    requires rest == [] || !IsDigit(rest[0])
    ensures LeadingDigits(d + rest) == d
    decreases |d|
  {
    if d != [] {
      assert (d + rest)[1..] == d[1..] + rest;
      LeadingDigitsOfDigits(d[1..], rest);
    } else {
      assert d + rest == rest;
    }
  }

  /** A port written in decimal, followed by anything but a digit, is read
      back as written. */
  lemma {:induction false} StoiOfDecimal(n: nat, rest: string)
    requires n <= INT_MAX
    requires rest == [] || !IsDigit(rest[0])
    ensures Stoi(Decimal(n) + rest) == Some(n)
  {
    var s := Decimal(n) + rest;
    assert IsDigit(s[0]);
    assert SkipSpaces(s) == s;
    LeadingDigitsOfDigits(Decimal(n), rest);
    DigitsValueOfDecimal(n);
  }

  /** What read_server_list makes of one line. */
  datatype LineResult = Skip | Entry(info: ServerInfo) | Throws

  function ParseLine(line: string): LineResult
  {
    match FindColon(line)
    case None => Skip
    case Some(colon) =>
      match Stoi(line[colon + 1..])
      case None => Throws
      case Some(port) => Entry(ServerInfo(line[..colon], port))
  }

  /** The servers a file with these lines lists, in order; None when stoi
      throws on one of them. */
  function ServerList(lines: seq<string>): Option<seq<ServerInfo>>
  {
    if lines == [] then Some([])
    else
      match ServerList(lines[..|lines| - 1])
      case None => None
      case Some(servers) =>
        match ParseLine(lines[|lines| - 1])
        case Skip => Some(servers)
        case Throws => None
        case Entry(info) => Some(servers + [info])
  }

  /** The lines that contain a ':', in order. */
  function ColonLines(lines: seq<string>): seq<string>
  {
    if lines == [] then []
    else
      var last := lines[|lines| - 1];
      ColonLines(lines[..|lines| - 1]) + if ':' in last then [last] else []
  }

  /** The address part of a line: everything before its first ':'. */
  function AddressPart(line: string): string
    requires ':' in line
  {
    line[..FindColon(line).value]
  }

  function PortPart(line: string): string
    requires ':' in line
  {
    line[FindColon(line).value + 1..]
  }

  /** One line, in terms of its address and port parts. */
  lemma ParseLineParts(line: string)
    ensures ':' !in line ==> ParseLine(line) == Skip
    ensures ':' in line && Stoi(PortPart(line)).None? ==> ParseLine(line) == Throws
    ensures ':' in line && Stoi(PortPart(line)).Some? ==>
      ParseLine(line) == Entry(ServerInfo(AddressPart(line), Stoi(PortPart(line)).value))
  {
  }

  /** Every port part of these colon lines is a number stoi accepts. */
  predicate PortsReadable(colon: seq<string>)
  {
    forall i | 0 <= i < |colon| :: ':' in colon[i] && Stoi(PortPart(colon[i])).Some?
  }

  /** The entries for these colon lines, all readable. */
  predicate IsEntriesOf(servers: seq<ServerInfo>, colon: seq<string>)
    requires PortsReadable(colon)
  {
    && |servers| == |colon|
    && forall i | 0 <= i < |colon| ::
         servers[i] == ServerInfo(AddressPart(colon[i]), Stoi(PortPart(colon[i])).value)
  }

  lemma {:induction false} ColonLinesHaveColon(lines: seq<string>)
    ensures forall i | 0 <= i < |ColonLines(lines)| :: ':' in ColonLines(lines)[i]
  {
    if lines != [] {
      ColonLinesHaveColon(lines[..|lines| - 1]);
    }
  }

  /** The list has one entry per line containing ':', in file order, with
      the address taken before the first ':' and the port read by stoi from
      what follows it; reading fails exactly when stoi fails on one of
      those lines. */
  lemma {:induction false} ServerListIsColonLines(lines: seq<string>)
    ensures ServerList(lines).Some? <==> PortsReadable(ColonLines(lines))
    ensures ServerList(lines).Some? ==> IsEntriesOf(ServerList(lines).value, ColonLines(lines))
  {
    if lines != [] {
      var init := lines[..|lines| - 1];
      var last := lines[|lines| - 1];
      ServerListIsColonLines(init);
      ParseLineParts(last);
      if ':' in last {
        ColonLineStep(lines);
      } else {
        assert ColonLines(lines) == ColonLines(init);
      }
    }
  }

  /** The last line contains ':': it adds one entry, or makes reading fail. */
  lemma {:induction false} ColonLineStep(lines: seq<string>)
    requires lines != [] && ':' in lines[|lines| - 1]
    ensures var before := ColonLines(lines[..|lines| - 1]);
      var last := lines[|lines| - 1];
      && (PortsReadable(ColonLines(lines)) <==> PortsReadable(before) && Stoi(PortPart(last)).Some?)
      && forall servers | PortsReadable(ColonLines(lines)) && IsEntriesOf(servers, before) ::
           IsEntriesOf(servers + [ServerInfo(AddressPart(last), Stoi(PortPart(last)).value)], ColonLines(lines))
  {
    var before := ColonLines(lines[..|lines| - 1]);
    var last := lines[|lines| - 1];
    assert ColonLines(lines) == before + [last];
    ColonLinesHaveColon(lines);
    AppendReadable(before, last);
    forall servers | PortsReadable(ColonLines(lines)) && IsEntriesOf(servers, before)
      ensures IsEntriesOf(servers + [ServerInfo(AddressPart(last), Stoi(PortPart(last)).value)], ColonLines(lines))
    {
      AppendEntry(servers, before, last);
    }
  }

  lemma {:induction false} AppendReadable(before: seq<string>, last: string)
    requires ':' in last
    ensures PortsReadable(before + [last]) <==> PortsReadable(before) && Stoi(PortPart(last)).Some?
  {
    var colon := before + [last];
    assert colon[|before|] == last;
    assert forall i | 0 <= i < |before| :: colon[i] == before[i];
  }

  lemma {:induction false} AppendEntry(servers: seq<ServerInfo>, before: seq<string>, last: string)
    requires ':' in last && Stoi(PortPart(last)).Some?
    requires PortsReadable(before) && IsEntriesOf(servers, before)
    ensures IsEntriesOf(servers + [ServerInfo(AddressPart(last), Stoi(PortPart(last)).value)], before + [last])
  {
    var colon := before + [last];
    var extended := servers + [ServerInfo(AddressPart(last), Stoi(PortPart(last)).value)];
    assert colon[|before|] == last && extended[|servers|] == ServerInfo(AddressPart(last), Stoi(PortPart(last)).value);
    assert forall i | 0 <= i < |before| :: colon[i] == before[i] && extended[i] == servers[i];
  }

  /** read_server_list, line by line. */
  method ReadServerList(lines: seq<string>) returns (servers: Option<seq<ServerInfo>>)
    ensures servers == ServerList(lines)
  {
    var list: seq<ServerInfo> := [];
    var i := 0;
    while i < |lines|
      invariant 0 <= i <= |lines|
      invariant ServerList(lines[..i]) == Some(list)
    {
      assert lines[..i + 1][..i] == lines[..i];
      var line := lines[i];
      var colon := FindColon(line);
      if colon.Some? {
        var port := Stoi(line[colon.value + 1..]);
        if port.None? {
          assert ServerList(lines[..i + 1]) == None;
          ServerListStaysFailed(lines, i + 1);
          return None;
        }
        list := list + [ServerInfo(line[..colon.value], port.value)];
      }
      i := i + 1;
    }
    assert lines[..i] == lines;
    servers := Some(list);
  }

  /** Once reading has thrown, later lines do not matter. */
  lemma {:induction false} ServerListStaysFailed(lines: seq<string>, k: nat)
    requires k <= |lines| && ServerList(lines[..k]) == None
    ensures ServerList(lines) == None
    decreases |lines| - k
  {
    if k < |lines| {
      assert lines[..k + 1][..k] == lines[..k];
      ServerListStaysFailed(lines, k + 1);
    } else {
      assert lines[..k] == lines;
    }
  }

  // ---------------------------------------------------------------------
  // Routing, the liveness probe and the command results
  // ---------------------------------------------------------------------

  /** The server a key's hash selects. */
  function Route(keyHash: u64, serverCount: nat): (id: nat)
    requires serverCount > 0
    ensures id < serverCount
    ensures keyHash < serverCount ==> id == keyHash
  {
    keyHash % serverCount
  }

  /** is_socket_alive: the peer closed (result 0) or a real error means
      dead; data waiting, or nothing to read yet, means alive. */
  function Alive(p: Peek): (alive: bool)
    ensures p.result == 0 ==> !alive
    ensures p.result > 0 ==> alive
    ensures p.result < 0 ==> (alive <==> p.errno == EAGAIN || p.errno == EWOULDBLOCK)
  {
    if p.result == 0 then false
    else if p.result < 0 then p.errno == EAGAIN || p.errno == EWOULDBLOCK
    else true
  }

  /** get(): None where it throws (the command failed); the payload on
      status '0'; the empty string on any other status. */
  function GetResult(reply: Option<Reply>): (r: Option<seq<byte>>)
    ensures r.None? <==> reply.None?
    ensures r.Some? && r.value != [] ==> reply.value.status == STATUS_OK && r.value == reply.value.payload
    ensures reply.Some? && reply.value.status == STATUS_OK ==> r == Some(reply.value.payload)
    ensures reply.Some? && reply.value.status != STATUS_OK ==> r == Some([])
  {
    match reply
    case None => None
    case Some(Reply(status, payload)) => Some(if status == STATUS_OK then payload else [])
  }

  /** put() and del(): true exactly on a reply with status '0'. */
  predicate Succeeded(reply: Option<Reply>)
  {
    reply.Some? && reply.value.status == STATUS_OK
  }

  /** On the bytes received: put and del succeed exactly when the chunk is
      not all line endings and its first byte is '0'; the payload plays no
      part. */
  lemma SucceededOnReceived(raw: seq<byte>)
    ensures Succeeded(ParseReply(raw)) <==> StripLineEndings(raw) != [] && raw[0] == STATUS_OK
    ensures Succeeded(ParseReply(raw)) ==> GetResult(ParseReply(raw)) == Some(StripLineEndings(raw)[1..])
  {
  }

  /** A get that finds a key holding the empty string cannot be told apart
      from one that finds no key, nor from an error reply. */
  lemma EmptyValueLooksMissing(errorPayload: seq<byte>)
    ensures GetResult(Some(Reply(STATUS_OK, []))) == GetResult(Some(Reply(STATUS_FAIL, errorPayload)))
  {
  }

  lemma ModAddLeft(a: nat, b: nat)
    ensures (a % TWO_32 + b) % TWO_32 == (a + b) % TWO_32
  {
    assert a == (a / TWO_32) * TWO_32 + a % TWO_32;
  }

  /** total_size as send_command computes it in 32-bit unsigned arithmetic
      is the frame's length modulo 2^32. */
  lemma WrappedTotalSize(op: byte, key: seq<byte>, value: seq<byte>)
    ensures var t := (HEADER_SIZE + |key| % TWO_32) % TWO_32;
      (if op == OP_PUT then (t + SIZE_FIELD + |value|) % TWO_32 else t) == FrameLength(op, key, value) % TWO_32
  {
    ModAddLeft(|key|, HEADER_SIZE);
    if op == OP_PUT {
      ModAddLeft(HEADER_SIZE + |key|, SIZE_FIELD + |value|);
    }
  }

  /** The frame send_command builds, appended field by field; sizes are
      computed in 32-bit unsigned arithmetic. */
  method BuildMessage(op: byte, keyHash: u64, key: seq<byte>, value: seq<byte>) returns (message: seq<byte>)
    ensures message == EncodeFrame(op, keyHash, key, value)
  {
    var keyLength := |key| % TWO_32;
    var totalSize := (HEADER_SIZE + keyLength) % TWO_32;
    if op == OP_PUT {
      totalSize := (totalSize + SIZE_FIELD + |value|) % TWO_32;
    }
    WrappedTotalSize(op, key, value);
    message := BE32(totalSize);
    message := message + [op];
    message := message + BE64(keyHash);
    message := message + BE32(keyLength);
    message := message + key;
    ghost var header := message;
    if op == OP_PUT {
      var valueLength := |value| % TWO_32;
      message := message + BE32(valueLength);
      message := message + value;
    }
    assert message == header + ValueField(op, value);
    AppendedFields(op, keyHash, key, value);
  }

  /** The frame as the field-by-field appends build it. */
  lemma AppendedFields(op: byte, keyHash: u64, key: seq<byte>, value: seq<byte>)
    ensures EncodeFrame(op, keyHash, key, value)
      == ((((BE32(FrameLength(op, key, value) % TWO_32) + [op]) + BE64(keyHash)) + BE32(|key| % TWO_32)) + key)
         + ValueField(op, value)
  {
    var a, b, c, d := BE32(FrameLength(op, key, value) % TWO_32), [op], BE64(keyHash), BE32(|key| % TWO_32);
    var e := key + ValueField(op, value);
    assert a + (b + (c + (d + e))) == a + ((b + c) + (d + e));
    assert a + ((b + c) + (d + e)) == ((a + b) + c) + (d + e);
    assert ((a + b) + c) + (d + e) == (((a + b) + c) + d) + e;
    assert (((a + b) + c) + d) + (key + ValueField(op, value)) == ((((a + b) + c) + d) + key) + ValueField(op, value);
  }

  // ---------------------------------------------------------------------
  // What connecting and sending a command do to the socket layer
  // ---------------------------------------------------------------------

  /** The socket layer after a step, and the descriptor the step leaves in
      use (NO_CONNECTION when it gave up). */
  datatype Step = Step(world: World, sock: int)

  /** socket() then connect(): a descriptor that connect() refused is
      closed again. */
  function OpenConnection(w: World): (r: Step)
    ensures r.sock != NO_CONNECTION <==> Succeeds(w.sockets) && Succeeds(w.connects)
    ensures r.sock != NO_CONNECTION ==> r.sock == w.nextFd
    ensures Succeeds(w.sockets) && !Succeeds(w.connects) ==> r.world.closed == w.closed + [w.nextFd]
    ensures w.closed <= r.world.closed
    ensures Succeeds(w.sockets) ==> |r.world.sockets| < |w.sockets|
    ensures r.world.peeks == w.peeks && r.world.sends == w.sends && r.world.recvs == w.recvs
    ensures r.world.sent == w.sent && r.world.delivered == w.delivered
  {
    if !Succeeds(w.sockets) then Step(w.(sockets := Rest(w.sockets)), NO_CONNECTION)
    else
      var fd := w.nextFd;
      var made := w.(sockets := Rest(w.sockets), nextFd := fd + 1, connects := Rest(w.connects));
      if Succeeds(w.connects) then Step(made, fd)
      else Step(made.(closed := w.closed + [fd]), NO_CONNECTION)
  }

  /** connect_to_server given the cached descriptor of the server. */
  function Connection(w: World, cached: int): (r: Step)
    requires cached >= NO_CONNECTION
    ensures r.sock == NO_CONNECTION || r.sock >= 0
    ensures w.closed <= r.world.closed
    ensures r.world.sends == w.sends && r.world.recvs == w.recvs
    ensures r.world.sent == w.sent && r.world.delivered == w.delivered
  {
    if cached == NO_CONNECTION then OpenConnection(w)
    else
      var probed := w.(peeks := Rest(w.peeks));
      if Alive(NextPeek(w.peeks)) then Step(probed, cached)
      else OpenConnection(probed.(closed := w.closed + [cached]))
  }

  /** A cached descriptor is kept exactly while the probe says it is
      alive; a dead one is closed first; otherwise the descriptor is the
      fresh one socket() gives, provided socket() and connect() succeed. */
  lemma ConnectionReusesOrReopens(w: World, cached: int)
    requires cached >= NO_CONNECTION
    ensures var r := Connection(w, cached);
      && (cached != NO_CONNECTION && Alive(NextPeek(w.peeks)) ==>
            r.sock == cached && r.world == w.(peeks := Rest(w.peeks)))
      && (cached != NO_CONNECTION && !Alive(NextPeek(w.peeks)) ==>
            |r.world.closed| > |w.closed| && r.world.closed[|w.closed|] == cached)
      && (!(cached != NO_CONNECTION && Alive(NextPeek(w.peeks))) ==>
            && (r.sock != NO_CONNECTION <==> Succeeds(w.sockets) && Succeeds(w.connects))
            && (r.sock != NO_CONNECTION ==> r.sock == w.nextFd))
      && (cached == NO_CONNECTION ==> r.world.peeks == w.peeks)
  {
  }

  /** The send loop from totalSent on: every failed send closes the
      descriptor and connects again, and sending resumes at totalSent. */
  function SendLoop(w: World, sock: int, message: seq<byte>, totalSent: nat): (r: Step)
    requires sock >= 0 && totalSent <= |message|
    ensures r.sock == NO_CONNECTION || r.sock >= 0
    ensures r.world.peeks == w.peeks && r.world.recvs == w.recvs && r.world.delivered == w.delivered
    ensures w.sent <= r.world.sent && w.closed <= r.world.closed
    decreases |w.sockets|, |message| - totalSent
  {
    if totalSent == |message| then Step(w, sock)
    else
      var rest := message[totalSent..];
      var n := SendCount(w.sends, |rest|);
      if n > 0 then
        SendLoop(w.(sends := Rest(w.sends), sent := w.sent + [Transmission(sock, rest[..n])]), sock, message, totalSent + n)
      else
        var r := OpenConnection(w.(sends := Rest(w.sends), closed := w.closed + [sock]));
        if r.sock == NO_CONNECTION then r else SendLoop(r.world, r.sock, message, totalSent)
  }

  /** What the loop writes, on all the connections it used, is the rest of
      the message whenever it ends connected. */
  lemma {:induction false} SendLoopWritesRest(w: World, sock: int, message: seq<byte>, totalSent: nat)
    requires sock >= 0 && totalSent <= |message|
    ensures var r := SendLoop(w, sock, message, totalSent);
      r.sock != NO_CONNECTION ==> Flatten(r.world.sent[|w.sent|..]) == message[totalSent..]
    decreases |w.sockets|, |message| - totalSent
  {
    if totalSent < |message| {
      var rest := message[totalSent..];
      var n := SendCount(w.sends, |rest|);
      if n > 0 {
        var t := Transmission(sock, rest[..n]);
        var w1 := w.(sends := Rest(w.sends), sent := w.sent + [t]);
        SendLoopWritesRest(w1, sock, message, totalSent + n);
        var r := SendLoop(w1, sock, message, totalSent + n);
        if r.sock != NO_CONNECTION {
          WrittenBefore(w.sent, t, r.world.sent, message, totalSent);
        }
      } else {
        var r := OpenConnection(w.(sends := Rest(w.sends), closed := w.closed + [sock]));
        if r.sock != NO_CONNECTION {
          SendLoopWritesRest(r.world, r.sock, message, totalSent);
        }
      }
    } else {
      assert w.sent[|w.sent|..] == [];
    }
  }

  /** One send's bytes followed by what the rest of the loop wrote. */
  lemma WrittenBefore(sent: seq<Transmission>, t: Transmission, later: seq<Transmission>, message: seq<byte>, totalSent: nat)
    requires totalSent + |t.bytes| <= |message| && t.bytes == message[totalSent..][..|t.bytes|]
    requires sent + [t] <= later
    requires Flatten(later[|sent| + 1..]) == message[totalSent + |t.bytes|..]
    ensures sent <= later && Flatten(later[|sent|..]) == message[totalSent..]
  {
    assert later[|sent|..] == [t] + later[|sent| + 1..];
    FlattenPrepend(t, later[|sent| + 1..]);
    assert message[totalSent..] == t.bytes + message[totalSent + |t.bytes|..];
  }

  /** A send that takes everything left ends the loop on the same
      descriptor, with nothing closed. */
  lemma SendLoopDoneInOneSend(w: World, sock: int, message: seq<byte>, totalSent: nat)
    requires sock >= 0 && totalSent <= |message|
    requires w.sends != [] && w.sends[0] >= |message| - totalSent
    ensures var r := SendLoop(w, sock, message, totalSent);
      r.sock == sock && r.world.closed == w.closed && r.world.sent == w.sent + (if totalSent < |message| then [Transmission(sock, message[totalSent..])] else [])
  {
    if totalSent < |message| {
      var rest := message[totalSent..];
      assert rest[..|rest|] == rest;
    }
  }

  /** A failed send closes its descriptor before anything else is closed. */
  lemma SendLoopClosesFailedSocket(w: World, sock: int, message: seq<byte>, totalSent: nat)
    requires sock >= 0 && totalSent < |message|
    requires SendCount(w.sends, |message| - totalSent) <= 0
    ensures var r := SendLoop(w, sock, message, totalSent);
      |r.world.closed| > |w.closed| && r.world.closed[|w.closed|] == sock
  {
    var r := OpenConnection(w.(sends := Rest(w.sends), closed := w.closed + [sock]));
    if r.sock != NO_CONNECTION {
      SendLoopWritesRest(r.world, r.sock, message, totalSent);
    }
  }

  /** The socket layer, the descriptor left in the server's slot, and the
      reply of one send_command. */
  datatype Outcome = Outcome(world: World, sock: int, reply: Option<Reply>)

  /** send_command once the key is routed: connect, send the whole frame,
      then one recv() of at most RECV_CAPACITY bytes; a recv() that returns
      nothing or fails closes the descriptor. */
  function Command(w: World, cached: int, frame: seq<byte>): (o: Outcome)
    requires cached >= NO_CONNECTION
  {
    var c := Connection(w, cached);
    if c.sock == NO_CONNECTION then Outcome(c.world, NO_CONNECTION, None)
    else
      var s := SendLoop(c.world, c.sock, frame, 0);
      if s.sock == NO_CONNECTION then Outcome(s.world, NO_CONNECTION, None)
      else ReadReply(s.world, s.sock)
  }

  /** The one recv() after the frame is sent: a reply from the data it
      returned, or, when it returned nothing, the descriptor closed. */
  function ReadReply(w: World, sock: int): (o: Outcome)
  {
    var n := RecvCount(w.recvs, RECV_CAPACITY);
    var data := RecvData(w.recvs, RECV_CAPACITY);
    var received := w.(recvs := Rest(w.recvs), delivered := if n > 0 then w.delivered + [data] else w.delivered);
    if n > 0 then Outcome(received, sock, ParseReply(data))
    else Outcome(received.(closed := received.closed + [sock]), NO_CONNECTION, None)
  }

  /** A command gives a reply only from the one receive it made, after the
      whole frame was written; the server keeps its connection exactly when
      that receive returned data; a receive that returned nothing closes
      the descriptor it was made on. */
  lemma {:induction false} CommandOutcome(w: World, cached: int, frame: seq<byte>)
    requires cached >= NO_CONNECTION
    ensures var o := Command(w, cached, frame);
      && w.delivered <= o.world.delivered && |o.world.delivered| <= |w.delivered| + 1
      && w.sent <= o.world.sent
      && (o.sock != NO_CONNECTION <==> |o.world.delivered| == |w.delivered| + 1)
      && (|o.world.delivered| == |w.delivered| ==> o.reply == None)
      && (|o.world.delivered| == |w.delivered| + 1 ==>
           var data := o.world.delivered[|w.delivered|];
           && |data| <= RECV_CAPACITY
           && o.reply == ParseReply(data)
           && Flatten(o.world.sent[|w.sent|..]) == frame)
    ensures var c := Connection(w, cached);
      c.sock != NO_CONNECTION ==>
        var s := SendLoop(c.world, c.sock, frame, 0);
        s.sock != NO_CONNECTION && RecvCount(s.world.recvs, RECV_CAPACITY) <= 0 ==>
          Command(w, cached, frame).world.closed == s.world.closed + [s.sock]
  {
    var c := Connection(w, cached);
    if c.sock != NO_CONNECTION {
      SendLoopWritesRest(c.world, c.sock, frame, 0);
      assert frame[0..] == frame;
    }
  }

  /** Over a working connection, a send that takes the whole frame and a
      receive with data give the reply in that data, and the server keeps
      the connection. */
  lemma CommandSucceeds(w: World, cached: int, frame: seq<byte>)
    requires cached >= NO_CONNECTION && frame != []
    requires Connection(w, cached).sock != NO_CONNECTION
    requires w.sends != [] && w.sends[0] >= |frame|
    requires w.recvs != [] && w.recvs[0].Data? && w.recvs[0].bytes != []
    ensures var o := Command(w, cached, frame);
      && o.sock == Connection(w, cached).sock
      && o.reply == ParseReply(Take(w.recvs[0].bytes, RECV_CAPACITY))
      && o.world.sent == w.sent + [Transmission(o.sock, frame)]
  {
    var c := Connection(w, cached);
    SendLoopDoneInOneSend(c.world, c.sock, frame, 0);
    assert frame[0..] == frame;
  }

  // ---------------------------------------------------------------------
  // The client object: its server list, connection table and commands
  // ---------------------------------------------------------------------

  class FinchClient {
    const servers: seq<ServerInfo>
    /** Server index to socket descriptor, NO_CONNECTION when none is open. */
    var connections: map<nat, int>
    /** std::hash<std::string>, whose values the implementation chooses. */
    const hasher: seq<byte> -> u64
    const net: Sockets

    ghost predicate Valid()
      reads this
    {
      && |servers| > 0
      && (forall id: nat :: id in connections <==> id < |servers|)
      && (forall id | id in connections :: connections[id] >= NO_CONNECTION)
    }

    /** The constructor's loop: every server starts without a connection. */
    constructor (servers: seq<ServerInfo>, hasher: seq<byte> -> u64, net: Sockets)
      requires |servers| > 0
      ensures Valid()
      ensures this.servers == servers && this.hasher == hasher && this.net == net
      ensures forall id | id in connections :: connections[id] == NO_CONNECTION
    {
      this.servers := servers;
      this.hasher := hasher;
      this.net := net;
      var table: map<nat, int> := map[];
      var i := 0;
      while i < |servers|
        invariant 0 <= i <= |servers|
        invariant forall id: nat :: id in table <==> id < i
        invariant forall id | id in table :: table[id] == NO_CONNECTION
      {
        table := table[i := NO_CONNECTION];
        i := i + 1;
      }
      connections := table;
    }

    /** The server a key is sent to. */
    function ServerFor(key: seq<byte>): (id: nat)
      reads this
      requires Valid()
      ensures id < |servers| && id in connections
    {
      Route(hasher(key), |servers|)
    }

    /** is_socket_alive: one non-blocking peek. */
    method IsSocketAlive(sock: int) returns (alive: bool)
      modifies net`peeks
      ensures alive == Alive(NextPeek(old(net.peeks)))
      ensures net.State() == old(net.State()).(peeks := Rest(old(net.peeks)))
    {
      var p := net.Probe(sock);
      alive := Alive(p);
    }

    /** connect_to_server: reuse the open connection while the probe says it
        is alive, otherwise close it and open a new one.  The slot for id
        ends up holding exactly what is returned. */
    method ConnectToServer(id: nat) returns (sock: int)
      requires Valid() && id < |servers|
      modifies this`connections, net`sockets, net`connects, net`peeks, net`nextFd, net`closed
      ensures Valid()
      ensures var r := Connection(old(net.State()), old(connections[id]));
        net.State() == r.world && sock == r.sock
      ensures connections == old(connections)[id := sock]
    {
      var cached := connections[id];
      if cached != NO_CONNECTION {
        var alive := IsSocketAlive(cached);
        if alive {
          return cached;
        }
        net.Close(cached);
        connections := connections[id := NO_CONNECTION];
      }
      sock := Establish(id);
    }

    /** The "new connection" half of connect_to_server. */
    method Establish(id: nat) returns (sock: int)
      requires Valid() && id < |servers| && connections[id] == NO_CONNECTION
      modifies this`connections, net`sockets, net`connects, net`nextFd, net`closed
      ensures Valid()
      ensures var r := OpenConnection(old(net.State()));
        net.State() == r.world && sock == r.sock
      ensures connections == old(connections)[id := sock]
    {
      sock := net.Socket();
      if sock == -1 {
        return NO_CONNECTION;
      }
      var ok := net.Connect(sock);
      if !ok {
        net.Close(sock);
        return NO_CONNECTION;
      }
      connections := connections[id := sock];
    }

    /** send_command: route the key, connect, write the whole frame
        (reconnecting and resuming after every failed send), then read one
        reply of at most RECV_CAPACITY bytes. */
    method SendCommand(op: byte, key: seq<byte>, value: seq<byte>) returns (reply: Option<Reply>)
      requires Valid()
      modifies this`connections, net`sockets, net`connects, net`peeks, net`nextFd, net`closed
      modifies net`sends, net`sent, net`recvs, net`delivered
      ensures Valid()
      ensures key == [] ==> reply == None && connections == old(connections) && unchanged(net)
      ensures key != [] ==>
        var id := Route(hasher(key), |servers|);
        var o := Command(old(net.State()), old(connections[id]), EncodeFrame(op, hasher(key), key, value));
        net.State() == o.world && connections == old(connections)[id := o.sock] && reply == o.reply
      ensures old(net.sent) <= net.sent
      ensures old(net.delivered) <= net.delivered && |net.delivered| <= old(|net.delivered|) + 1
      ensures |net.delivered| == old(|net.delivered|) ==> reply == None
      ensures key != [] && |net.delivered| == old(|net.delivered|) ==>
        connections[Route(hasher(key), |servers|)] == NO_CONNECTION
      ensures |net.delivered| > old(|net.delivered|) ==>
        var data := net.delivered[|net.delivered| - 1];
        && |data| <= RECV_CAPACITY
        && reply == ParseReply(data)
        && Flatten(net.sent[old(|net.sent|)..]) == EncodeFrame(op, hasher(key), key, value)
    {
      if key == [] {
        return None;
      }
      var keyHash := hasher(key);
      var id := Route(keyHash, |servers|);
      var message := BuildMessage(op, keyHash, key, value);
      CommandOutcome(net.State(), connections[id], message);
      reply := Exchange(id, message);
    }

    /** The part of send_command after routing: connect, send the frame,
        and read one reply. */
    method Exchange(id: nat, message: seq<byte>) returns (reply: Option<Reply>)
      requires Valid() && id < |servers|
      modifies this`connections, net`sockets, net`connects, net`peeks, net`nextFd, net`closed
      modifies net`sends, net`sent, net`recvs, net`delivered
      ensures Valid()
      ensures var o := Command(old(net.State()), old(connections[id]), message);
        net.State() == o.world && connections == old(connections)[id := o.sock] && reply == o.reply
    {
      ghost var w, table := net.State(), connections;
      ghost var c := Connection(w, table[id]);
      var sock := ConnectToServer(id);
      if sock == NO_CONNECTION {
        assert Command(w, table[id], message) == Outcome(c.world, NO_CONNECTION, None);
        return None;
      }
      ghost var s := SendLoop(c.world, c.sock, message, 0);
      sock := SendAll(id, sock, message);
      assert connections == table[id := sock];
      if sock == NO_CONNECTION {
        assert Command(w, table[id], message) == Outcome(s.world, NO_CONNECTION, None);
        return None;
      }
      assert Command(w, table[id], message) == ReadReply(s.world, s.sock);
      reply := Receive(id, sock);
      assert connections == table[id := connections[id]];
    }

    /** Read the reply on sock; a recv() that returns nothing closes sock
        and marks the server as unconnected. */
    method Receive(id: nat, sock: int) returns (reply: Option<Reply>)
      requires Valid() && id < |servers| && sock >= 0 && connections[id] == sock
      modifies this`connections, net`closed, net`recvs, net`delivered
      ensures Valid()
      ensures var o := ReadReply(old(net.State()), sock);
        net.State() == o.world && connections == old(connections)[id := o.sock] && reply == o.reply
    {
      var received, data := net.Recv(sock, RECV_CAPACITY);
      if received > 0 {
        reply := ParseReply(data);
      } else {
        net.Close(sock);
        connections := connections[id := NO_CONNECTION];
        reply := None;
      }
    }

    /** The send loop: write message[totalSent..] until all of it is
        written; after every failed send, close the socket, reconnect and
        resume at totalSent on the new connection. */
    method SendAll(id: nat, sock: int, message: seq<byte>) returns (last: int)
      requires Valid() && id < |servers| && sock >= 0 && connections[id] == sock
      modifies this`connections, net`sockets, net`connects, net`peeks, net`nextFd, net`closed
      modifies net`sends, net`sent
      ensures Valid()
      ensures var r := SendLoop(old(net.State()), sock, message, 0);
        net.State() == r.world && last == r.sock
      ensures connections == old(connections)[id := last]
    {
      last := sock;
      var totalSent := 0;
      while totalSent < |message|
        invariant Valid()
        invariant 0 <= totalSent <= |message|
        invariant last >= 0 && connections == old(connections)[id := last]
        invariant SendLoop(net.State(), last, message, totalSent) == SendLoop(old(net.State()), sock, message, 0)
        decreases |net.sockets|, |message| - totalSent
      {
        ghost var before := net.State();
        var n := net.Send(last, message[totalSent..]);
        if n <= 0 {
          ghost var failed := last;
          assert net.State() == before.(sends := Rest(before.sends));
          last := Reconnect(id, last);
          assert SendLoop(before, failed, message, totalSent) ==
            if last == NO_CONNECTION then Step(net.State(), last) else SendLoop(net.State(), last, message, totalSent);
          if last == NO_CONNECTION {
            return;
          }
          continue;
        }
        totalSent := totalSent + n;
      }
    }

    /** After a failed send: close the socket, mark the server as
        unconnected and connect again. */
    method Reconnect(id: nat, sock: int) returns (next: int)
      requires Valid() && id < |servers| && sock >= 0
      modifies this`connections, net`sockets, net`connects, net`peeks, net`nextFd, net`closed
      ensures Valid()
      ensures var r := OpenConnection(old(net.State()).(closed := old(net.closed) + [sock]));
        net.State() == r.world && next == r.sock
      ensures |net.closed| > old(|net.closed|) && net.closed[old(|net.closed|)] == sock
      ensures connections == old(connections)[id := next]
    {
      net.Close(sock);
      connections := connections[id := NO_CONNECTION];
      next := ConnectToServer(id);
    }

    /** get(): None where the C++ throws. */
    method Get(key: seq<byte>) returns (value: Option<seq<byte>>)
      requires Valid()
      modifies this`connections, net`sockets, net`connects, net`peeks, net`nextFd, net`closed
      modifies net`sends, net`sent, net`recvs, net`delivered
      ensures Valid()
      ensures key == [] ==> value == None && connections == old(connections) && unchanged(net)
      ensures key != [] ==>
        var id := Route(hasher(key), |servers|);
        var o := Command(old(net.State()), old(connections[id]), EncodeFrame(OP_GET, hasher(key), key, []));
        net.State() == o.world && connections == old(connections)[id := o.sock] && value == GetResult(o.reply)
      ensures old(net.sent) <= net.sent
      ensures old(net.delivered) <= net.delivered && |net.delivered| <= old(|net.delivered|) + 1
      ensures |net.delivered| == old(|net.delivered|) ==> value == None
      ensures |net.delivered| > old(|net.delivered|) ==>
        && Flatten(net.sent[old(|net.sent|)..]) == EncodeFrame(OP_GET, hasher(key), key, [])
        && value == GetResult(ParseReply(net.delivered[|net.delivered| - 1]))
    {
      var reply := SendCommand(OP_GET, key, []);
      value := GetResult(reply);
    }

    /** put(): true exactly when a reply was received and its status is '0'. */
    method Put(key: seq<byte>, value: seq<byte>) returns (stored: bool)
      requires Valid()
      modifies this`connections, net`sockets, net`connects, net`peeks, net`nextFd, net`closed
      modifies net`sends, net`sent, net`recvs, net`delivered
      ensures Valid()
      ensures key == [] ==> !stored && connections == old(connections) && unchanged(net)
      ensures key != [] ==>
        var id := Route(hasher(key), |servers|);
        var o := Command(old(net.State()), old(connections[id]), EncodeFrame(OP_PUT, hasher(key), key, value));
        net.State() == o.world && connections == old(connections)[id := o.sock] && stored == Succeeded(o.reply)
      ensures old(net.sent) <= net.sent
      ensures old(net.delivered) <= net.delivered && |net.delivered| <= old(|net.delivered|) + 1
      ensures stored <==>
        |net.delivered| == old(|net.delivered|) + 1 && Succeeded(ParseReply(net.delivered[|net.delivered| - 1]))
      ensures |net.delivered| > old(|net.delivered|) ==>
        Flatten(net.sent[old(|net.sent|)..]) == EncodeFrame(OP_PUT, hasher(key), key, value)
    {
      var reply := SendCommand(OP_PUT, key, value);
      stored := Succeeded(reply);
    }

    /** del(): true exactly when a reply was received and its status is '0'. */
    method Del(key: seq<byte>) returns (deleted: bool)
      requires Valid()
      modifies this`connections, net`sockets, net`connects, net`peeks, net`nextFd, net`closed
      modifies net`sends, net`sent, net`recvs, net`delivered
      ensures Valid()
      ensures key == [] ==> !deleted && connections == old(connections) && unchanged(net)
      ensures key != [] ==>
        var id := Route(hasher(key), |servers|);
        var o := Command(old(net.State()), old(connections[id]), EncodeFrame(OP_DEL, hasher(key), key, []));
        net.State() == o.world && connections == old(connections)[id := o.sock] && deleted == Succeeded(o.reply)
      ensures old(net.sent) <= net.sent
      ensures old(net.delivered) <= net.delivered && |net.delivered| <= old(|net.delivered|) + 1
      ensures deleted <==>
        |net.delivered| == old(|net.delivered|) + 1 && Succeeded(ParseReply(net.delivered[|net.delivered| - 1]))
      ensures |net.delivered| > old(|net.delivered|) ==>
        Flatten(net.sent[old(|net.sent|)..]) == EncodeFrame(OP_DEL, hasher(key), key, [])
    {
      var reply := SendCommand(OP_DEL, key, []);
      deleted := Succeeded(reply);
    }
  }

  /** The constructor: read the list, and fail (where the C++ throws) when
      stoi fails on a line or no server is listed. */
  method NewClient(lines: seq<string>, hasher: seq<byte> -> u64, net: Sockets) returns (client: Option<FinchClient>)
    ensures client.None? <==> ServerList(lines).None? || ServerList(lines).value == []
    ensures client.Some? ==>
      && fresh(client.value) && client.value.Valid()
      && client.value.servers == ServerList(lines).value && client.value.hasher == hasher && client.value.net == net
      && forall id | id in client.value.connections :: client.value.connections[id] == NO_CONNECTION
  {
    var servers := ReadServerList(lines);
    if servers.None? || servers.value == [] {
      return None;
    }
    var c := new FinchClient(servers.value, hasher, net);
    client := Some(c);
  }
}
