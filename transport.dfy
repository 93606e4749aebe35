/** The socket calls the client makes, as scripted outcomes.

    Each kind of call takes its outcome from the front of its own script;
    once a script is used up, that call fails.  The object also keeps what
    the calls did that a peer could observe: the bytes each send() wrote,
    the descriptors closed and the data each recv() returned. */
module Transport {
  import opened Bytes

  /** errno values a non-blocking peek reports when no data is waiting
      (both 11 on Linux). */
  const EAGAIN: int := 11
  const EWOULDBLOCK: int := 11
  /** errno reported by a peek once its script is used up. */
  const ECONNRESET: int := 104

  /** A one-byte recv(MSG_PEEK | MSG_DONTWAIT): its return value and errno. */
  datatype Peek = Peek(result: int, errno: int)

  /** What the peer has for one recv(): some bytes (none when it closed the
      connection), or an error. */
  datatype Incoming = Data(bytes: seq<byte>) | Failure

  /** Bytes one send() handed to the connection fd. */
  datatype Transmission = Transmission(fd: int, bytes: seq<byte>)

  /** A script with its first outcome used. */
  function Rest<T>(script: seq<T>): (r: seq<T>)
    ensures script != [] ==> |r| == |script| - 1
    ensures script == [] ==> r == []
  {
    if script == [] then [] else script[1..]
  }

  /** The concatenated bytes of several transmissions, in order. */
  function Flatten(ts: seq<Transmission>): seq<byte>
  {
    if ts == [] then [] else Flatten(ts[..|ts| - 1]) + ts[|ts| - 1].bytes
  }

  lemma {:induction false} FlattenAppend(ts: seq<Transmission>, t: Transmission)
    ensures Flatten(ts + [t]) == Flatten(ts) + t.bytes
  {
    assert (ts + [t])[..|ts|] == ts;
  }

  lemma {:induction false} FlattenPrepend(t: Transmission, ts: seq<Transmission>)
    ensures Flatten([t] + ts) == t.bytes + Flatten(ts)
    decreases |ts|
  {
    if ts == [] {
      assert [t] + ts == [] + [t];
      FlattenAppend([], t);
    } else {
      var init := ts[..|ts| - 1];
      var last := ts[|ts| - 1];
      assert ts == init + [last];
      assert [t] + ts == ([t] + init) + [last];
      FlattenAppend([t] + init, last);
      FlattenPrepend(t, init);
      FlattenAppend(init, last);
    }
  }

  /** Up to capacity bytes of what the peer has, as recv() returns them. */
  function Take(bytes: seq<byte>, capacity: nat): (r: seq<byte>)
    ensures r <= bytes
    ensures |r| == if |bytes| < capacity then |bytes| else capacity
    ensures |bytes| <= capacity ==> r == bytes
  {
    if |bytes| <= capacity then bytes else bytes[..capacity]
  }

  /** Whether the next outcome of a socket() or connect() script is success. */
  predicate Succeeds(script: seq<bool>)
  {
    script != [] && script[0]
  }

  /** The next peek outcome; a used-up script reports a reset connection. */
  function NextPeek(peeks: seq<Peek>): Peek
  {
    if peeks == [] then Peek(-1, ECONNRESET) else peeks[0]
  }

  /** The count the next send() of want bytes reports. */
  function SendCount(sends: seq<int>, want: nat): (n: int)
    ensures n <= want
    ensures sends == [] ==> n == -1
  {
    if sends == [] then -1 else if sends[0] > want then want else sends[0]
  }

  /** The bytes the next recv() returns: nothing on an error or a used-up
      script, otherwise at most capacity of what the peer has. */
  function RecvData(recvs: seq<Incoming>, capacity: nat): (data: seq<byte>)
    ensures |data| <= capacity
  {
    if recvs == [] || recvs[0].Failure? then [] else Take(recvs[0].bytes, capacity)
  }

  /** The count the next recv() returns: -1 on an error, 0 when the peer has
      closed the connection. */
  function RecvCount(recvs: seq<Incoming>, capacity: nat): (n: int)
    ensures n > 0 <==> RecvData(recvs, capacity) != []
    ensures n > 0 ==> n == |RecvData(recvs, capacity)|
  {
    if recvs == [] || recvs[0].Failure? then -1 else |Take(recvs[0].bytes, capacity)|
  }

  /** Everything the socket layer holds: the outcomes still scripted and the
      logs of what was done. */
  datatype World = World(
    sockets: seq<bool>, connects: seq<bool>, peeks: seq<Peek>, sends: seq<int>, recvs: seq<Incoming>,
    nextFd: nat, closed: seq<int>, sent: seq<Transmission>, delivered: seq<seq<byte>>)

  class Sockets {
    var sockets: seq<bool>      // socket(): true gives a new descriptor
    var connects: seq<bool>     // connect(): true when it succeeds
    var peeks: seq<Peek>
    var sends: seq<int>         // send(): the count it reports
    var recvs: seq<Incoming>
    var nextFd: nat
    var closed: seq<int>
    var sent: seq<Transmission>
    var delivered: seq<seq<byte>>

    function State(): World
      reads this
    {
      World(sockets, connects, peeks, sends, recvs, nextFd, closed, sent, delivered)
    }

    constructor (sockets: seq<bool>, connects: seq<bool>, peeks: seq<Peek>, sends: seq<int>, recvs: seq<Incoming>)
      ensures State() == World(sockets, connects, peeks, sends, recvs, 3, [], [], [])
    {
      this.sockets := sockets;
      this.connects := connects;
      this.peeks := peeks;
      this.sends := sends;
      this.recvs := recvs;
      nextFd := 3;
      closed := [];
      sent := [];
      delivered := [];
    }

    /** socket(): a fresh descriptor, or -1. */
    method Socket() returns (fd: int)
      modifies this`sockets, this`nextFd
      ensures fd == if Succeeds(old(sockets)) then old(nextFd) else -1
      ensures State() == old(State()).(sockets := Rest(old(sockets)),
                                       nextFd := if fd == -1 then old(nextFd) else old(nextFd) + 1)
    {
      if sockets != [] && sockets[0] {
        fd := nextFd;
        nextFd := nextFd + 1;
      } else {
        fd := -1;
      }
      sockets := Rest(sockets);
    }

    /** connect(): whether the descriptor is now connected. */
    method Connect(fd: int) returns (ok: bool)
      modifies this`connects
      ensures ok == Succeeds(old(connects))
      ensures State() == old(State()).(connects := Rest(old(connects)))
    {
      ok := connects != [] && connects[0];
      connects := Rest(connects);
    }

    /** recv(MSG_PEEK | MSG_DONTWAIT) of one byte. */
    method Probe(fd: int) returns (p: Peek)
      modifies this`peeks
      ensures p == NextPeek(old(peeks))
      ensures State() == old(State()).(peeks := Rest(old(peeks)))
    {
      p := if peeks == [] then Peek(-1, ECONNRESET) else peeks[0];
      peeks := Rest(peeks);
    }

    /** send(): never more than asked; a positive count is the prefix of
        bytes that reached the connection. */
    method Send(fd: int, bytes: seq<byte>) returns (n: int)
      modifies this`sends, this`sent
      ensures n == SendCount(old(sends), |bytes|)
      ensures State() == old(State()).(sends := Rest(old(sends)),
                                       sent := if n > 0 then old(sent) + [Transmission(fd, bytes[..n])] else old(sent))
    {
      if sends == [] {
        n := -1;
      } else {
        n := if sends[0] > |bytes| then |bytes| else sends[0];
      }
      sends := Rest(sends);
      if n > 0 {
        sent := sent + [Transmission(fd, bytes[..n])];
      }
    }

    /** recv(): the count and the bytes, at most capacity of them. */
    method Recv(fd: int, capacity: nat) returns (n: int, data: seq<byte>)
      modifies this`recvs, this`delivered
      ensures n == RecvCount(old(recvs), capacity) && data == RecvData(old(recvs), capacity)
      ensures State() == old(State()).(recvs := Rest(old(recvs)),
                                       delivered := if n > 0 then old(delivered) + [data] else old(delivered))
    {
      if recvs == [] || recvs[0].Failure? {
        n, data := -1, [];
      } else {
        data := Take(recvs[0].bytes, capacity);
        n := |data|;
      }
      recvs := Rest(recvs);
      if n > 0 {
        delivered := delivered + [data];
      }
    }

    method Close(fd: int)
      modifies this`closed
      ensures State() == old(State()).(closed := old(closed) + [fd])
    {
      closed := closed + [fd];
    }
  }
}
