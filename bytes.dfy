/** Bytes, fixed-width unsigned integers and their big-endian (network order)
    encodings, as used by both ends of the protocol. */
module Bytes {

  type byte = x: int | 0 <= x < 0x100
  type u32 = x: int | 0 <= x < 0x1_0000_0000
  type u64 = x: int | 0 <= x < 0x1_0000_0000_0000_0000

  const TWO_32: nat := 0x1_0000_0000

  datatype Option<+T> = None | Some(value: T)

  /** The bytes of an ASCII literal. */
  function Ascii(s: string): (b: seq<byte>)
    requires forall i | 0 <= i < |s| :: s[i] < 128 as char
    ensures |b| == |s|
    ensures forall i | 0 <= i < |s| :: b[i] == s[i] as int
  {
    seq(|s|, i requires 0 <= i < |s| => s[i] as int)
  }

  /** htonl: the four bytes of n, most significant first. */
  function BE32(n: u32): (b: seq<byte>)
    ensures |b| == 4
  {
    var q1 := n / 0x100;
    var q2 := q1 / 0x100;
    [q2 / 0x100, q2 % 0x100, q1 % 0x100, n % 0x100]
  }

  /** ntohl: the number whose big-endian bytes are b. */
  function FromBE32(b: seq<byte>): (n: u32)
    requires |b| == 4
  {
    ((b[0] as int * 0x100 + b[1]) * 0x100 + b[2]) * 0x100 + b[3]
  }

  /** The 64-bit encoding is the high half's four bytes followed by the low
      half's, which is what the two htonl calls produce. */
  function BE64(n: u64): (b: seq<byte>)
    ensures |b| == 8
  {
    BE32(n / TWO_32) + BE32(n % TWO_32)
  }

  function FromBE64(b: seq<byte>): (n: u64)
    requires |b| == 8
  {
    FromBE32(b[..4]) * TWO_32 + FromBE32(b[4..])
  }

  lemma {:induction false} FromBE32OfBE32(n: u32)
    ensures FromBE32(BE32(n)) == n
  {
    var q1 := n / 0x100;
    var q2 := q1 / 0x100;
    assert n == q1 * 0x100 + n % 0x100;
    assert q1 == q2 * 0x100 + q1 % 0x100;
    assert q2 == (q2 / 0x100) * 0x100 + q2 % 0x100;
  }

  lemma {:induction false} BE32OfFromBE32(b: seq<byte>)
    requires |b| == 4
    ensures BE32(FromBE32(b)) == b
  {
    var n := FromBE32(b);
    var q2: int := b[0] as int * 0x100 + b[1];
    var q1: int := q2 * 0x100 + b[2];
    assert n == q1 * 0x100 + b[3];
    assert n / 0x100 == q1 && n % 0x100 == b[3];
    assert q1 / 0x100 == q2 && q1 % 0x100 == b[2];
    assert q2 / 0x100 == b[0] && q2 % 0x100 == b[1];
  }

  lemma {:induction false} FromBE64OfBE64(n: u64)
    ensures FromBE64(BE64(n)) == n
  {
    var b := BE64(n);
    assert b[..4] == BE32(n / TWO_32);
    assert b[4..] == BE32(n % TWO_32);
    FromBE32OfBE32(n / TWO_32);
    FromBE32OfBE32(n % TWO_32);
  }

  lemma {:induction false} BE64OfFromBE64(b: seq<byte>)
    requires |b| == 8
    ensures BE64(FromBE64(b)) == b
  {
    var n := FromBE64(b);
    var hi, lo := FromBE32(b[..4]), FromBE32(b[4..]);
    assert n / TWO_32 == hi && n % TWO_32 == lo;
    BE32OfFromBE32(b[..4]);
    BE32OfFromBE32(b[4..]);
    assert b == b[..4] + b[4..];
  }

  /** Two 32-bit values are equal exactly when their encodings are. */
  lemma BE32Injective(m: u32, n: u32)
    ensures BE32(m) == BE32(n) <==> m == n
  {
    if BE32(m) == BE32(n) {
      FromBE32OfBE32(m);
      FromBE32OfBE32(n);
    }
  }
}
