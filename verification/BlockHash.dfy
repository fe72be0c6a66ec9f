/**
 Hash functions of the Merkle–Damgård kind: a compression function folded over 64-byte blocks
 of the padded message. The compression function itself stays abstract.
 */
module BlockHash {

  type Byte = b: int | 0 <= b < 256

  /** The compression function: a chaining value and one 64-byte block give the next chaining value. */
  type Compress<!C> = (C, seq<Byte>) -> C

  /** Folds the compression function over whole blocks. */
  ghost function Absorb<C>(f: Compress<C>, c: C, data: seq<Byte>): C
    requires |data| % 64 == 0
    decreases |data|
  {
    if data == [] then c else Absorb(f, f(c, data[..64]), data[64..])
  }

  lemma {:induction false} AbsorbAppend<C>(f: Compress<C>, c: C, a: seq<Byte>, b: seq<Byte>)
    requires |a| % 64 == 0 && |b| % 64 == 0
    ensures Absorb(f, c, a + b) == Absorb(f, Absorb(f, c, a), b)
    decreases |a|
  {
    if a == [] {
      assert a + b == b;
    } else {
      assert (a + b)[..64] == a[..64] && (a + b)[64..] == a[64..] + b;
      AbsorbAppend(f, f(c, a[..64]), a[64..], b);
    }
  }

  lemma AbsorbOne<C>(f: Compress<C>, c: C, block: seq<Byte>)
    requires |block| == 64
    ensures Absorb(f, c, block) == f(c, block)
  {
    assert block[..64] == block && block[64..] == [];
  }

  /** How much of a message of length `n` makes up whole blocks. */
  function Whole(n: nat): nat {
    n - n % 64
  }

  /** A stream has absorbed the whole blocks of `message` into `c` and holds back the rest in `tail`. */
  ghost predicate Streamed<C(!new)>(f: Compress<C>, iv: C, message: seq<Byte>, c: C, tail: seq<Byte>) {
    tail == message[Whole(|message|)..] && c == Absorb(f, iv, message[..Whole(|message|)])
  }

  /** Data that does not fill the block is only held back. */
  lemma StreamHolds<C(!new)>(f: Compress<C>, iv: C, message: seq<Byte>, c: C, tail: seq<Byte>, data: seq<Byte>)
    requires Streamed(f, iv, message, c, tail) && |tail| + |data| < 64
    ensures Streamed(f, iv, message + data, c, tail + data)
  {
    var w := Whole(|message|);
    assert Whole(|message + data|) == w;
    assert (message + data)[..w] == message[..w] && (message + data)[w..] == message[w..] + data;
  }

  /** Data that ends on a block boundary is absorbed together with what was held back. */
  lemma StreamAbsorbs<C(!new)>(f: Compress<C>, iv: C, message: seq<Byte>, c: C, tail: seq<Byte>, data: seq<Byte>)
    requires Streamed(f, iv, message, c, tail) && |tail + data| % 64 == 0
    ensures Streamed(f, iv, message + data, Absorb(f, c, tail + data), [])
  {
    var w := Whole(|message|);
    var all := message + data;
    assert Whole(|all|) == |all|;
    assert all[..|all|] == message[..w] + (tail + data);
    AbsorbAppend(f, iv, message[..w], tail + data);
  }

  /** From a block boundary on, data is absorbed as far as it makes whole blocks, and the rest held back. */
  lemma StreamRest<C(!new)>(f: Compress<C>, iv: C, message: seq<Byte>, c: C, data: seq<Byte>)
    requires Streamed(f, iv, message, c, [])
    ensures
      var whole := Whole(|data|);
      && Streamed(f, iv, message + data, Absorb(f, c, data[..whole]), data[whole..])
      && |message + data| % 64 == |data| - whole
  {
    var whole := Whole(|data|);
    var head, rest := data[..whole], data[whole..];
    WholeBounds(|data|);
    WholeBounds(|message|);
    assert [] + head == head;
    StreamAbsorbs(f, iv, message, c, [], head);
    StreamHolds(f, iv, message + head, Absorb(f, c, head), [], rest);
    assert [] + rest == rest;
    assert message + head + rest == message + data;
    WholeOfSum(|message|, |data|);
  }

  lemma WholeBounds(n: nat)
    ensures Whole(n) % 64 == 0 && Whole(n) <= n < Whole(n) + 64 && n - Whole(n) == n % 64
  {
  }

  lemma WholeOfSum(n: nat, m: nat)
    requires n % 64 == 0
    ensures (n + m) % 64 == m % 64
  {
  }

  /** If marker and length still fit, one block finishes a stream. */
  lemma FinishesInOne<C(!new)>(f: Compress<C>, iv: C, message: seq<Byte>, c: C, tail: seq<Byte>, length: seq<Byte>)
    requires Streamed(f, iv, message, c, tail) && |length| == 8 && |tail| < 56
    ensures Absorb(f, iv, Padded(message, length)) == Absorb(f, c, tail + [0x80] + Zeros(55 - |tail|) + length)
  {
    PaddedTail(message, length);
    AbsorbAppend(f, iv, message[..Whole(|message|)], tail + [0x80] + Zeros(55 - |tail|) + length);
  }

  /** Otherwise two blocks do. */
  lemma FinishesInTwo<C(!new)>(f: Compress<C>, iv: C, message: seq<Byte>, c: C, tail: seq<Byte>, length: seq<Byte>)
    requires Streamed(f, iv, message, c, tail) && |length| == 8 && |tail| >= 56
    ensures Absorb(f, iv, Padded(message, length)) ==
            Absorb(f, Absorb(f, c, tail + [0x80] + Zeros(63 - |tail|)), Zeros(56) + length)
  {
    var first, last := tail + [0x80] + Zeros(63 - |tail|), Zeros(56) + length;
    PaddedTail(message, length);
    AbsorbAppend(f, iv, message[..Whole(|message|)], first + last);
    AbsorbAppend(f, c, first, last);
  }

  function Zeros(n: nat): (r: seq<Byte>)
    ensures |r| == n && forall i :: 0 <= i < n ==> r[i] == 0
  {
    seq(n, _ => 0)
  }

  /** Number of zero bytes between the marker and the length, so that the total is whole blocks. */
  function ZeroCount(n: nat): nat {
    (119 - n % 64) % 64
  }

  /** A message followed by the marker byte, zeros, and eight bytes of length. */
  function Padded(message: seq<Byte>, length: seq<Byte>): (r: seq<Byte>)
    requires |length| == 8
    ensures |r| % 64 == 0 && message <= r
  {
    message + [0x80] + Zeros(ZeroCount(|message|)) + length
  }

  /** Two paddings of one message agree exactly when their length fields do. */
  lemma PaddingsDifferInLength(message: seq<Byte>, l1: seq<Byte>, l2: seq<Byte>)
    requires |l1| == 8 && |l2| == 8
    ensures Padded(message, l1) == Padded(message, l2) <==> l1 == l2
  {
    var p1, p2 := Padded(message, l1), Padded(message, l2);
    var n := |p1| - 8;
    assert p1[n..] == l1 && p2[n..] == l2;
  }

  /** The last one or two blocks of the padding, once the whole blocks of the message are absorbed. */
  lemma PaddedTail(message: seq<Byte>, length: seq<Byte>)
    requires |length| == 8
    ensures
      var whole, used := Whole(|message|), |message| % 64;
      var tail := message[whole..];
      Padded(message, length) ==
      message[..whole] +
      (if used < 56 then tail + [0x80] + Zeros(55 - used) + length
       else (tail + [0x80] + Zeros(63 - used)) + (Zeros(56) + length))
  {
    var whole, used := Whole(|message|), |message| % 64;
    assert message == message[..whole] + message[whole..];
    if used >= 56 {
      assert Zeros(ZeroCount(|message|)) == Zeros(63 - used) + Zeros(56);
    }
  }

  /** The message after `i` updates, from its chunks. */
  function Concat(chunks: seq<seq<Byte>>): seq<Byte> {
    if chunks == [] then [] else Concat(chunks[..|chunks| - 1]) + chunks[|chunks| - 1]
  }

  lemma ConcatNext(chunks: seq<seq<Byte>>, i: nat)
    requires i < |chunks|
    ensures Concat(chunks[..i + 1]) == Concat(chunks[..i]) + chunks[i]
  {
    assert chunks[..i + 1][..i] == chunks[..i];
  }

  // ----- words as bytes

  function LittleEndian32(w: int): seq<Byte>
    requires 0 <= w < 0x1_0000_0000
  {
    [w % 256, w / 0x100 % 256, w / 0x1_0000 % 256, w / 0x100_0000 % 256]
  }

  function BigEndian32(w: int): (r: seq<Byte>)
    requires 0 <= w < 0x1_0000_0000
    ensures |r| == 4
  {
    [w / 0x100_0000 % 256, w / 0x1_0000 % 256, w / 0x100 % 256, w % 256]
  }

  /** A 64-bit count, low-order word first: section 3.2 of RFC 1321. */
  function LittleEndian64(n: int): (r: seq<Byte>)
    requires 0 <= n < 0x1_0000_0000_0000_0000
    ensures |r| == 8
  {
    LittleEndian32(n % 0x1_0000_0000) + LittleEndian32(n / 0x1_0000_0000)
  }

  /** A 64-bit count, high-order word first: section 4 of RFC 3174. */
  function BigEndian64(n: int): (r: seq<Byte>)
    requires 0 <= n < 0x1_0000_0000_0000_0000
    ensures |r| == 8
  {
    BigEndian32(n / 0x1_0000_0000) + BigEndian32(n % 0x1_0000_0000)
  }

  /** Byte `i` of a little-endian word has weight `256^i`. */
  lemma LittleEndianBytes(n: int)
    requires 0 <= n < 0x1_0000_0000_0000_0000
    ensures
      var r := LittleEndian64(n);
      && r[0] == n % 256 && r[1] == n / 0x100 % 256 && r[2] == n / 0x1_0000 % 256 && r[3] == n / 0x100_0000 % 256
      && r[4] == n / 0x1_0000_0000 % 256 && r[5] == n / 0x100_0000_0000 % 256
      && r[6] == n / 0x1_0000_0000_0000 % 256 && r[7] == n / 0x100_0000_0000_0000 % 256
  {
    var low, high := n % 0x1_0000_0000, n / 0x1_0000_0000;
    LowWordBytes(n);
    assert high / 0x100 == n / 0x100_0000_0000 && high / 0x1_0000 == n / 0x1_0000_0000_0000;
    assert high / 0x100_0000 == n / 0x100_0000_0000_0000;
  }

  lemma LowWordBytes(n: int)
    requires 0 <= n
    ensures
      var low := n % 0x1_0000_0000;
      && low % 256 == n % 256 && low / 0x100 % 256 == n / 0x100 % 256
      && low / 0x1_0000 % 256 == n / 0x1_0000 % 256 && low / 0x100_0000 % 256 == n / 0x100_0000 % 256
  {
    var low, high := n % 0x1_0000_0000, n / 0x1_0000_0000;
    MultipleDropsOut(high * 0x100_0000, low);
    MultipleDropsOut(high * 0x1_0000, low / 0x100);
    MultipleDropsOut(high * 0x100, low / 0x1_0000);
    MultipleDropsOut(high, low / 0x100_0000);
    assert n / 0x100 == high * 0x100_0000 + low / 0x100;
    assert n / 0x1_0000 == high * 0x1_0000 + low / 0x1_0000;
    assert n / 0x100_0000 == high * 0x100 + low / 0x100_0000;
  }

  lemma MultipleDropsOut(k: int, low: int)
    ensures (k * 256 + low) % 256 == low % 256
  {
  }

  /** A big-endian word is the same bytes from the other end. */
  lemma BigEndianIsReversed(n: int, i: nat)
    requires 0 <= n < 0x1_0000_0000_0000_0000 && i < 8
    ensures BigEndian64(n)[i] == LittleEndian64(n)[7 - i]
  {
  }

  /** The fewest zeros that make the padded message whole blocks. */
  lemma FewestZeros(n: nat, zeros: nat)
    ensures (n + 1 + ZeroCount(n) + 8) % 64 == 0
    ensures (n + 1 + zeros + 8) % 64 == 0 ==> ZeroCount(n) <= zeros
  {
  }

  lemma BigEndian32Injective(v: int, w: int)
    requires 0 <= v < 0x1_0000_0000 && 0 <= w < 0x1_0000_0000
    ensures BigEndian32(v) == BigEndian32(w) <==> v == w
  {
    if BigEndian32(v) == BigEndian32(w) {
      BytesOfWord(v);
      BytesOfWord(w);
      var a, b := BigEndian32(v), BigEndian32(w);
      assert a[0] == b[0] && a[1] == b[1] && a[2] == b[2] && a[3] == b[3];
    }
  }

  lemma BytesOfWord(w: int)
    requires 0 <= w < 0x1_0000_0000
    ensures w == w / 0x100_0000 % 256 * 0x100_0000 + w / 0x1_0000 % 256 * 0x1_0000 + w / 0x100 % 256 * 0x100 + w % 256
  {
    var a := w / 0x100;
    var b := a / 0x100;
    assert w / 0x1_0000 == b && w / 0x100_0000 == b / 0x100;
  }

  // ----- copying into a fixed buffer

  /** `memcpy(&buffer[at], data, |data|)`: what precedes and what follows stays. */
  method Put(buffer: array<Byte>, at: nat, data: seq<Byte>)
    requires at + |data| <= buffer.Length
    modifies buffer
    ensures buffer[..at + |data|] == old(buffer[..at]) + data
    ensures buffer[at + |data|..] == old(buffer[at + |data|..])
  {
    for i := 0 to |data|
      invariant buffer[..at + i] == old(buffer[..at]) + data[..i]
      invariant buffer[at + i..] == old(buffer[at + i..])
    {
      buffer[at + i] := data[i];
      assert buffer[..at + i + 1] == buffer[..at + i] + [data[i]];
      assert data[..i + 1] == data[..i] + [data[i]];
    }
  }
}
