/**
 The streaming interface of MD5 (RFC 1321): init, any number of updates, final.
 */
module Md5 {
  import opened BlockHash

  const LOW_LIMIT: nat := 0x2000_0000
  const HIGH_LIMIT: nat := 0x1_0000_0000

  /** Sections 3.1 and 3.2 of RFC 1321: the length in bits, modulo 2^64, little-endian. */
  ghost function Pad(message: seq<Byte>): (r: seq<Byte>)
    ensures |r| % 64 == 0
  {
    Padded(message, LittleEndian64(8 * |message| % 0x1_0000_0000_0000_0000))
  }

  /** The two counters: 29 low bits of the byte count, and 32 bits above them. */
  ghost predicate CountersAgree(lo: nat, hi: nat, n: nat) {
    lo == n % LOW_LIMIT && hi == n / LOW_LIMIT % HIGH_LIMIT
  }

  /** How an update of `size` bytes advances the counters. */
  lemma CountersAdvance(lo: nat, hi: nat, n: nat, size: nat)
    requires CountersAgree(lo, hi, n)
    ensures
      var lo' := (lo + size) % LOW_LIMIT;
      var carry := if lo' < lo then 1 else 0;
      CountersAgree(lo', ((hi + carry) % HIGH_LIMIT + size / LOW_LIMIT) % HIGH_LIMIT, n + size)
  {
    var lo', q, s, t := (lo + size) % LOW_LIMIT, n / LOW_LIMIT, size % LOW_LIMIT, size / LOW_LIMIT;
    var carry := if lo' < lo then 1 else 0;
    assert n == q * LOW_LIMIT + lo && size == t * LOW_LIMIT + s;
    assert n + size == (q + t) * LOW_LIMIT + (lo + s);
    assert lo + s == carry * LOW_LIMIT + lo';
    assert n + size == (q + t + carry) * LOW_LIMIT + lo';
    assert (n + size) / LOW_LIMIT == q + t + carry;
    assert hi == q % HIGH_LIMIT;
  }

  /** The counters hold the two halves of the bit count modulo 2^64. */
  lemma BitCount(lo: nat, hi: nat, n: nat)
    requires CountersAgree(lo, hi, n)
    ensures 8 * n % 0x1_0000_0000_0000_0000 == hi * 0x1_0000_0000 + lo * 8
  {
    var q := n / LOW_LIMIT;
    var r := q / HIGH_LIMIT;
    assert 8 * n == q * 0x1_0000_0000 + lo * 8;
    assert q == r * HIGH_LIMIT + hi;
    assert 8 * n == r * 0x1_0000_0000_0000_0000 + (hi * 0x1_0000_0000 + lo * 8);
  }

  lemma Halves(hi: int, low: int)
    requires 0 <= low < 0x1_0000_0000
    ensures (hi * 0x1_0000_0000 + low) / 0x1_0000_0000 == hi
    ensures (hi * 0x1_0000_0000 + low) % 0x1_0000_0000 == low
  {
  }

  /** The bytes written at the end are the bit count in the order RFC 1321 asks for. */
  lemma LengthField(lo: nat, hi: nat, n: nat)
    requires CountersAgree(lo, hi, n)
    ensures LittleEndian32(lo * 8) + LittleEndian32(hi) == LittleEndian64(8 * n % 0x1_0000_0000_0000_0000)
  {
    BitCount(lo, hi, n);
    Halves(hi, lo * 8);
  }

  class Context<C(!new)> {
    const f: Compress<C>
    const iv: C
    const buffer: array<Byte>
    var state: C
    var lo: nat
    var hi: nat

    /** Everything passed to Update so far. */
    ghost var message: seq<Byte>

    ghost predicate Valid()
      reads this, buffer
    {
      && buffer.Length == 64
      && CountersAgree(lo, hi, |message|)
      && Streamed(f, iv, message, state, buffer[..|message| % 64])
    }

    constructor (f: Compress<C>, iv: C)
      ensures Valid() && message == [] && this.f == f && this.iv == iv && fresh(buffer)
    {
      this.f, this.iv := f, iv;
      buffer := new Byte[64](_ => 0);
      state, lo, hi, message := iv, 0, 0, [];
    }

    /** Compresses one or more whole blocks. */
    method Body(data: seq<Byte>)
      requires |data| % 64 == 0 && |data| > 0
      modifies this`state
      ensures state == Absorb(f, old(state), data)
    {
      var i := 0;
      assert data[0..] == data;
      while i < |data|
        invariant 0 <= i <= |data| && i % 64 == 0
        invariant Absorb(f, state, data[i..]) == Absorb(f, old(state), data)
      {
        assert data[i..][..64] == data[i..i + 64] && data[i..][64..] == data[i + 64..];
        state := f(state, data[i..i + 64]);
        i := i + 64;
      }
      assert data[i..] == [];
    }

    /** Counts the bytes of an update. */
    method Tally(size: nat)
      requires CountersAgree(lo, hi, |message|)
      modifies this`lo, this`hi
      ensures CountersAgree(lo, hi, |message| + size)
    {
      CountersAdvance(lo, hi, |message|, size);
      var saved := lo;
      lo := (saved + size) % LOW_LIMIT;
      if lo < saved {
        hi := (hi + 1) % HIGH_LIMIT;
      }
      hi := (hi + size / LOW_LIMIT) % HIGH_LIMIT;
    }

    /** The part of an update from a block boundary on: whole blocks straight from the data, then a rest. */
    method Stream(ghost before: seq<Byte>, data: seq<Byte>)
      requires buffer.Length == 64 && Streamed(f, iv, before, state, [])
      modifies this`state, buffer
      ensures Streamed(f, iv, before + data, state, buffer[..|before + data| % 64])
    {
      StreamRest(f, iv, before, state, data);
      var whole := Whole(|data|);
      if |data| >= 64 {
        Body(data[..whole]);
      }
      Put(buffer, 0, data[whole..]);
      assert buffer[..0] + data[whole..] == data[whole..];
    }

    /** Completes the block begun by earlier updates. */
    method FillBlock(used: nat, head: seq<Byte>)
      requires buffer.Length == 64 && used + |head| == 64 && Streamed(f, iv, message, state, buffer[..used])
      modifies this`state, buffer
      ensures Streamed(f, iv, message + head, state, [])
    {
      StreamAbsorbs(f, iv, message, state, buffer[..used], head);
      Put(buffer, used, head);
      assert buffer[..64] == buffer[..];
      Body(buffer[..]);
    }

    /** Compresses what the held-back bytes and the data complete, and holds back the rest. */
    method Feed(used: nat, data: seq<Byte>)
      requires buffer.Length == 64 && used == |message| % 64 && Streamed(f, iv, message, state, buffer[..used])
      modifies this`state, buffer
      ensures Streamed(f, iv, message + data, state, buffer[..|message + data| % 64])
    {
      if used != 0 {
        var available := 64 - used;
        if |data| < available {
          StreamHolds(f, iv, message, state, buffer[..used], data);
          Put(buffer, used, data);
          return;
        }
        FillBlock(used, data[..available]);
        Stream(message + data[..available], data[available..]);
        assert message + data[..available] + data[available..] == message + data;
      } else {
        assert buffer[..used] == [];
        Stream(message, data);
      }
    }

    /** Absorbs more of the message. How it is cut into updates leaves no trace. */
    method Update(data: seq<Byte>)
      requires Valid()
      modifies this, buffer
      ensures Valid() && message == old(message) + data
    {
      var used := lo % 64;
      UsedBytes(lo, hi, |message|);
      Tally(|data|);
      Feed(used, data);
      message := message + data;
    }

    /** Writes zeros and the length from `used` on, and compresses the last block. */
    method FinishBlock(used: nat)
      requires buffer.Length == 64 && used <= 56 && lo < LOW_LIMIT && hi < HIGH_LIMIT
      modifies this`state, buffer
      ensures
        var length := LittleEndian32(lo * 8) + LittleEndian32(hi);
        state == Absorb(f, old(state), old(buffer[..used]) + Zeros(56 - used) + length)
    {
      Put(buffer, used, Zeros(56 - used));
      Put(buffer, 56, LittleEndian32(lo * 8));
      Put(buffer, 60, LittleEndian32(hi));
      assert buffer[..64] == buffer[..];
      assert buffer[..] ==
             old(buffer[..used]) + Zeros(56 - used) + (LittleEndian32(lo * 8) + LittleEndian32(hi));
      Body(buffer[..]);
    }

    /** Fills a block that has no room for the length with zeros, and compresses it. */
    method ZeroBlock(used: nat)
      requires buffer.Length == 64 && used <= 64
      modifies this`state, buffer
      ensures state == Absorb(f, old(state), old(buffer[..used]) + Zeros(64 - used))
    {
      Put(buffer, used, Zeros(64 - used));
      assert buffer[..64] == buffer[..];
      Body(buffer[..]);
    }

    /** Marker, zeros and length behind the `used` bytes of the message that are in the buffer. */
    method Finish(used: nat)
      requires buffer.Length == 64 && used < 64 && lo < LOW_LIMIT && hi < HIGH_LIMIT
      modifies this`state, buffer
      ensures
        var tail, length := old(buffer[..used]), LittleEndian32(lo * 8) + LittleEndian32(hi);
        state == if used < 56 then Absorb(f, old(state), tail + [0x80] + Zeros(55 - used) + length)
                 else Absorb(f, Absorb(f, old(state), tail + [0x80] + Zeros(63 - used)), Zeros(56) + length)
    {
      Put(buffer, used, [0x80]);
      var after := used + 1;
      var available := 64 - after;
      if available < 8 {
        ZeroBlock(after);
        after := 0;
        assert buffer[..0] + Zeros(56) == Zeros(56);
      }
      FinishBlock(after);
    }

    /** The chaining value of the padded message; the context is used up. */
    method Final() returns (digest: C)
      requires Valid()
      modifies this, buffer
      ensures digest == Absorb(f, iv, Pad(old(message)))
    {
      var used := lo % 64;
      UsedBytes(lo, hi, |message|);
      LengthField(lo, hi, |message|);
      LengthIsPadded(f, iv, message, state, buffer[..used], LittleEndian32(lo * 8) + LittleEndian32(hi));
      Finish(used);
      digest := state;
    }
  }

  /** The low counter tells how much of the last block is there. */
  lemma UsedBytes(lo: nat, hi: nat, n: nat)
    requires CountersAgree(lo, hi, n)
    ensures lo % 64 == n % 64 && lo < LOW_LIMIT && hi < HIGH_LIMIT
  {
  }

  /** The one or two last blocks, with the bit count as length field, are the padding. */
  lemma LengthIsPadded<C(!new)>(f: Compress<C>, iv: C, message: seq<Byte>, c: C, tail: seq<Byte>, length: seq<Byte>)
    requires Streamed(f, iv, message, c, tail) && |length| == 8 && |tail| < 64
    requires length == LittleEndian64(8 * |message| % 0x1_0000_0000_0000_0000)
    ensures Absorb(f, iv, Pad(message)) ==
            if |tail| < 56 then Absorb(f, c, tail + [0x80] + Zeros(55 - |tail|) + length)
            else Absorb(f, Absorb(f, c, tail + [0x80] + Zeros(63 - |tail|)), Zeros(56) + length)
  {
    if |tail| < 56 {
      FinishesInOne(f, iv, message, c, tail, length);
    } else {
      FinishesInTwo(f, iv, message, c, tail, length);
    }
  }

  /** Hashing a message in any number of pieces. */
  method HashChunks<C(!new)>(f: Compress<C>, iv: C, chunks: seq<seq<Byte>>) returns (digest: C)
    ensures digest == Absorb(f, iv, Pad(Concat(chunks)))
  {
    var ctx := new Context(f, iv);
    for i := 0 to |chunks|
      invariant ctx.Valid() && ctx.f == f && ctx.iv == iv && ctx.message == Concat(chunks[..i])
      invariant fresh(ctx) && fresh(ctx.buffer)
    {
      ConcatNext(chunks, i);
      ctx.Update(chunks[i]);
    }
    assert chunks[..|chunks|] == chunks;
    digest := ctx.Final();
  }
}
