/**
 The streaming interface of SHA-1 (RFC 3174): init, any number of updates, finalize.
 */
module Sha1 {
  import opened BlockHash

  const WORD: nat := 0x1_0000_0000

  /** The eight length bytes the implementation appends for a byte count. */
  function WrittenLength(sz: nat): (r: seq<Byte>)
    ensures |r| == 8
  {
    var szLo := sz % WORD * 8 % WORD;
    var szHi := sz / WORD % WORD * 8 % WORD;
    BigEndian32(szHi) + BigEndian32(szLo)
  }

  /** Section 4 of RFC 3174: the length in bits as a 64-bit big-endian number. */
  ghost function Pad(message: seq<Byte>): (r: seq<Byte>)
    requires |message| < 0x2000_0000_0000_0000
    ensures |r| % 64 == 0
  {
    Padded(message, BigEndian64(8 * |message|))
  }

  /** The low word of the length field is always right. */
  lemma WrittenLow(n: nat)
    ensures n % WORD * 8 % WORD == 8 * n % WORD
  {
    var q, r := n / WORD, n % WORD;
    assert 8 * n == 8 * q * WORD + 8 * r;
  }

  /** The high word lacks the three bits shifted out of the low one. */
  lemma WrittenHigh(n: nat)
    requires n < 0x2000_0000_0000_0000
    ensures n / WORD % WORD * 8 % WORD + n % WORD / 0x2000_0000 == 8 * n / WORD
  {
    var q, r := n / WORD, n % WORD;
    var t, u := r / 0x2000_0000, r % 0x2000_0000;
    assert n == q * WORD + r && r == t * 0x2000_0000 + u && q < 0x2000_0000;
    assert 8 * n == (8 * q + t) * WORD + 8 * u;
  }

  /** The length field is the right one exactly when bits 29 to 31 of the byte count are clear. */
  lemma LengthFieldIsRight(n: nat)
    requires n < 0x2000_0000_0000_0000
    ensures WrittenLength(n) == BigEndian64(8 * n) <==> n % WORD < 0x2000_0000
  {
    WrittenLow(n);
    WrittenHigh(n);
    var szLo, szHi := n % WORD * 8 % WORD, n / WORD % WORD * 8 % WORD;
    var hi := 8 * n / WORD;
    BigEndian32Injective(szHi, hi);
    assert WrittenLength(n)[..4] == BigEndian32(szHi) && BigEndian64(8 * n)[..4] == BigEndian32(hi);
  }

  /** So the padded message is that of RFC 3174 exactly for those lengths, which include all below 2^29 bytes. */
  lemma PaddingIsRight(message: seq<Byte>)
    requires |message| < 0x2000_0000_0000_0000
    ensures Padded(message, WrittenLength(|message|)) == Pad(message) <==> |message| % WORD < 0x2000_0000
  {
    LengthFieldIsRight(|message|);
    PaddingsDifferInLength(message, WrittenLength(|message|), BigEndian64(8 * |message|));
  }

  /** The shortest message that is padded wrongly has 2^29 bytes. */
  lemma ShortestWrongPadding(message: seq<Byte>)
    requires |message| == 0x2000_0000
    ensures Padded(message, WrittenLength(|message|)) != Pad(message)
  {
    PaddingIsRight(message);
  }

  class Context<C(!new)> {
    const f: Compress<C>
    const iv: C
    const cache: array<Byte>
    var h: C
    var cacheLen: nat
    var sz: nat

    /** Everything passed to Update so far. */
    ghost var message: seq<Byte>

    ghost predicate Valid()
      reads this, cache
    {
      && cache.Length == 64 && cacheLen < 64
      && sz == |message| % 0x1_0000_0000_0000_0000
      && Streamed(f, iv, message, h, cache[..cacheLen])
    }

    constructor (f: Compress<C>, iv: C)
      ensures Valid() && message == [] && this.f == f && this.iv == iv && fresh(cache)
    {
      this.f, this.iv := f, iv;
      cache := new Byte[64](_ => 0);
      h, cacheLen, sz, message := iv, 0, 0, [];
    }

    /** Compresses one block; at this point the cache counts as empty. */
    method UpdateBlock(block: seq<Byte>)
      requires |block| == 64
      modifies this`h, this`cacheLen
      ensures h == Absorb(f, old(h), block) && cacheLen == 0
    {
      AbsorbOne(f, h, block);
      h := f(h, block);
      cacheLen := 0;
    }

    /** Puts as much of the data as fits into the cache, and compresses that when it is full. */
    method Cache(ghost before: seq<Byte>, data: seq<Byte>) returns (taken: nat)
      requires cache.Length == 64 && cacheLen < 64 && data != []
      requires Streamed(f, iv, before, h, cache[..cacheLen])
      modifies this`h, this`cacheLen, cache
      ensures 0 < taken <= |data| && cacheLen < 64
      ensures Streamed(f, iv, before + data[..taken], h, cache[..cacheLen])
    {
      var cacheRemaining := 64 - cacheLen;
      taken := if |data| > cacheRemaining then cacheRemaining else |data|;
      ghost var tail := cache[..cacheLen];
      Put(cache, cacheLen, data[..taken]);
      cacheLen := cacheLen + taken;
      if cacheLen == 64 {
        StreamAbsorbs(f, iv, before, h, tail, data[..taken]);
        assert cache[..64] == cache[..];
        UpdateBlock(cache[..]);
        assert cache[..0] == [];
      } else {
        StreamHolds(f, iv, before, h, tail, data[..taken]);
      }
    }

    /** The fast path: a block taken straight from the data. */
    method Bypass(ghost before: seq<Byte>, block: seq<Byte>)
      requires cache.Length == 64 && cacheLen == 0 && |block| == 64
      requires Streamed(f, iv, before, h, [])
      modifies this`h, this`cacheLen
      ensures Streamed(f, iv, before + block, h, []) && cacheLen == 0
    {
      StreamAbsorbs(f, iv, before, h, [], block);
      assert [] + block == block;
      UpdateBlock(block);
    }

    /** One turn of the update loop: a block straight from the data, or what fits into the cache. */
    method Piece(ghost before: seq<Byte>, data: seq<Byte>) returns (taken: nat)
      requires cache.Length == 64 && cacheLen < 64 && data != []
      requires Streamed(f, iv, before, h, cache[..cacheLen])
      modifies this`h, this`cacheLen, cache
      ensures 0 < taken <= |data| && cacheLen < 64
      ensures Streamed(f, iv, before + data[..taken], h, cache[..cacheLen])
    {
      if cacheLen == 0 && |data| > 64 {
        assert cache[..0] == [];
        Bypass(before, data[..64]);
        assert cache[..0] == [];
        taken := 64;
      } else {
        taken := Cache(before, data);
      }
    }

    /** Absorbs more of the message. How it is cut into updates leaves no trace. */
    method Update(data: seq<Byte>)
      requires Valid()
      modifies this, cache
      ensures Valid() && message == old(message) + data
    {
      var done := 0;
      assert message + data[..0] == message;
      while done < |data|
        invariant 0 <= done <= |data| && message == old(message) && sz == old(sz)
        invariant cacheLen < 64 && Streamed(f, iv, message + data[..done], h, cache[..cacheLen])
      {
        var taken := Piece(message + data[..done], data[done..]);
        NextPiece(message, data, done, taken);
        done := done + taken;
      }
      assert data[..done] == data;
      SizeAdds(message, data);
      sz := (sz + |data|) % 0x1_0000_0000_0000_0000;
      message := message + data;
    }

    /** Writes zeros and the length from `used` on, and compresses the last block. */
    method FinishBlock(used: nat)
      requires cache.Length == 64 && used <= 56
      modifies this`h, this`cacheLen, cache
      ensures h == Absorb(f, old(h), old(cache[..used]) + Zeros(56 - used) + WrittenLength(sz))
    {
      Put(cache, used, Zeros(56 - used));
      Put(cache, 56, WrittenLength(sz));
      assert cache[..64] == cache[..];
      UpdateBlock(cache[..]);
    }

    /** Fills a block that has no room for the length with zeros, and compresses it. */
    method ZeroBlock(used: nat)
      requires cache.Length == 64 && used <= 64
      modifies this`h, this`cacheLen, cache
      ensures h == Absorb(f, old(h), old(cache[..used]) + Zeros(64 - used)) && cacheLen == 0
    {
      Put(cache, used, Zeros(64 - used));
      assert cache[..64] == cache[..];
      UpdateBlock(cache[..]);
    }

    /** Marker, zeros and length behind the bytes in the cache. */
    method Finish()
      requires cache.Length == 64 && cacheLen < 64
      modifies this`h, this`cacheLen, cache
      ensures
        var tail, used, length := old(cache[..cacheLen]), old(cacheLen), WrittenLength(sz);
        h == if used < 56 then Absorb(f, old(h), tail + [0x80] + Zeros(55 - used) + length)
             else Absorb(f, Absorb(f, old(h), tail + [0x80] + Zeros(63 - used)), Zeros(56) + length)
    {
      Put(cache, cacheLen, [0x80]);
      cacheLen := cacheLen + 1;
      if 64 - cacheLen < 8 {
        ZeroBlock(cacheLen);
        assert cache[..0] + Zeros(56) == Zeros(56);
      }
      FinishBlock(cacheLen);
    }

    /** The chaining value of the message padded with the length field as the code writes it. */
    method Finalize() returns (digest: C)
      requires Valid()
      modifies this, cache
      ensures digest == Absorb(f, iv, Padded(old(message), WrittenLength(old(sz))))
    {
      if cacheLen < 56 {
        FinishesInOne(f, iv, message, h, cache[..cacheLen], WrittenLength(sz));
      } else {
        FinishesInTwo(f, iv, message, h, cache[..cacheLen], WrittenLength(sz));
      }
      Finish();
      digest := h;
    }
  }

  lemma SizeAdds(message: seq<Byte>, data: seq<Byte>)
    ensures var n := 0x1_0000_0000_0000_0000; (|message| % n + |data|) % n == |message + data| % n
  {
  }

  lemma NextPiece(message: seq<Byte>, data: seq<Byte>, done: nat, taken: nat)
    requires done + taken <= |data|
    ensures message + data[..done] + data[done..done + taken] == message + data[..done + taken]
    ensures data[done..][..taken] == data[done..done + taken]
  {
  }

  lemma RightlyPadded(message: seq<Byte>)
    ensures |message| < 0x2000_0000_0000_0000 && |message| % WORD < 0x2000_0000 ==>
              Padded(message, WrittenLength(|message| % 0x1_0000_0000_0000_0000)) == Pad(message)
  {
    if |message| < 0x2000_0000_0000_0000 {
      assert |message| % 0x1_0000_0000_0000_0000 == |message|;
      PaddingIsRight(message);
    }
  }

  /** A context that has seen the given chunks in turn. */
  method FeedChunks<C(!new)>(f: Compress<C>, iv: C, chunks: seq<seq<Byte>>) returns (ctx: Context<C>)
    ensures ctx.Valid() && ctx.f == f && ctx.iv == iv && ctx.message == Concat(chunks)
    ensures fresh(ctx) && fresh(ctx.cache)
  {
    ctx := new Context(f, iv);
    for i := 0 to |chunks|
      invariant ctx.Valid() && ctx.f == f && ctx.iv == iv && ctx.message == Concat(chunks[..i])
      invariant fresh(ctx) && fresh(ctx.cache)
    {
      ConcatNext(chunks, i);
      ctx.Update(chunks[i]);
    }
    assert chunks[..|chunks|] == chunks;
  }

  /** Hashing a message in any number of pieces; right whenever the length is one that is written right. */
  method HashChunks<C(!new)>(f: Compress<C>, iv: C, chunks: seq<seq<Byte>>) returns (digest: C)
    ensures digest == Absorb(f, iv, Padded(Concat(chunks), WrittenLength(|Concat(chunks)| % 0x1_0000_0000_0000_0000)))
    ensures |Concat(chunks)| < 0x2000_0000_0000_0000 && |Concat(chunks)| % WORD < 0x2000_0000 ==>
              digest == Absorb(f, iv, Pad(Concat(chunks)))
  {
    var ctx := FeedChunks(f, iv, chunks);
    digest := ctx.Finalize();
    RightlyPadded(Concat(chunks));
  }
}
