/** PBKDF2 with in-place T and U, and scryptWith: parameter check, scratch buffers and
    the p segments of crypto/scrypt.go. */
module Scrypt {
  import opened Bits
  import opened ScryptSpec
  import opened Splices
  import opened BlockMixing
  import opened Smix

  // ---- PBKDF2 ----

  /** prf.Sum into a slice: overwrites size octets. */
  method Put(dst: array<Byte>, at: nat, x: seq<Byte>)
    requires at + |x| <= dst.Length
    modifies dst
    ensures dst[..] == Splice(old(dst[..]), at, x)
  {
    ghost var s := dst[..];
    for i := 0 to |x|
      invariant dst[..] == Splice(s, at, x[..i])
    {
      StoreNext(s, at, x[..i], x[i]);
      assert x[..i + 1] == x[..i] + [x[i]];
      dst[at + i] := x[i];
    }
    assert x[..|x|] == x;
  }

  /** T[x] ^= U[x] over one block. */
  method XorInto(f: Prf, dst: array<Byte>, at: nat, u: array<Byte>)
    requires dst != u && at + u.Length <= dst.Length
    modifies dst
    ensures dst[..] == Splice(old(dst[..]), at, Zip(f.xor, old(dst[at..at + u.Length]), u[..]))
  {
    ghost var s := dst[..];
    var n := u.Length;
    for i := 0 to n
      invariant dst[..] == Splice(s, at, Zip(f.xor, s[at..at + i], u[..i]))
    {
      ghost var x := Zip(f.xor, s[at..at + i], u[..i]);
      SpliceAt(s, at, x, at + i);
      StoreNext(s, at, x, f.xor(s[at + i], u[i]));
      ZipNext(f.xor, s[at..at + i], u[..i], s[at + i], u[i]);
      assert s[at..at + i + 1] == s[at..at + i] + [s[at + i]];
      assert u[..i + 1] == u[..i] + [u[i]];
      assert dst[at + i] == dst[..][at + i];
      dst[at + i] := f.xor(dst[at + i], u[i]);
    }
    assert s[at..at + n] == old(dst[at..at + n]) && u[..n] == u[..];
  }

  function Count(iter: int): (c: nat)
    ensures c >= 1
  {
    if iter < 1 then 1 else iter
  }

  /** The inner iterations of one block, xored into dk at `at`. */
  method Block(f: Prf, salt: seq<Byte>, iter: int, block: nat, dk: array<Byte>, at: nat, u: array<Byte>)
    requires ValidPrf(f) && dk != u && u.Length == f.size && at + f.size <= dk.Length
    modifies dk, u
    ensures dk[..] == Splice(old(dk[..]), at, OuterBlock(f, salt, Count(iter), block))
  {
    ghost var s := dk[..];
    var m := f.mac(salt + BlockIndex(block));
    Put(dk, at, m);
    Put(u, 0, m);
    assert u[..] == m == Inner(f, salt, block, 1);
    var n := 2;
    while n <= iter
      invariant 2 <= n <= Count(iter) + 1
      invariant u[..] == Inner(f, salt, block, n - 1)
      invariant dk[..] == Splice(s, at, OuterBlock(f, salt, n - 1, block))
    {
      BlockStep(f, salt, iter, block, dk, at, u, n, s);
      n := n + 1;
    }
  }

  method BlockStep(f: Prf, salt: seq<Byte>, iter: int, block: nat, dk: array<Byte>, at: nat, u: array<Byte>, n: nat,
      ghost s: seq<Byte>)
    requires ValidPrf(f) && dk != u && u.Length == f.size && dk.Length == |s| && at + f.size <= |s| && n >= 2
    requires u[..] == Inner(f, salt, block, n - 1)
    requires dk[..] == Splice(s, at, OuterBlock(f, salt, n - 1, block))
    modifies dk, u
    ensures u[..] == Inner(f, salt, block, n)
    ensures dk[..] == Splice(s, at, OuterBlock(f, salt, n, block))
  {
    ghost var t := OuterBlock(f, salt, n - 1, block);
    Put(u, 0, f.mac(u[..]));
    assert u[..] == Inner(f, salt, block, n);
    ReadBack(dk, s, at, t);
    XorInto(f, dk, at, u);
    Overwrite(s, at, t, OuterBlock(f, salt, n, block));
  }

  /** The derived key is the first keyLen octets of the returned buffer. */
  method PBKDF2(f: Prf, salt: seq<Byte>, iter: int, keyLen: nat) returns (dk: array<Byte>)
    requires ValidPrf(f)
    ensures fresh(dk) && keyLen <= dk.Length
    ensures dk[..keyLen] == Pbkdf2(f, salt, Count(iter), keyLen)
  {
    var numBlocks := BlockCount(keyLen, f.size);
    dk := new Byte[numBlocks * f.size];
    var u := new Byte[f.size];
    ghost var c := Count(iter);
    for block := 1 to numBlocks + 1
      invariant Holds(dk, 0, OuterBlocks(f, salt, c, block - 1))
    {
      ghost var s, t := dk[..], OuterBlocks(f, salt, c, block - 1);
      BlockFits(block, numBlocks, f.size);
      Block(f, salt, iter, block, dk, (block - 1) * f.size, u);
      assert s[..|t|] == t;
      TableGrows(s, dk[..], t, OuterBlock(f, salt, c, block));
      assert OuterBlocks(f, salt, c, block) == t + OuterBlock(f, salt, c, block);
      assert dk[0..|t| + f.size] == dk[..][..|t| + f.size];
    }
    ghost var all := OuterBlocks(f, salt, c, numBlocks);
    assert dk[..keyLen] == dk[0..|all|][..keyLen];
  }

  lemma BlockFits(block: nat, numBlocks: nat, h: nat)
    requires 1 <= block <= numBlocks
    ensures (block - 1) * h + h == block * h <= numBlocks * h
  {
    MulMono(block, numBlocks, h);
  }

  // ---- scryptWith ----

  datatype Result = Ok(key: seq<Byte>) | BadCost | BadShape | TooLarge

  const MAX_INT32: int := 0x7fff_ffff
  const WORD64: int := 0x1_0000_0000_0000_0000

  /** A Go int on a 64-bit platform. */
  type GoInt = n: int | -0x8000_0000_0000_0000 <= n < 0x8000_0000_0000_0000

  /** The parameters section 6 of RFC 7914 allows, within the code's memory limits. */
  ghost predicate Accepted(N: int, r: int, p: int) {
    && N > 1 && IsPow2(N) && r > 0 && p > 0
    && 128 * r * p <= MAX_INT32 && 128 * N * r <= MAX_INT32
  }

  /** The size check as the code evaluates it: a 64-bit product that may wrap, then quotients. */
  predicate TooBig(N: GoInt, r: GoInt, p: GoInt)
    requires N > 0 && r > 0 && p > 0
  {
    (r * p) % WORD64 >= 0x4000_0000 || r > MAX_INT32 / 128 / p || r > MAX_INT32 / 128 / N || N > MAX_INT32 / 128 / r
  }

  lemma QuotientBound(a: nat, b: nat, m: nat)
    requires b > 0
    ensures a <= m / b <==> a * b <= m
  {
    if a <= m / b { MulMono(a, m / b, b); }
    if a > m / b { MulMono(m / b + 1, a, b); assert (m / b + 1) * b == m / b * b + b; }
  }

  lemma TooBigExactly(N: GoInt, r: GoInt, p: GoInt)
    requires N > 0 && r > 0 && p > 0
    ensures !TooBig(N, r, p) <==> 128 * r * p <= MAX_INT32 && 128 * N * r <= MAX_INT32
  {
    var m := MAX_INT32 / 128;
    QuotientBound(r, p, m);
    QuotientBound(r, N, m);
    QuotientBound(N, r, m);
    assert r * N == N * r;
    assert 128 * r * p == 128 * (r * p) && 128 * N * r == 128 * (N * r);
  }

  class Scratch {
    var v: array<Word>
    var xy: array<Word>

    constructor ()
      ensures fresh(v) && fresh(xy) && v != xy
    {
      v := new Word[0];
      xy := new Word[0];
    }

    /** Grows the buffers when they are too small and otherwise hands out stale ones. */
    method Buffers(N: nat, r: nat) returns (v': array<Word>, xy': array<Word>)
      requires v != xy && r >= 1
      modifies this
      ensures v' == v && xy' == xy && v' != xy' && v'.Length >= N * (32 * r) && xy'.Length >= 64 * r
      ensures v' == old(v) || fresh(v')
      ensures xy' == old(xy) || fresh(xy')
    {
      if v.Length < 32 * N * r {
        v := new Word[32 * N * r];
      }
      if xy.Length < 64 * r {
        xy := new Word[64 * r];
      }
      assert 32 * N * r == N * (32 * r);
      return v, xy;
    }
  }

  ghost predicate SegmentIs(core: Core, b: seq<Byte>, r: nat, N: nat, xs: seq<seq<Byte>>, i: nat)
    requires r >= 1 && N >= 1 && i < |xs| && i * (128 * r) + 128 * r <= |b|
  {
    xs[i] == MixSegment(core, b, r, N, i)
  }

  lemma SegmentValue(core: Core, b: seq<Byte>, r: nat, N: nat, xs: seq<seq<Byte>>, i: nat, segment: seq<Byte>)
    requires r >= 1 && N >= 1 && i < |xs| && i * (128 * r) + 128 * r <= |b| && SegmentIs(core, b, r, N, xs, i)
    requires segment == b[i * (128 * r)..i * (128 * r) + 128 * r]
    ensures xs[i] == EncodeWords(ScryptROMix(core, DecodeWords(segment), r, N))
  {
  }

  /** Mixes segment i of b, the first i segments being done. */
  method MixOne(core: Core, b: array<Byte>, r: nat, N: nat, i: nat, v: array<Word>, xy: array<Word>,
                ghost s: seq<Byte>, ghost b0: seq<Byte>, ghost xs: seq<seq<Byte>>)
    requires r >= 1 && N >= 2 && IsPow2(N) && N <= WORD64
    requires xy.Length >= 64 * r && v.Length >= N * (32 * r) && xy != v
    requires b.Length == |s| && i < |xs| && Sized(xs, 128 * r) && i * (128 * r) + 128 * r <= |b0| <= |s|
    requires b0 == s[..|b0|]
    requires SegmentIs(core, b0, r, N, xs, i)
    requires |Flatten(xs, i)| <= |s| && b[..] == Splice(s, 0, Flatten(xs, i))
    modifies b, v, xy
    ensures |Flatten(xs, i + 1)| <= |s| && b[..] == Splice(s, 0, Flatten(xs, i + 1))
  {
    var lo := i * (128 * r);
    ghost var m := Flatten(xs, i);
    FlattenLength(xs, 128 * r, i);
    ReadElsewhere(s, 0, m, lo, lo + 128 * r);
    assert s[lo..lo + 128 * r] == b0[lo..lo + 128 * r];
    ArraySlice(b, lo, lo + 128 * r);
    SegmentValue(core, b0, r, N, xs, i, b[lo..lo + 128 * r]);
    SMix(core, b, lo, r, N, v, xy);
    FlattenWrite(s, xs, i);
  }

  /** Mixes the p segments of b one after the other, sharing the scratch buffers. */
  method MixAll(core: Core, b: array<Byte>, r: nat, N: nat, p: nat, v: array<Word>, xy: array<Word>)
    requires r >= 1 && N >= 2 && IsPow2(N) && N <= WORD64
    requires xy.Length >= 64 * r && v.Length >= N * (32 * r) && xy != v && p * (128 * r) <= b.Length
    modifies b, v, xy
    ensures b[..p * (128 * r)] == Flatten(MixSegments(core, old(b[..p * (128 * r)]), r, N, p), p)
  {
    ghost var s, b0 := b[..], b[..p * (128 * r)];
    ghost var xs := MixSegments(core, b0, r, N, p);
    for i := 0 to p
      invariant |Flatten(xs, i)| <= |s| && b[..] == Splice(s, 0, Flatten(xs, i))
    {
      SegmentFits(i, p, 128 * r);
      MixOne(core, b, r, N, i, v, xy, s, b0, xs);
    }
    FlattenLength(xs, 128 * r, p);
    ReadBack(b, s, 0, Flatten(xs, p));
    assert b[..p * (128 * r)] == b[0..p * (128 * r)];
  }

  /** Accepts exactly the allowed parameters, and then derives the RFC 7914 key
      whatever an earlier call left in the scratch buffers. */
  method ScryptWith(scratch: Scratch, salsa: Block -> Block, xor: (Word, Word) -> Word, f: Prf,
                    salt: seq<Byte>, N: GoInt, r: GoInt, p: GoInt, keyLen: nat)
    returns (res: Result)
    requires ValidPrf(f) && scratch.v != scratch.xy
    modifies scratch, scratch.v, scratch.xy
    ensures scratch.v != scratch.xy
    ensures res.Ok? <==> Accepted(N, r, p)
    ensures res.Ok? ==> res.key == ScryptSpec.Scrypt(CoreOf(salsa, xor), f, salt, N, r, p, keyLen)
  {
    if N <= 1 {
      return BadCost;
    }
    PowerOfTwoTest(N);
    if BitAnd(N, N - 1) != 0 {
      return BadCost;
    }
    if r <= 0 || p <= 0 {
      return BadShape;
    }
    TooBigExactly(N, r, p);
    if TooBig(N, r, p) {
      return TooLarge;
    }
    assert Accepted(N, r, p);
    var v, xy := scratch.Buffers(N, r);
    var b := PBKDF2(f, salt, 1, p * (128 * r));
    MulMono(1, r, 128 * N);
    MixAll(CoreOf(salsa, xor), b, r, N, p, v, xy);
    var dk := PBKDF2(f, b[..p * (128 * r)], 1, keyLen);
    return Ok(dk[..keyLen]);
  }
}
