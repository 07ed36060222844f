/** blockCopy, blockXOR, salsaXOR and blockMix of crypto/scrypt.go: one array, two
    regions of it, results scattered to even and odd places as they are made. */
module BlockMixing {
  import opened Bits
  import opened ScryptSpec
  import opened Splices

  method CopyWords(dst: array<Word>, to: nat, src: array<Word>, from: nat, n: nat)
    requires dst != src && to + n <= dst.Length && from + n <= src.Length
    modifies dst
    ensures dst[..] == Splice(old(dst[..]), to, src[from..from + n])
  {
    ghost var s := dst[..];
    for i := 0 to n
      invariant dst[..] == Splice(s, to, src[from..from + i])
    {
      StoreNext(s, to, src[from..from + i], src[from + i]);
      assert src[from..from + i + 1] == src[from..from + i] + [src[from + i]];
      dst[to + i] := src[from + i];
    }
  }

  lemma ZipNext<T>(f: (T, T) -> T, a: seq<T>, b: seq<T>, u: T, v: T)
    requires |a| == |b|
    ensures Zip(f, a + [u], b + [v]) == Zip(f, a, b) + [f(u, v)]
  {
  }

  method BlockXor(core: Core, dst: array<Word>, to: nat, src: array<Word>, from: nat, n: nat)
    requires dst != src && to + n <= dst.Length && from + n <= src.Length
    modifies dst
    ensures dst[..] == Splice(old(dst[..]), to, Zip(core.xor, old(dst[to..to + n]), src[from..from + n]))
  {
    ghost var s := dst[..];
    for i := 0 to n
      invariant dst[..] == Splice(s, to, Zip(core.xor, s[to..to + i], src[from..from + i]))
    {
      ghost var x := Zip(core.xor, s[to..to + i], src[from..from + i]);
      SpliceAt(s, to, x, to + i);
      StoreNext(s, to, x, core.xor(s[to + i], src[from + i]));
      ZipNext(core.xor, s[to..to + i], src[from..from + i], s[to + i], src[from + i]);
      assert s[to..to + i + 1] == s[to..to + i] + [s[to + i]];
      assert src[from..from + i + 1] == src[from..from + i] + [src[from + i]];
      assert dst[to + i] == dst[..][to + i];
      dst[to + i] := core.xor(dst[to + i], src[from + i]);
    }
    assert s[to..to + n] == old(dst[to..to + n]);
  }

  /** Applies the core to tmp xor a[from..], storing the result in tmp and in a[to..]. */
  method SalsaXor(core: Core, tmp: array<Word>, a: array<Word>, from: nat, to: nat)
    requires tmp != a && tmp.Length == 16 && from + 16 <= a.Length && to + 16 <= a.Length
    modifies tmp, a
    ensures tmp[..] == Step(core, old(tmp[..]), old(a[from..from + 16]))
    ensures a[..] == Splice(old(a[..]), to, tmp[..])
  {
    ghost var s := a[..];
    var x: Block := Step(core, tmp[..], a[from..from + 16]);
    for i := 0 to 16
      invariant tmp[..i] == x[..i]
      invariant a[..] == Splice(s, to, x[..i])
    {
      StoreNext(s, to, x[..i], x[i]);
      assert x[..i + 1] == x[..i] + [x[i]];
      a[to + i], tmp[i] := x[i], x[i];
    }
    assert tmp[..] == tmp[..16] && x == x[..16];
  }

  /** What the buffer holds after n pairs of blocks have been scattered. */
  ghost function Scattered(s: seq<Word>, to: nat, r: nat, ys: seq<Block>, n: nat): seq<Word>
    requires |ys| == 2 * r && to + 32 * r <= |s| && n <= r
  {
    Splice(Splice(s, to, EveryOther(ys, 0, n)), to + 16 * r, EveryOther(ys, 1, n))
  }

  /** Reads input block i of a pass, whatever has been scattered so far. */
  lemma InputBlock(s: seq<Word>, b: seq<Word>, from: nat, to: nat, r: nat, e: seq<Word>, o: seq<Word>, i: nat)
    requires from + 32 * r <= |s| && to + 32 * r <= |s| && (from + 32 * r <= to || to + 32 * r <= from)
    requires b == s[from..from + 32 * r] && |e| <= 16 * r && |o| <= 16 * r && i < 2 * r
    ensures Splice(Splice(s, to, e), to + 16 * r, o)[from + i * 16..from + i * 16 + 16] == b[i * 16..i * 16 + 16]
  {
    ReadPast(s, to, e, to + 16 * r, o, from + i * 16, from + i * 16 + 16);
    SubSlice(s, from, from + 32 * r, i * 16, i * 16 + 16);
  }

  ghost function Prev(b: seq<Word>, r: nat, ys: seq<Block>, i: nat): Block
    requires r >= 1 && |b| == 32 * r && i <= |ys|
  {
    if i == 0 then b[32 * r - 16..] else ys[i - 1]
  }

  /** ys[i] follows from the chaining value before it and input block i. */
  ghost predicate Follows(core: Core, b: seq<Word>, r: nat, ys: seq<Block>, i: nat)
    requires r >= 1 && |b| == 32 * r && i < |ys| <= 2 * r
  {
    ys[i] == Step(core, Prev(b, r, ys, i), b[16 * i..16 * i + 16])
  }

  ghost predicate Linked(core: Core, b: seq<Word>, r: nat, ys: seq<Block>)
    requires r >= 1 && |b| == 32 * r && |ys| <= 2 * r
  {
    forall i: nat :: i < |ys| ==> Follows(core, b, r, ys, i)
  }

  lemma {:induction false} ChainLinked(core: Core, b: seq<Word>, r: nat, n: nat)
    requires r >= 1 && |b| == 32 * r && n <= 2 * r
    ensures Linked(core, b, r, Chain(core, b, r, n))
  {
    if n != 0 {
      ChainLinked(core, b, r, n - 1);
      var zs, ys := Chain(core, b, r, n - 1), Chain(core, b, r, n);
      forall i: nat | i < n ensures Follows(core, b, r, ys, i) {
        if i < n - 1 {
          assert Follows(core, b, r, zs, i);
          assert ys[i] == zs[i] && Prev(b, r, ys, i) == Prev(b, r, zs, i);
        }
      }
    }
  }

  /** ys[i] is what the core makes of the chaining value and s[from..]. */
  ghost predicate Ready(core: Core, b: seq<Word>, r: nat, ys: seq<Block>, i: nat, s: seq<Word>, from: nat)
    requires r >= 1 && |b| == 32 * r && i < |ys| <= 2 * r && from + 16 <= |s|
  {
    ys[i] == Step(core, Prev(b, r, ys, i), s[from..from + 16])
  }

  lemma PairReads(core: Core, s: seq<Word>, b: seq<Word>, from: nat, to: nat, r: nat, ys: seq<Block>, i: nat, n: nat)
    requires r >= 1 && i == 2 * n && n < r && |ys| == 2 * r
    requires from + 32 * r <= |s| && to + 32 * r <= |s| && (from + 32 * r <= to || to + 32 * r <= from)
    requires b == s[from..from + 32 * r] && Follows(core, b, r, ys, i) && Follows(core, b, r, ys, i + 1)
    ensures Ready(core, b, r, ys, i, Scattered(s, to, r, ys, n), from + i * 16)
    ensures Ready(core, b, r, ys, i + 1, Splice(Scattered(s, to, r, ys, n), to + i * 8, ys[i]), from + i * 16 + 16)
  {
    var e, o := EveryOther(ys, 0, n), EveryOther(ys, 1, n);
    InputBlock(s, b, from, to, r, e, o, i);
    Commute(Splice(s, to, e), to + i * 8, ys[i], to + 16 * r, o);
    Append(s, to, e, ys[i]);
    InputBlock(s, b, from, to, r, e + ys[i], o, i + 1);
  }

  lemma PairWrites(s: seq<Word>, to: nat, r: nat, ys: seq<Block>, i: nat, n: nat)
    requires i == 2 * n && n < r && |ys| == 2 * r && to + 32 * r <= |s|
    ensures Splice(Splice(Scattered(s, to, r, ys, n), to + i * 8, ys[i]), to + i * 8 + r * 16, ys[i + 1]) ==
              Scattered(s, to, r, ys, n + 1)
  {
    var e, o := EveryOther(ys, 0, n), EveryOther(ys, 1, n);
    Commute(Splice(s, to, e), to + i * 8, ys[i], to + 16 * r, o);
    Append(s, to, e, ys[i]);
    Append(Splice(s, to, e + ys[i]), to + 16 * r, o, ys[i + 1]);
    assert EveryOther(ys, 0, n + 1) == e + ys[i] && EveryOther(ys, 1, n + 1) == o + ys[i + 1];
  }

  /** SalsaXor stated on values: s is the buffer before block i. */
  method MixBlock(core: Core, tmp: array<Word>, a: array<Word>, from: nat, to: nat, ghost r: nat, ghost i: nat,
                  ghost s: seq<Word>, ghost b: seq<Word>, ghost ys: seq<Block>)
    requires tmp != a && tmp.Length == 16 && a.Length == |s| && from + 16 <= |s| && to + 16 <= |s|
    requires r >= 1 && |b| == 32 * r && i < |ys| <= 2 * r && Ready(core, b, r, ys, i, s, from)
    requires a[..] == s && tmp[..] == Prev(b, r, ys, i)
    modifies tmp, a
    ensures tmp[..] == ys[i] && a[..] == Splice(s, to, ys[i])
  {
    ArraySlice(a, from, from + 16);
    SalsaXor(core, tmp, a, from, to);
  }

  /** The half-iteration that produces ys[i], i even. */
  method MixEven(core: Core, tmp: array<Word>, a: array<Word>, from: nat, to: nat, r: nat, i: nat,
                  ghost n: nat, ghost s: seq<Word>, ghost b: seq<Word>, ghost ys: seq<Block>)
    requires tmp != a && tmp.Length == 16 && a.Length == |s| && i == 2 * n && n < r && |ys| == 2 * r
    requires from + 32 * r <= |s| && to + 32 * r <= |s| && (from + 32 * r <= to || to + 32 * r <= from)
    requires b == s[from..from + 32 * r] && tmp[..] == Prev(b, r, ys, i)
    requires Follows(core, b, r, ys, i) && Follows(core, b, r, ys, i + 1)
    requires a[..] == Scattered(s, to, r, ys, n)
    modifies tmp, a
    ensures tmp[..] == ys[i]
    ensures a[..] == Splice(Scattered(s, to, r, ys, n), to + i * 8, ys[i])
  {
    PairReads(core, s, b, from, to, r, ys, i, n);
    MixBlock(core, tmp, a, from + i * 16, to + i * 8, r, i, Scattered(s, to, r, ys, n), b, ys);
  }

  /** The half-iteration that produces ys[i+1]. */
  method MixOdd(core: Core, tmp: array<Word>, a: array<Word>, from: nat, to: nat, r: nat, i: nat,
                  ghost n: nat, ghost s: seq<Word>, ghost b: seq<Word>, ghost ys: seq<Block>)
    requires tmp != a && tmp.Length == 16 && a.Length == |s| && i == 2 * n && n < r && |ys| == 2 * r
    requires from + 32 * r <= |s| && to + 32 * r <= |s| && (from + 32 * r <= to || to + 32 * r <= from)
    requires b == s[from..from + 32 * r] && tmp[..] == ys[i]
    requires Follows(core, b, r, ys, i) && Follows(core, b, r, ys, i + 1)
    requires a[..] == Splice(Scattered(s, to, r, ys, n), to + i * 8, ys[i])
    modifies tmp, a
    ensures tmp[..] == ys[i + 1]
    ensures a[..] == Scattered(s, to, r, ys, n + 1)
  {
    PairReads(core, s, b, from, to, r, ys, i, n);
    PairWrites(s, to, r, ys, i, n);
    MixBlock(core, tmp, a, from + i * 16 + 16, to + i * 8 + r * 16, r, i + 1,
             Splice(Scattered(s, to, r, ys, n), to + i * 8, ys[i]), b, ys);
  }

  method LoadLast(tmp: array<Word>, a: array<Word>, from: nat, r: nat)
    requires r >= 1 && tmp != a && tmp.Length == 16 && from + 32 * r <= a.Length
    modifies tmp
    ensures tmp[..] == a[from..from + 32 * r][32 * r - 16..]
  {
    CopyWords(tmp, 0, a, from + (2 * r - 1) * 16, 16);
    assert tmp[..] == a[from + 32 * r - 16..from + 32 * r];
  }

  lemma ScatterDone(core: Core, s: seq<Word>, b: seq<Word>, to: nat, r: nat)
    requires r >= 1 && |b| == 32 * r && to + 32 * r <= |s|
    ensures Scattered(s, to, r, Chain(core, b, r, 2 * r), r) == Splice(s, to, ScryptBlockMix(core, b, r))
  {
    var ys := Chain(core, b, r, 2 * r);
    Append(s, to, EveryOther(ys, 0, r), EveryOther(ys, 1, r));
  }

  /** One pass over the 2r blocks at `from`, scattering even results to the first
      and odd results to the second half of `to`. */
  method BlockMix(core: Core, tmp: array<Word>, a: array<Word>, from: nat, to: nat, r: nat)
    requires r >= 1 && tmp != a && tmp.Length == 16
    requires from + 32 * r <= a.Length && to + 32 * r <= a.Length
    requires from + 32 * r <= to || to + 32 * r <= from
    modifies tmp, a
    ensures a[..] == Splice(old(a[..]), to, ScryptBlockMix(core, old(a[from..from + 32 * r]), r))
  {
    ghost var s, b := a[..], a[from..from + 32 * r];
    ghost var ys := Chain(core, b, r, 2 * r);
    LoadLast(tmp, a, from, r);
    ArraySlice(a, from, from + 32 * r);
    ChainLinked(core, b, r, 2 * r);
    MixPairs(core, tmp, a, from, to, r, s, b, ys);
    ScatterDone(core, s, b, to, r);
  }

  method MixPairs(core: Core, tmp: array<Word>, a: array<Word>, from: nat, to: nat, r: nat,
                  ghost s: seq<Word>, ghost b: seq<Word>, ghost ys: seq<Block>)
    requires r >= 1 && tmp != a && tmp.Length == 16 && a.Length == |s| && |ys| == 2 * r
    requires from + 32 * r <= |s| && to + 32 * r <= |s| && (from + 32 * r <= to || to + 32 * r <= from)
    requires a[..] == s && b == s[from..from + 32 * r] && tmp[..] == b[32 * r - 16..] && Linked(core, b, r, ys)
    modifies tmp, a
    ensures a[..] == Scattered(s, to, r, ys, r)
  {
    ghost var n := 0;
    var i := 0;
    while i < 2 * r
      invariant 0 <= n <= r && i == 2 * n
      invariant tmp[..] == Prev(b, r, ys, i)
      invariant a[..] == Scattered(s, to, r, ys, n)
    {
      assert Follows(core, b, r, ys, i) && Follows(core, b, r, ys, i + 1);
      MixEven(core, tmp, a, from, to, r, i, n, s, b, ys);
      MixOdd(core, tmp, a, from, to, r, i, n, s, b, ys);
      i, n := i + 2, n + 1;
    }
  }
}
