/** smix of crypto/scrypt.go: scryptROMix over two swapping halves of one buffer and
    one big table, whatever either held before. */
module Smix {
  import opened Bits
  import opened ScryptSpec
  import opened Splices
  import opened BlockMixing

  /** Reads back a segment of an array known to have just been written. */
  lemma ReadBack<T>(a: array<T>, s: seq<T>, at: nat, x: seq<T>)
    requires |s| == a.Length && at + |x| <= a.Length && a[..] == Splice(s, at, x)
    ensures a[at..at + |x|] == x
  {
    ReadWritten(s, at, x);
    ArraySlice(a, at, at + |x|);
  }

  /** The two halves of the xy buffer, in either order. */
  ghost predicate Halves(xy: array<Word>, r: nat, from: nat, to: nat) {
    r >= 1 && xy.Length >= 64 * r && ((from == 0 && to == 32 * r) || (from == 32 * r && to == 0))
  }

  /** BlockMix between the two halves of the xy buffer. */
  method Advance(core: Core, tmp: array<Word>, xy: array<Word>, from: nat, to: nat, r: nat, ghost x: seq<Word>)
    requires Halves(xy, r, from, to) && tmp.Length == 16 && tmp != xy
    requires |x| == 32 * r && xy[from..from + 32 * r] == x
    modifies tmp, xy
    ensures xy[to..to + 32 * r] == ScryptBlockMix(core, x, r)
  {
    ghost var s := xy[..];
    BlockMix(core, tmp, xy, from, to, r);
    ReadBack(xy, s, to, ScryptBlockMix(core, x, r));
  }

  /** blockCopy of X into slot i of the table. */
  method StoreSlot(xy: array<Word>, v: array<Word>, from: nat, r: nat, i: nat, ghost xs: seq<seq<Word>>)
    requires xy != v && from + 32 * r <= xy.Length && i < |xs| && Sized(xs, 32 * r)
    requires xy[from..from + 32 * r] == xs[i]
    requires |Flatten(xs, i + 1)| <= v.Length
    requires v[..|Flatten(xs, i)|] == Flatten(xs, i)
    modifies v
    ensures v[..|Flatten(xs, i + 1)|] == Flatten(xs, i + 1)
  {
    ghost var s, t := v[..], Flatten(xs, i);
    FlattenLength(xs, 32 * r, i);
    CopyWords(v, i * (32 * r), xy, from, 32 * r);
    assert s[..|t|] == t;
    TableGrows(s, v[..], t, xs[i]);
    assert v[..|t| + 32 * r] == v[..][..|t| + 32 * r];
  }

  /** blockXOR of slot j of the table into X. */
  method XorSlot(core: Core, xy: array<Word>, v: array<Word>, from: nat, r: nat, N: nat, j: nat,
                 ghost x: seq<Word>, ghost xs: seq<seq<Word>>)
    requires xy != v && from + 32 * r <= xy.Length && j < N <= |xs| && Sized(xs, 32 * r)
    requires xy[from..from + 32 * r] == x
    requires |Flatten(xs, N)| <= v.Length && v[..|Flatten(xs, N)|] == Flatten(xs, N)
    modifies xy
    ensures xy[from..from + 32 * r] == Zip(core.xor, x, xs[j])
  {
    ghost var s, t, lo := xy[..], Flatten(xs, N), |Flatten(xs, j)|;
    FlattenAt(xs, N, j);
    FlattenLength(xs, 32 * r, j);
    PrefixSlice(v, |t|, lo, lo + 32 * r);
    BlockXor(core, xy, from, v, j * (32 * r), 32 * r);
    ReadBack(xy, s, from, Zip(core.xor, x, xs[j]));
  }

  /** The array holds x from index `at` on. */
  ghost predicate Holds<T(!new)>(a: array<T>, at: nat, x: seq<T>)
    reads a
  {
    at + |x| <= a.Length && a[at..at + |x|] == x
  }

  // ---- selecting a slot ----

  lemma Pow2Values()
    ensures Pow2(32) == 0x1_0000_0000 && Pow2(64) == 0x1_0000_0000_0000_0000
  {
    assert Pow2(4) == 16;
    Pow2Split(4, 4);
    Pow2Split(8, 8);
    Pow2Split(16, 16);
    Pow2Split(32, 32);
  }

  function Low64(low: Word, high: Word): (n: nat)
    ensures n == low as int + 0x1_0000_0000 * high as int
  {
    low as int + 0x1_0000_0000 * high as int
  }

  lemma DividesWord(N: nat) returns (k: nat, m: nat)
    requires IsPow2(N) && N <= 0x1_0000_0000_0000_0000
    ensures N == Pow2(k) && N * m == 0x1_0000_0000_0000_0000
  {
    k :| N == Pow2(k);
    Pow2Values();
    if k > 64 { Pow2Monotone(65, k); }
    m := Pow2(64 - k);
    Pow2Split(k, 64 - k);
  }

  /** The low 64 bits decide the residue modulo any power of two up to 2^64. */
  lemma LowWordsDecide(ws: seq<Word>, N: nat)
    requires |ws| >= 2 && IsPow2(N) && N <= 0x1_0000_0000_0000_0000
    ensures BitAnd(Low64(ws[0], ws[1]), N - 1) == LittleEndian(ws) % N
  {
    var low := Low64(ws[0], ws[1]);
    var k, m := DividesWord(N);
    MaskIsMod(low, k);
    SplitLittleEndian(ws);
    MultipleVanishes(low, N, m, 0x1_0000_0000_0000_0000, LittleEndian(ws[2..]));
  }

  lemma SplitLittleEndian(ws: seq<Word>)
    requires |ws| >= 2
    ensures LittleEndian(ws) == Low64(ws[0], ws[1]) + 0x1_0000_0000_0000_0000 * LittleEndian(ws[2..])
  {
    assert ws[1..][1..] == ws[2..];
  }

  lemma MultipleVanishes(low: nat, N: nat, m: nat, M: nat, high: nat)
    requires N > 0 && M == N * m
    ensures (low + M * high) % N == low % N
  {
    var q := low / N + m * high;
    assert M * high == (m * high) * N;
    assert low + M * high == q * N + low % N;
    ModUnique(low + M * high, N, q, low % N);
  }

  /** The first 64 bits of the last block of X, as the code reads them. */
  function Integer(a: array<Word>, from: nat, r: nat): nat
    requires r >= 1 && from + 32 * r <= a.Length
    reads a
  {
    var j := from + (2 * r - 1) * 16;
    Low64(a[j], a[j + 1])
  }

  lemma PickSlot(a: array<Word>, from: nat, r: nat, N: nat, x: seq<Word>)
    requires r >= 1 && from + 32 * r <= a.Length && x == a[from..from + 32 * r]
    requires IsPow2(N) && N <= 0x1_0000_0000_0000_0000
    ensures BitAnd(Integer(a, from, r), N - 1) == Integerify(x, r) % N
  {
    var ws := x[32 * r - 16..];
    assert ws[0] == a[from + (2 * r - 1) * 16] && ws[1] == a[from + (2 * r - 1) * 16 + 1];
    LowWordsDecide(ws, N);
  }

  // ---- the two loops of smix ----

  ghost predicate Iterated(core: Core, r: nat, xs: seq<seq<Word>>, i: nat)
    requires r >= 1 && i + 1 < |xs| && Sized(xs, 32 * r)
  {
    xs[i + 1] == ScryptBlockMix(core, xs[i], r)
  }

  ghost predicate Remixed(core: Core, r: nat, N: nat, xs: seq<seq<Word>>, zs: seq<seq<Word>>, i: nat)
    requires r >= 1 && N >= 1 && |xs| >= N && i + 1 < |zs| && Sized(xs, 32 * r) && Sized(zs, 32 * r)
  {
    zs[i + 1] == ScryptBlockMix(core, Zip(core.xor, zs[i], xs[Integerify(zs[i], r) % N]), r)
  }

  ghost predicate FillRun(core: Core, r: nat, N: nat, xs: seq<seq<Word>>) {
    && r >= 1 && |xs| == N + 1 && Sized(xs, 32 * r)
    && forall i: nat :: i < N ==> Iterated(core, r, xs, i)
  }

  ghost predicate MixRun(core: Core, r: nat, N: nat, xs: seq<seq<Word>>, zs: seq<seq<Word>>) {
    && r >= 1 && 1 <= N < |xs| && |zs| == N + 1 && Sized(xs, 32 * r) && Sized(zs, 32 * r)
    && forall i: nat :: i < N ==> Remixed(core, r, N, xs, zs, i)
  }

  method FillStep(core: Core, tmp: array<Word>, xy: array<Word>, v: array<Word>, from: nat, to: nat,
                  r: nat, i: nat, ghost N: nat, ghost xs: seq<seq<Word>>)
    requires Halves(xy, r, from, to) && tmp.Length == 16 && tmp != xy && tmp != v && xy != v
    requires i < N && FillRun(core, r, N, xs) && |Flatten(xs, N)| <= v.Length
    requires Holds(xy, from, xs[i])
    requires Holds(v, 0, Flatten(xs, i))
    modifies tmp, xy, v
    ensures Holds(xy, to, xs[i + 1])
    ensures Holds(v, 0, Flatten(xs, i + 1))
  {
    assert Iterated(core, r, xs, i);
    FlattenAt(xs, N, i);
    StoreSlot(xy, v, from, r, i, xs);
    Advance(core, tmp, xy, from, to, r, xs[i]);
  }

  method Fill(core: Core, tmp: array<Word>, xy: array<Word>, v: array<Word>, r: nat, N: nat, ghost xs: seq<seq<Word>>)
    requires Halves(xy, r, 0, 32 * r) && tmp.Length == 16 && tmp != xy && tmp != v && xy != v
    requires N % 2 == 0 && FillRun(core, r, N, xs) && |Flatten(xs, N)| <= v.Length
    requires Holds(xy, 0, xs[0])
    modifies tmp, xy, v
    ensures Holds(xy, 0, xs[N])
    ensures Holds(v, 0, Flatten(xs, N))
  {
    var i := 0;
    while i < N
      invariant 0 <= i <= N && i % 2 == 0
      invariant Holds(xy, 0, xs[i])
      invariant Holds(v, 0, Flatten(xs, i))
    {
      FillStep(core, tmp, xy, v, 0, 32 * r, r, i, N, xs);
      FillStep(core, tmp, xy, v, 32 * r, 0, r, i + 1, N, xs);
      assert Holds(xy, 0, xs[i + 2]) && Holds(v, 0, Flatten(xs, i + 2));
      i := i + 2;
    }
  }

  method MixStep(core: Core, tmp: array<Word>, xy: array<Word>, v: array<Word>, from: nat, to: nat,
                 r: nat, N: nat, ghost i: nat, ghost xs: seq<seq<Word>>, ghost zs: seq<seq<Word>>)
    requires Halves(xy, r, from, to) && tmp.Length == 16 && tmp != xy && tmp != v && xy != v
    requires IsPow2(N) && N <= 0x1_0000_0000_0000_0000 && i < N && MixRun(core, r, N, xs, zs)
    requires Holds(xy, from, zs[i])
    requires Holds(v, 0, Flatten(xs, N))
    modifies tmp, xy
    ensures Holds(xy, to, zs[i + 1])
  {
    assert Remixed(core, r, N, xs, zs, i);
    var j := BitAnd(Integer(xy, from, r), N - 1);
    PickSlot(xy, from, r, N, zs[i]);
    XorSlot(core, xy, v, from, r, N, j, zs[i], xs);
    Advance(core, tmp, xy, from, to, r, Zip(core.xor, zs[i], xs[j]));
  }

  method Mix(core: Core, tmp: array<Word>, xy: array<Word>, v: array<Word>, r: nat, N: nat,
             ghost xs: seq<seq<Word>>, ghost zs: seq<seq<Word>>)
    requires Halves(xy, r, 0, 32 * r) && tmp.Length == 16 && tmp != xy && tmp != v && xy != v
    requires N % 2 == 0 && IsPow2(N) && N <= 0x1_0000_0000_0000_0000 && MixRun(core, r, N, xs, zs)
    requires Holds(xy, 0, zs[0])
    requires Holds(v, 0, Flatten(xs, N))
    modifies tmp, xy
    ensures Holds(xy, 0, zs[N])
  {
    var i := 0;
    while i < N
      invariant 0 <= i <= N && i % 2 == 0
      invariant Holds(xy, 0, zs[i])
    {
      MixStep(core, tmp, xy, v, 0, 32 * r, r, N, i, xs, zs);
      MixStep(core, tmp, xy, v, 32 * r, 0, r, N, i + 1, xs, zs);
      assert Holds(xy, 0, zs[i + 2]);
      i := i + 2;
    }
  }

  // ---- octets in, octets out ----

  lemma DecodeNext(b: seq<Byte>, i: nat)
    requires |b| % 4 == 0 && 4 * i + 4 <= |b|
    ensures DecodeWords(b[..4 * i + 4]) ==
              DecodeWords(b[..4 * i]) + [DecodeWord(b[4 * i], b[4 * i + 1], b[4 * i + 2], b[4 * i + 3])]
  {
  }

  lemma EncodeNext(w: seq<Word>, u: Word)
    ensures EncodeWords(w + [u]) == EncodeWords(w) + [WordByte(u, 0), WordByte(u, 1), WordByte(u, 2), WordByte(u, 3)]
  {
    var l, r := EncodeWords(w + [u]), EncodeWords(w) + [WordByte(u, 0), WordByte(u, 1), WordByte(u, 2), WordByte(u, 3)];
    forall k | 0 <= k < |l| ensures l[k] == r[k] {
      if k >= 4 * |w| { assert k == 4 * |w| + k % 4; }
    }
  }

  method Load(xy: array<Word>, b: array<Byte>, at: nat, n: nat)
    requires n <= xy.Length && at + 4 * n <= b.Length
    modifies xy
    ensures Holds(xy, 0, DecodeWords(b[at..at + 4 * n]))
  {
    var j := at;
    for i := 0 to n
      invariant j == at + 4 * i
      invariant xy[..i] == DecodeWords(b[at..at + 4 * n][..4 * i])
    {
      ghost var s := b[at..at + 4 * n];
      DecodeNext(s, i);
      xy[i] := DecodeWord(b[j], b[j + 1], b[j + 2], b[j + 3]);
      assert xy[..i + 1] == xy[..i] + [xy[i]];
      j := j + 4;
    }
    assert b[at..at + 4 * n][..4 * n] == b[at..at + 4 * n];
    assert xy[0..n] == xy[..n];
  }

  method PutWord(b: array<Byte>, j: nat, w: Word)
    requires j + 4 <= b.Length
    modifies b
    ensures b[..] == Splice(old(b[..]), j, [WordByte(w, 0), WordByte(w, 1), WordByte(w, 2), WordByte(w, 3)])
  {
    b[j], b[j + 1], b[j + 2], b[j + 3] := WordByte(w, 0), WordByte(w, 1), WordByte(w, 2), WordByte(w, 3);
  }

  method Save(b: array<Byte>, at: nat, xy: array<Word>, n: nat)
    requires n <= xy.Length && at + 4 * n <= b.Length
    modifies b
    ensures b[..] == Splice(old(b[..]), at, EncodeWords(xy[..n]))
  {
    ghost var s := b[..];
    var j := at;
    for i := 0 to n
      invariant j == at + 4 * i
      invariant b[..] == Splice(s, at, EncodeWords(xy[..i]))
    {
      EncodeNext(xy[..i], xy[i]);
      assert xy[..i + 1] == xy[..i] + [xy[i]];
      Append(s, at, EncodeWords(xy[..i]),
          [WordByte(xy[i], 0), WordByte(xy[i], 1), WordByte(xy[i], 2), WordByte(xy[i], 3)]);
      PutWord(b, j, xy[i]);
      j := j + 4;
    }
  }

  // ---- the whole ----

  ghost function Iterates(core: Core, b: seq<Word>, r: nat, n: nat): (xs: seq<seq<Word>>)
    requires r >= 1 && |b| == 32 * r
    ensures |xs| == n + 1 && Sized(xs, 32 * r)
  {
    seq(n + 1, i requires 0 <= i <= n => Iterate(core, b, r, i))
  }

  ghost function Mixeds(core: Core, b: seq<Word>, r: nat, N: nat, n: nat): (zs: seq<seq<Word>>)
    requires r >= 1 && |b| == 32 * r && N >= 1
    ensures |zs| == n + 1 && Sized(zs, 32 * r)
  {
    seq(n + 1, i requires 0 <= i <= n => Mixed(core, b, r, N, i))
  }

  lemma RunsAreSpec(core: Core, b: seq<Word>, r: nat, N: nat)
    requires r >= 1 && |b| == 32 * r && N >= 1
    ensures FillRun(core, r, N, Iterates(core, b, r, N))
    ensures MixRun(core, r, N, Iterates(core, b, r, N), Mixeds(core, b, r, N, N))
  {
    var xs, zs := Iterates(core, b, r, N), Mixeds(core, b, r, N, N);
    forall i: nat | i < N ensures Iterated(core, r, xs, i) {}
    forall i: nat | i < N ensures Remixed(core, r, N, xs, zs, i) {
      assert xs[Integerify(zs[i], r) % N] == Iterate(core, b, r, Integerify(zs[i], r) % N);
    }
  }

  /** Segment b[at..at+128r] becomes its scryptROMix; xy and v are scratch. */
  method SMix(core: Core, b: array<Byte>, at: nat, r: nat, N: nat, v: array<Word>, xy: array<Word>)
    requires r >= 1 && N >= 2 && IsPow2(N) && N <= 0x1_0000_0000_0000_0000
    requires xy.Length >= 64 * r && v.Length >= N * (32 * r) && xy != v && at + 128 * r <= b.Length
    modifies b, v, xy
    ensures b[..] == Splice(old(b[..]), at, EncodeWords(ScryptROMix(core, DecodeWords(old(b[at..at + 128 * r])), r, N)))
  {
    ghost var B := DecodeWords(b[at..at + 128 * r]);
    ghost var xs, zs := Iterates(core, B, r, N), Mixeds(core, B, r, N, N);
    var tmp := new Word[16];
    Load(xy, b, at, 32 * r);
    RunsAreSpec(core, B, r, N);
    FlattenLength(xs, 32 * r, N);
    EvenPower(N);
    assert xs[0] == B && zs[0] == xs[N];
    Fill(core, tmp, xy, v, r, N, xs);
    Mix(core, tmp, xy, v, r, N, xs, zs);
    assert xy[..32 * r] == xy[0..32 * r] == ScryptROMix(core, B, r, N);
    Save(b, at, xy, 32 * r);
  }

  lemma EvenPower(N: nat)
    requires N >= 2 && IsPow2(N)
    ensures N % 2 == 0
  {
    var k: nat :| N == Pow2(k);
    assert k > 0;
  }
}
