/** Reference definitions: scryptBlockMix, scryptROMix and scrypt (sections 4, 5
    and 6 of RFC 7914) and PBKDF2 (section 5.2 of RFC 2898), for an arbitrary
    16-word core permutation and an arbitrary pseudorandom function. */
module ScryptSpec {
  import opened Bits
  import opened Splices

  type Word = w: nat | w < 0x1_0000_0000
  type Byte = b: nat | b < 0x100
  type Block = b: seq<Word> | |b| == 16 witness seq(16, _ => 0)

  /** The two word-level operations: one chaining step (the block core applied to the
      exclusive-or of its arguments) and exclusive-or itself. */
  datatype Core = Core(chain: (Block, Block) -> Block, xor: (Word, Word) -> Word)

  /** The instance built from a 16-word permutation such as Salsa20/8. */
  function CoreOf(salsa: Block -> Block, xor: (Word, Word) -> Word): Core {
    Core((x: Block, b: Block) => salsa(Zip(xor, x, b)), xor)
  }

  /** HMAC keyed by the password, its output size, and exclusive-or on octets. */
  datatype Prf = Prf(size: nat, mac: seq<Byte> -> seq<Byte>, xor: (Byte, Byte) -> Byte)

  ghost predicate ValidPrf(f: Prf) {
    f.size > 0 && forall m :: |f.mac(m)| == f.size
  }

  function Zip<T>(f: (T, T) -> T, a: seq<T>, b: seq<T>): (x: seq<T>)
    requires |a| == |b|
    ensures |x| == |a| && forall i :: 0 <= i < |a| ==> x[i] == f(a[i], b[i])
  {
    seq(|a|, i requires 0 <= i < |a| => f(a[i], b[i]))
  }

  function Step(core: Core, x: seq<Word>, b: seq<Word>): Block
    requires |x| == |b| == 16
  {
    core.chain(x, b)
  }

  // ---- section 4: scryptBlockMix ----

  /** Y[0..n): the chaining values, starting from the last input block. */
  ghost function Chain(core: Core, b: seq<Word>, r: nat, n: nat): (ys: seq<Block>)
    requires r >= 1 && |b| == 32 * r && n <= 2 * r
    ensures |ys| == n
  {
    if n == 0 then []
    else
      var ys := Chain(core, b, r, n - 1);
      var x: Block := if n == 1 then b[32 * r - 16..] else ys[n - 2];
      ys + [Step(core, x, b[16 * (n - 1)..16 * n])]
  }

  /** ys[first], ys[first+2], ..., n blocks in all. */
  ghost function EveryOther(ys: seq<Block>, first: nat, n: nat): (s: seq<Word>)
    requires first + 2 * n <= |ys| + 1
    ensures |s| == 16 * n
  {
    if n == 0 then [] else EveryOther(ys, first, n - 1) + ys[first + 2 * (n - 1)]
  }

  ghost function ScryptBlockMix(core: Core, b: seq<Word>, r: nat): (s: seq<Word>)
    requires r >= 1 && |b| == 32 * r
    ensures |s| == 32 * r
  {
    var ys := Chain(core, b, r, 2 * r);
    EveryOther(ys, 0, r) + EveryOther(ys, 1, r)
  }

  // ---- section 5: scryptROMix ----

  /** The little-endian integer held in a sequence of words. */
  ghost function LittleEndian(ws: seq<Word>): nat {
    if ws == [] then 0 else ws[0] + 0x1_0000_0000 * LittleEndian(ws[1..])
  }

  ghost function Integerify(x: seq<Word>, r: nat): nat
    requires r >= 1 && |x| == 32 * r
  {
    LittleEndian(x[32 * r - 16..])
  }

  /** V[i]: block mix applied i times. */
  ghost function Iterate(core: Core, b: seq<Word>, r: nat, i: nat): (s: seq<Word>)
    requires r >= 1 && |b| == 32 * r
    ensures |s| == 32 * r
  {
    if i == 0 then b else ScryptBlockMix(core, Iterate(core, b, r, i - 1), r)
  }

  /** X after i rounds of the second loop of scryptROMix. */
  ghost function Mixed(core: Core, b: seq<Word>, r: nat, N: nat, i: nat): (s: seq<Word>)
    requires r >= 1 && |b| == 32 * r && N >= 1
    ensures |s| == 32 * r
  {
    if i == 0 then Iterate(core, b, r, N)
    else
      var x := Mixed(core, b, r, N, i - 1);
      ScryptBlockMix(core, Zip(core.xor, x, Iterate(core, b, r, Integerify(x, r) % N)), r)
  }

  ghost function ScryptROMix(core: Core, b: seq<Word>, r: nat, N: nat): (s: seq<Word>)
    requires r >= 1 && |b| == 32 * r && N >= 1
    ensures |s| == 32 * r
  {
    Mixed(core, b, r, N, N)
  }

  // ---- octets and words ----

  function DecodeWord(b0: Byte, b1: Byte, b2: Byte, b3: Byte): Word {
    b0 + 0x100 * b1 + 0x1_0000 * b2 + 0x100_0000 * b3
  }

  function WordByte(w: Word, k: nat): Byte
    requires k < 4
  {
    if k == 0 then w % 0x100
    else if k == 1 then w / 0x100 % 0x100
    else if k == 2 then w / 0x100 / 0x100 % 0x100
    else w / 0x100 / 0x100 / 0x100 % 0x100
  }

  function DecodeWords(b: seq<Byte>): (w: seq<Word>)
    requires |b| % 4 == 0
    ensures |w| == |b| / 4
    ensures forall i :: 0 <= i < |w| ==> w[i] == DecodeWord(b[4 * i], b[4 * i + 1], b[4 * i + 2], b[4 * i + 3])
  {
    seq(|b| / 4, i requires 0 <= i < |b| / 4 => DecodeWord(b[4 * i], b[4 * i + 1], b[4 * i + 2], b[4 * i + 3]))
  }

  function EncodeWords(w: seq<Word>): (b: seq<Byte>)
    ensures |b| == 4 * |w|
    ensures forall i :: 0 <= i < |b| ==> b[i] == WordByte(w[i / 4], i % 4)
  {
    seq(4 * |w|, i requires 0 <= i < 4 * |w| => WordByte(w[i / 4], i % 4))
  }

  lemma EncodedAt(w: seq<Word>, i: nat, k: nat)
    requires i < |w| && k < 4
    ensures EncodeWords(w)[4 * i + k] == WordByte(w[i], k)
  {
    assert (4 * i + k) / 4 == i && (4 * i + k) % 4 == k;
  }

  lemma DecodedAt(w: seq<Word>, i: nat)
    requires i < |w|
    ensures DecodeWords(EncodeWords(w))[i] == w[i]
  {
    EncodedAt(w, i, 0);
    EncodedAt(w, i, 1);
    EncodedAt(w, i, 2);
    EncodedAt(w, i, 3);
    WordRoundTrip(w[i]);
  }

  /** The word view loses nothing: decoding inverts encoding. */
  lemma WordsRoundTrip(w: seq<Word>)
    ensures DecodeWords(EncodeWords(w)) == w
  {
    forall i | 0 <= i < |w| ensures DecodeWords(EncodeWords(w))[i] == w[i] {
      DecodedAt(w, i);
    }
  }

  lemma WordRoundTrip(w: Word)
    ensures DecodeWord(WordByte(w, 0), WordByte(w, 1), WordByte(w, 2), WordByte(w, 3)) == w
  {
    var a := w / 0x100;
    var b := a / 0x100;
    var c := b / 0x100;
    assert w == 0x100 * a + WordByte(w, 0) && a == 0x100 * b + WordByte(w, 1) && b == 0x100 * c + WordByte(w, 2);
    assert c < 0x100;
  }

  // ---- section 5.2 of RFC 2898 ----

  /** INT(i): the block index as four big-endian octets. */
  function BlockIndex(i: nat): (b: seq<Byte>)
    ensures |b| == 4
  {
    [i / 0x100_0000 % 0x100, i / 0x1_0000 % 0x100, i / 0x100 % 0x100, i % 0x100]
  }

  /** U_n for block i, n counted from 1. */
  ghost function Inner(f: Prf, salt: seq<Byte>, i: nat, n: nat): (u: seq<Byte>)
    requires n >= 1
  {
    if n == 1 then f.mac(salt + BlockIndex(i)) else f.mac(Inner(f, salt, i, n - 1))
  }

  /** T_i: the exclusive-or of U_1 .. U_c. */
  ghost function OuterBlock(f: Prf, salt: seq<Byte>, c: nat, i: nat): (t: seq<Byte>)
    requires c >= 1 && ValidPrf(f)
    ensures |t| == f.size
  {
    if c == 1 then Inner(f, salt, i, 1)
    else Zip(f.xor, OuterBlock(f, salt, c - 1, i), Inner(f, salt, i, c))
  }

  /** T_1 || ... || T_l. */
  ghost function OuterBlocks(f: Prf, salt: seq<Byte>, c: nat, l: nat): (t: seq<Byte>)
    requires c >= 1 && ValidPrf(f)
    ensures |t| == l * f.size
  {
    if l == 0 then [] else OuterBlocks(f, salt, c, l - 1) + OuterBlock(f, salt, c, l)
  }

  /** The least l with l * hLen >= dkLen. */
  function BlockCount(keyLen: nat, hLen: nat): (l: nat)
    requires hLen > 0
    ensures (l - 1) * hLen < keyLen <= l * hLen || (keyLen == 0 && l == 0)
  {
    var l := (keyLen + hLen - 1) / hLen;
    assert l * hLen <= keyLen + hLen - 1 < l * hLen + hLen;
    assert (l - 1) * hLen == l * hLen - hLen;
    l
  }

  ghost function Pbkdf2(f: Prf, salt: seq<Byte>, c: nat, keyLen: nat): (dk: seq<Byte>)
    requires c >= 1 && ValidPrf(f)
    ensures |dk| == keyLen
  {
    OuterBlocks(f, salt, c, BlockCount(keyLen, f.size))[..keyLen]
  }

  // ---- section 6: scrypt ----

  /** Segment i of b, mixed on its own. */
  ghost function MixSegment(core: Core, b: seq<Byte>, r: nat, N: nat, i: nat): (s: seq<Byte>)
    requires r >= 1 && N >= 1 && i * (128 * r) + 128 * r <= |b|
    ensures |s| == 128 * r
  {
    EncodeWords(ScryptROMix(core, DecodeWords(b[i * (128 * r)..i * (128 * r) + 128 * r]), r, N))
  }

  lemma SegmentFits(i: nat, n: nat, w: nat)
    requires i < n
    ensures i * w + w == (i + 1) * w <= n * w
  {
    MulMono(i + 1, n, w);
  }

  ghost function MixSegments(core: Core, b: seq<Byte>, r: nat, N: nat, p: nat): (xs: seq<seq<Byte>>)
    requires r >= 1 && N >= 1 && p * (128 * r) <= |b|
    ensures |xs| == p && Sized(xs, 128 * r)
  {
    seq(p, i requires 0 <= i < p => SegmentFits(i, p, 128 * r); MixSegment(core, b, r, N, i))
  }

  ghost function Scrypt(core: Core, f: Prf, salt: seq<Byte>, N: nat, r: nat, p: nat, keyLen: nat): (dk: seq<Byte>)
    requires r >= 1 && N >= 1 && p >= 1 && ValidPrf(f)
    ensures |dk| == keyLen
  {
    var b := Pbkdf2(f, salt, 1, p * (128 * r));
    Pbkdf2(f, Flatten(MixSegments(core, b, r, N, p), p), 1, keyLen)
  }
}
