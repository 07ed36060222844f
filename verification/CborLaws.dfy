/** What the two entry points promise: the prefix decoder looks at nothing past the item it
    returns, the strict decoder accepts exactly the encodings, and no result outweighs its input. */
module CborLaws {
  import opened Octets
  import opened CborSpec
  import opened CborProofs

  /** cborDecodePrefix. */
  function DecodePrefix(b: seq<Byte>): (r: Result<Item>) {
    Decode(b, 0, 0)
  }

  /** cborDecode. */
  function DecodeStrict(b: seq<Byte>): (r: Result<Item>) {
    var r := Decode(b, 0, 0);
    if r.Ok? && r.next != |b| then Err(Trailing) else r
  }

  /** b is, from its first byte to its last, an encoding of v within the limits. */
  ghost predicate Encodes(b: seq<Byte>, v: Item) {
    exists e :: EncodedBy(e, b, v)
  }

  ghost predicate EncodedBy(e: Enc, b: seq<Byte>, v: Item) {
    Encodable(e, 0) && Bytes(e) == b && Value(e) == v
  }

  lemma PrefixReadsEncoding(b: seq<Byte>, v: Item, suffix: seq<Byte>)
    requires Encodes(b, v)
    ensures DecodePrefix(b + suffix) == Ok(v, |b|)
  {
    var e :| EncodedBy(e, b, v);
    assert (b + suffix)[0..|b|] == b;
    EncodingDecodes(b + suffix, 0, e, 0);
  }

  lemma PrefixIsEncoding(b: seq<Byte>)
    requires DecodePrefix(b).Ok?
    ensures var r := DecodePrefix(b); Encodes(b[..r.next], r.value)
  {
    var r := DecodePrefix(b);
    var e := DecodedIsEncoding(b, 0, 0);
    assert b[0..r.next] == b[..r.next];
    assert EncodedBy(e, b[..r.next], r.value);
  }

  /** Decoding by prefix succeeds exactly when the input starts with an encoding. */
  lemma PrefixExactly(b: seq<Byte>, v: Item, n: nat)
    ensures DecodePrefix(b) == Ok(v, n) <==> n <= |b| && Encodes(b[..n], v)
  {
    if DecodePrefix(b) == Ok(v, n) {
      PrefixIsEncoding(b);
    }
    if n <= |b| && Encodes(b[..n], v) {
      PrefixReadsEncoding(b[..n], v, b[n..]);
      assert b[..n] + b[n..] == b;
    }
  }

  /** The strict decoder accepts exactly the encodings. */
  lemma StrictExactly(b: seq<Byte>, v: Item)
    ensures DecodeStrict(b) == Ok(v, |b|) <==> Encodes(b, v)
    ensures DecodeStrict(b).Ok? ==> DecodeStrict(b).next == |b|
  {
    PrefixExactly(b, v, |b|);
    assert b[..|b|] == b;
  }

  /** The prefix decoder's answer depends on nothing after the bytes it consumed, and those
      bytes satisfy the strict decoder. */
  lemma PrefixLocality(b: seq<Byte>, suffix: seq<Byte>)
    requires DecodePrefix(b).Ok?
    ensures var r := DecodePrefix(b);
            DecodePrefix(b[..r.next] + suffix) == r && DecodeStrict(b[..r.next]) == r
  {
    var r := DecodePrefix(b);
    PrefixIsEncoding(b);
    PrefixReadsEncoding(b[..r.next], r.value, suffix);
    StrictExactly(b[..r.next], r.value);
  }

  /** No encoding is a proper prefix of another, so a stream of items splits one way only. */
  lemma EncodingsArePrefixFree(a: seq<Byte>, v: Item, b: seq<Byte>, w: Item)
    requires Encodes(a, v) && Encodes(b, w) && a <= b
    ensures a == b && v == w
  {
    PrefixReadsEncoding(a, v, b[|a|..]);
    PrefixReadsEncoding(b, w, []);
    assert a + b[|a|..] == b && b + [] == b;
  }

  // ---- size ----

  /** The nodes of an item together with the bytes of its strings. */
  function Weight(v: Item): (w: nat)
    decreases v, 0
  {
    match v
    case CBytes(b) => 1 + |b|
    case CText(s) => 1 + |s|
    case CArray(vs) => 1 + WeightOfAll(vs)
    case CMap(entries) => 1 + WeightOfEntries(entries)
    case _ => 1
  }

  function WeightOfAll(vs: seq<Item>): nat
    decreases vs, 1
  {
    if vs == [] then 0 else Weight(vs[0]) + WeightOfAll(vs[1..])
  }

  function WeightOfKey(k: Key): nat {
    match k case IntKey(_) => 1 case TextKey(s) => 1 + |s|
  }

  function WeightOfEntry(entry: (Key, Item)): nat
    decreases entry, 1
  {
    WeightOfKey(entry.0) + Weight(entry.1)
  }

  function WeightOfEntries(entries: seq<(Key, Item)>): nat
    decreases entries, 2
  {
    if entries == [] then 0 else WeightOfEntry(entries[0]) + WeightOfEntries(entries[1..])
  }

  lemma {:induction false} PairsWeigh(vs: seq<Item>)
    requires |vs| % 2 == 0 && GoodKeys(vs)
    ensures WeightOfEntries(Pairs(vs)) <= WeightOfAll(vs)
  {
    if |vs| >= 2 {
      PairsWeigh(vs[2..]);
      assert vs[1..][1..] == vs[2..] && vs[1..][0] == vs[1];
      assert Pairs(vs)[1..] == Pairs(vs[2..]);
    }
  }

  lemma {:induction false} ValueWeighs(e: Enc, depth: nat)
    requires Encodable(e, depth)
    ensures Weight(Value(e)) <= |Bytes(e)|
    decreases e, 1
  {
    match e
    case EArray(_, es) => AllWeigh(es, depth + 1);
    case EMap(_, kvs) => AllWeigh(kvs, depth + 1); PairsWeigh(Values(kvs));
    case ETag(_, _, f) => ValueWeighs(f, depth + 1);
    case _ =>
  }

  lemma {:induction false} AllWeigh(es: seq<Enc>, depth: nat)
    requires AllEncodable(es, depth)
    ensures WeightOfAll(Values(es)) <= |AllBytes(es)|
    decreases es, 2
  {
    if es != [] {
      ValueWeighs(es[0], depth);
      AllWeigh(es[1..], depth);
      assert Values(es)[1..] == Values(es[1..]);
    }
  }

  /** A decoded item has no more nodes and string bytes than the bytes consumed for it. */
  lemma DecodedWeighs(b: seq<Byte>)
    requires DecodePrefix(b).Ok?
    ensures var r := DecodePrefix(b); Weight(r.value) <= r.next <= |b|
  {
    var e := DecodedIsEncoding(b, 0, 0);
    ValueWeighs(e, 0);
  }
}
