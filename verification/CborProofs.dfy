/** Decoding inverts every encoding, and accepts nothing but encodings. */
module CborProofs {
  import opened Octets
  import opened CborSpec

  /** s stands in b from pos on. */
  predicate Stands(b: seq<Byte>, pos: nat, s: seq<Byte>) {
    pos + |s| <= |b| && b[pos..pos + |s|] == s
  }

  lemma StandsParts(b: seq<Byte>, pos: nat, s: seq<Byte>, t: seq<Byte>)
    requires Stands(b, pos, s + t)
    ensures Stands(b, pos, s) && Stands(b, pos + |s|, t)
  {
    var u := b[pos..pos + |s + t|];
    assert u[..|s|] == s && u[|s|..] == t;
    assert b[pos..pos + |s|] == u[..|s|] && b[pos + |s|..pos + |s| + |t|] == u[|s|..];
  }

  lemma HeadReadsBack(b: seq<Byte>, pos: nat, major: nat, info: Info, arg: nat)
    requires major < 8 && Fits(info, arg) && Stands(b, pos, Head(major, info, arg))
    ensures pos < |b| && b[pos] / 32 == major && b[pos] % 32 == info
    ensures Argument(b, pos + 1, info) == Ok(arg, pos + 1 + ExtraBytes(info))
  {
    var n := ExtraBytes(info);
    var tail := ToBytes(arg, n);
    StandsParts(b, pos, [32 * major + info], tail);
    assert b[pos] == b[pos..pos + 1][0];
    if info >= 24 {
      BytesRoundTrip(arg, n);
    }
  }

  lemma HeadThen(b: seq<Byte>, pos: nat, major: nat, info: Info, arg: nat, rest: seq<Byte>, depth: nat)
    requires major < 8 && Fits(info, arg) && Stands(b, pos, Head(major, info, arg) + rest) && depth < MAX_DEPTH
    ensures var p := pos + |Head(major, info, arg)|;
            Stands(b, p, rest) && Decode(b, pos, depth) == Payload(b, p, depth, major, info, arg)
  {
    StandsParts(b, pos, Head(major, info, arg), rest);
    HeadReadsBack(b, pos, major, info, arg);
  }

  lemma ScalarDecodes(b: seq<Byte>, pos: nat, e: Enc, depth: nat)
    requires !e.EArray? && !e.EMap? && !e.ETag? && Encodable(e, depth) && Stands(b, pos, Bytes(e))
    ensures Decode(b, pos, depth) == Ok(Value(e), pos + |Bytes(e)|)
  {
    match e
    case EInt(info, n) => assert Head(0, info, n) + [] == Bytes(e); HeadThen(b, pos, 0, info, n, [], depth);
    case ENeg(info, n) => assert Head(1, info, n) + [] == Bytes(e); HeadThen(b, pos, 1, info, n, [], depth);
    case EBytes(info, s) => HeadThen(b, pos, 2, info, |s|, s, depth);
    case EText(info, s) => HeadThen(b, pos, 3, info, |s|, s, depth);
    case EBool(v) => assert b[pos] == b[pos..pos + 1][0];
    case ENull => assert b[pos] == b[pos..pos + 1][0];
  }

  /** Every encoding within the limits decodes to its value and is consumed exactly,
      wherever it stands and whatever follows. */
  lemma {:induction false} EncodingDecodes(b: seq<Byte>, pos: nat, e: Enc, depth: nat)
    requires Encodable(e, depth) && Stands(b, pos, Bytes(e))
    ensures Decode(b, pos, depth) == Ok(Value(e), pos + |Bytes(e)|)
    decreases e, 2
  {
    match e
    case EArray(_, _) => ArrayDecodes(b, pos, e, depth);
    case EMap(_, _) => MapDecodes(b, pos, e, depth);
    case ETag(info, tag, f) =>
      HeadThen(b, pos, 6, info, tag, Bytes(f), depth);
      EncodingDecodes(b, pos + |Head(6, info, tag)|, f, depth + 1);
    case _ => ScalarDecodes(b, pos, e, depth);
  }

  lemma {:induction false} ArrayDecodes(b: seq<Byte>, pos: nat, e: Enc, depth: nat)
    requires e.EArray? && Encodable(e, depth) && Stands(b, pos, Bytes(e))
    ensures Decode(b, pos, depth) == Ok(Value(e), pos + |Bytes(e)|)
    decreases e, 0
  {
    HeadThen(b, pos, 4, e.info, |e.es|, AllBytes(e.es), depth);
    ItemsDecode(b, pos + |Head(4, e.info, |e.es|)|, e.es, depth + 1, []);
    assert [] + Values(e.es) == Values(e.es);
  }

  lemma {:induction false} MapDecodes(b: seq<Byte>, pos: nat, e: Enc, depth: nat)
    requires e.EMap? && Encodable(e, depth) && Stands(b, pos, Bytes(e))
    ensures Decode(b, pos, depth) == Ok(Value(e), pos + |Bytes(e)|)
    decreases e, 0
  {
    var n := |e.kvs| / 2;
    HeadThen(b, pos, 5, e.info, n, AllBytes(e.kvs), depth);
    assert [] + Pairs(Values(e.kvs)) == Pairs(Values(e.kvs));
    EntriesDecode(b, pos + |Head(5, e.info, n)|, e.kvs, depth + 1, n, []);
  }

  lemma NothingSeen<T>(rest: seq<T>)
    ensures [] + rest == rest
  {
  }

  lemma ItemStep(b: seq<Byte>, pos: nat, depth: nat, n: nat, seen: seq<Item>, v: Item, q: nat)
    requires n > 0 && pos <= q <= |b| && Decode(b, pos, depth) == Ok(v, q)
    ensures DecodeItems(b, pos, depth, n, seen) == DecodeItems(b, q, depth, n - 1, seen + [v])
  {
  }

  lemma FirstEncoding(es: seq<Enc>, depth: nat)
    requires es != [] && AllEncodable(es, depth)
    ensures AllBytes(es) == Bytes(es[0]) + AllBytes(es[1..]) && Values(es) == [Value(es[0])] + Values(es[1..])
    ensures Encodable(es[0], depth) && AllEncodable(es[1..], depth)
  {
  }

  lemma {:induction false} ItemsDecode(b: seq<Byte>, pos: nat, es: seq<Enc>, depth: nat, seen: seq<Item>)
    requires AllEncodable(es, depth) && Stands(b, pos, AllBytes(es))
    ensures DecodeItems(b, pos, depth, |es|, seen) == Ok(seen + Values(es), pos + |AllBytes(es)|)
    decreases es, 1
  {
    if es == [] {
      assert seen + Values(es) == seen;
    } else {
      var e, more, q := es[0], es[1..], pos + |Bytes(es[0])|;
      FirstEncoding(es, depth);
      StandsParts(b, pos, Bytes(e), AllBytes(more));
      EncodingDecodes(b, pos, e, depth);
      ItemStep(b, pos, depth, |es|, seen, Value(e), q);
      ItemsDecode(b, q, more, depth, seen + [Value(e)]);
      Regroup(seen, Value(e), Values(more));
    }
  }

  lemma {:induction false} EntriesDecode(b: seq<Byte>, pos: nat, kvs: seq<Enc>, depth: nat, n: nat,
      seen: seq<(Key, Item)>)
    requires |kvs| == 2 * n && AllEncodable(kvs, depth) && Stands(b, pos, AllBytes(kvs))
    requires GoodKeys(Values(kvs)) && DistinctKeys(seen + Pairs(Values(kvs)))
    ensures DecodeEntries(b, pos, depth, n, seen) == Ok(seen + Pairs(Values(kvs)), pos + |AllBytes(kvs)|)
    decreases kvs, 1
  {
    if n == 0 {
      assert seen + Pairs(Values(kvs)) == seen;
    } else {
      var q, entry := PairDecodes(b, pos, kvs, depth, n, seen);
      EntriesDecode(b, q, kvs[2..], depth, n - 1, seen + [entry]);
      Regroup(seen, entry, Pairs(Values(kvs[2..])));
    }
  }

  /** The first key and value decode, leaving the rest of the map to be decoded. */
  lemma {:induction false} PairDecodes(b: seq<Byte>, pos: nat, kvs: seq<Enc>, depth: nat, n: nat,
      seen: seq<(Key, Item)>)
      returns (q: nat, entry: (Key, Item))
    requires |kvs| >= 2 && n > 0 && AllEncodable(kvs, depth) && Stands(b, pos, AllBytes(kvs))
    requires GoodKeys(Values(kvs)) && DistinctKeys(seen + Pairs(Values(kvs)))
    ensures Pairs(Values(kvs)) == [entry] + Pairs(Values(kvs[2..])) && q + |AllBytes(kvs[2..])| == pos + |AllBytes(kvs)|
    ensures AllEncodable(kvs[2..], depth) && Stands(b, q, AllBytes(kvs[2..]))
    ensures GoodKeys(Values(kvs[2..])) && DistinctKeys(seen + [entry] + Pairs(Values(kvs[2..])))
    ensures DecodeEntries(b, pos, depth, n, seen) == DecodeEntries(b, q, depth, n - 1, seen + [entry])
    decreases kvs, 0
  {
    var k, v := kvs[0], kvs[1];
    entry := (KeyOf(Value(k)), Value(v));
    var p := pos + |Bytes(k)|;
    q := p + |Bytes(v)|;
    TwoEncodings(kvs, depth);
    TwoStand(b, pos, Bytes(k), Bytes(v), AllBytes(kvs[2..]));
    EncodingDecodes(b, pos, k, depth);
    EncodingDecodes(b, p, v, depth);
    TwoValues(kvs);
    FreshEntry(seen, entry, Pairs(Values(kvs[2..])));
    EntryStep(b, pos, depth, n, seen, Value(k), p, Value(v), q);
  }

  lemma TwoStand(b: seq<Byte>, pos: nat, s: seq<Byte>, t: seq<Byte>, u: seq<Byte>)
    requires Stands(b, pos, s + (t + u))
    ensures Stands(b, pos, s) && Stands(b, pos + |s|, t) && Stands(b, pos + |s| + |t|, u)
  {
    StandsParts(b, pos, s, t + u);
    StandsParts(b, pos + |s|, t, u);
  }

  lemma EntryStep(b: seq<Byte>, pos: nat, depth: nat, n: nat, seen: seq<(Key, Item)>, k: Item, p: nat, v: Item, q: nat)
    requires n > 0 && pos <= p <= q <= |b| && Decode(b, pos, depth) == Ok(k, p) && IsKey(k)
    requires Decode(b, p, depth) == Ok(v, q)
    requires !HasKey(seen, KeyOf(k))
    ensures DecodeEntries(b, pos, depth, n, seen) == DecodeEntries(b, q, depth, n - 1, seen + [(KeyOf(k), v)])
  {
  }

  lemma TwoEncodings(kvs: seq<Enc>, depth: nat)
    requires |kvs| >= 2 && AllEncodable(kvs, depth)
    ensures |AllBytes(kvs)| == |Bytes(kvs[0])| + |Bytes(kvs[1])| + |AllBytes(kvs[2..])|
    ensures AllBytes(kvs) == Bytes(kvs[0]) + (Bytes(kvs[1]) + AllBytes(kvs[2..]))
    ensures Encodable(kvs[0], depth) && Encodable(kvs[1], depth) && AllEncodable(kvs[2..], depth)
  {
    assert kvs[1..][1..] == kvs[2..] && kvs[1..][0] == kvs[1];
  }

  lemma TwoValues(kvs: seq<Enc>)
    requires |kvs| >= 2
    ensures Values(kvs) == [Value(kvs[0]), Value(kvs[1])] + Values(kvs[2..])
    ensures Pairs(Values(kvs)) == [(KeyOf(Value(kvs[0])), Value(kvs[1]))] + Pairs(Values(kvs[2..]))
    ensures GoodKeys(Values(kvs)) <==> IsKey(Value(kvs[0])) && GoodKeys(Values(kvs[2..]))
  {
    SplitTwo(kvs);
    ValuesOfTwo(kvs[0], kvs[1], kvs[2..]);
    PairsOfTwo(Value(kvs[0]), Value(kvs[1]), Values(kvs[2..]));
  }

  lemma SplitTwo<T>(s: seq<T>)
    requires |s| >= 2
    ensures s == [s[0]] + ([s[1]] + s[2..])
  {
  }

  lemma ValuesOfOne(e: Enc, more: seq<Enc>)
    ensures Values([e] + more) == [Value(e)] + Values(more)
  {
    assert ([e] + more)[1..] == more;
  }

  lemma ValuesOfTwo(k: Enc, v: Enc, more: seq<Enc>)
    ensures Values([k] + ([v] + more)) == [Value(k), Value(v)] + Values(more)
  {
    ValuesOfOne(k, [v] + more);
    ValuesOfOne(v, more);
  }

  lemma PairsOfTwo(k: Item, v: Item, rest: seq<Item>)
    ensures Pairs([k, v] + rest) == [(KeyOf(k), v)] + Pairs(rest)
    ensures GoodKeys([k, v] + rest) <==> IsKey(k) && GoodKeys(rest)
  {
    assert ([k, v] + rest)[2..] == rest;
  }

  lemma Regroup<T>(s: seq<T>, x: T, t: seq<T>)
    ensures s + [x] + t == s + ([x] + t)
  {
  }

  lemma FreshEntry(seen: seq<(Key, Item)>, entry: (Key, Item), rest: seq<(Key, Item)>)
    requires DistinctKeys(seen + ([entry] + rest))
    ensures !HasKey(seen, entry.0) && DistinctKeys(seen + [entry] + rest)
    ensures seen + [entry] + rest == seen + ([entry] + rest)
  {
    var all := seen + ([entry] + rest);
    assert all == seen + [entry] + rest && all[|seen|] == entry;
    forall i | 0 <= i < |seen| ensures seen[i].0 != entry.0 {
      assert all[i] == seen[i];
    }
  }

  // ---- nothing but encodings decodes ----

  lemma HeadOf(b: seq<Byte>, pos: nat) returns (info: Info, arg: nat, p: nat)
    requires pos < |b| && Argument(b, pos + 1, b[pos] % 32).Ok?
    ensures info == b[pos] % 32 && Argument(b, pos + 1, info) == Ok(arg, p) && Fits(info, arg)
    ensures p <= |b| && b[pos..p] == Head(b[pos] / 32, info, arg)
  {
    info := b[pos] % 32;
    var n := ExtraBytes(info);
    arg, p := Argument(b, pos + 1, info).value, pos + 1 + n;
    NatRoundTrip(b[pos + 1..p]);
    assert b[pos] == 32 * (b[pos] / 32) + info;
    assert b[pos..p] == [b[pos]] + b[pos + 1..p];
    if info < 24 { assert ToBytes(arg, 0) == []; }
  }

  lemma Glue(b: seq<Byte>, i: nat, j: nat, k: nat)
    requires i <= j <= k <= |b|
    ensures b[i..k] == b[i..j] + b[j..k]
  {
  }

  /** Whatever decodes is an encoding within the limits, of the value returned. */
  lemma {:induction false} DecodedIsEncoding(b: seq<Byte>, pos: nat, depth: nat) returns (e: Enc)
    requires Decode(b, pos, depth).Ok?
    ensures var r := Decode(b, pos, depth);
            Encodable(e, depth) && Bytes(e) == b[pos..r.next] && Value(e) == r.value
    decreases |b| - pos, 0, 1
  {
    var info, arg, p := HeadOf(b, pos);
    var major, q := b[pos] / 32, Decode(b, pos, depth).next;
    Glue(b, pos, p, q);
    if major == 4 {
      e := DecodedArray(b, pos, depth, info, arg, p);
    } else if major == 5 {
      e := DecodedMap(b, pos, depth, info, arg, p);
    } else if major == 6 {
      var f := DecodedIsEncoding(b, p, depth + 1);
      e := ETag(info, arg, f);
    } else {
      e := DecodedScalar(b, pos, depth, info, arg, p);
    }
  }

  lemma {:induction false} DecodedArray(b: seq<Byte>, pos: nat, depth: nat, info: Info, arg: nat, p: nat)
      returns (e: Enc)
    requires Decode(b, pos, depth).Ok? && Argument(b, pos + 1, info) == Ok(arg, p) && Fits(info, arg)
    requires info == b[pos] % 32
    requires p <= |b| && b[pos..p] == Head(4, info, arg) && b[pos] / 32 == 4
    ensures var r := Decode(b, pos, depth);
            Encodable(e, depth) && Bytes(e) == b[pos..r.next] && Value(e) == r.value
    decreases |b| - pos, 0, 0
  {
    var es := DecodedItems(b, p, depth + 1, arg, []);
    e := EArray(info, es);
    assert [] + Values(es) == Values(es);
    Glue(b, pos, p, Decode(b, pos, depth).next);
  }

  lemma {:induction false} DecodedMap(b: seq<Byte>, pos: nat, depth: nat, info: Info, arg: nat, p: nat) returns (e: Enc)
    requires Decode(b, pos, depth).Ok? && Argument(b, pos + 1, info) == Ok(arg, p) && Fits(info, arg)
    requires info == b[pos] % 32
    requires p <= |b| && b[pos..p] == Head(5, info, arg) && b[pos] / 32 == 5
    ensures var r := Decode(b, pos, depth);
            Encodable(e, depth) && Bytes(e) == b[pos..r.next] && Value(e) == r.value
    decreases |b| - pos, 0, 0
  {
    var kvs := DecodedEntries(b, p, depth + 1, arg, []);
    e := EMap(info, kvs);
    MapEncoding(info, arg, kvs, depth);
    Glue(b, pos, p, Decode(b, pos, depth).next);
  }

  lemma MapEncoding(info: Info, n: nat, kvs: seq<Enc>, depth: nat)
    requires |kvs| == 2 * n && Fits(info, n) && n <= MAX_ITEMS && depth < MAX_DEPTH && AllEncodable(kvs, depth + 1)
    requires GoodKeys(Values(kvs)) && DistinctKeys([] + Pairs(Values(kvs)))
    ensures Encodable(EMap(info, kvs), depth) && Bytes(EMap(info, kvs)) == Head(5, info, n) + AllBytes(kvs)
    ensures Value(EMap(info, kvs)) == CMap([] + Pairs(Values(kvs)))
  {
    NothingSeen(Pairs(Values(kvs)));
    assert |kvs| / 2 == n && |kvs| % 2 == 0;
  }

  lemma DecodedScalar(b: seq<Byte>, pos: nat, depth: nat, info: Info, arg: nat, p: nat) returns (e: Enc)
    requires Decode(b, pos, depth).Ok? && Argument(b, pos + 1, info) == Ok(arg, p) && Fits(info, arg)
    requires info == b[pos] % 32
    requires p <= |b| && b[pos..p] == Head(b[pos] / 32, info, arg) && b[pos] / 32 !in {4, 5, 6}
    ensures var r := Decode(b, pos, depth);
            Encodable(e, depth) && Bytes(e) == b[pos..r.next] && Value(e) == r.value
  {
    var major := b[pos] / 32;
    if major == 0 {
      e := EInt(info, arg);
    } else if major == 1 {
      e := ENeg(info, arg);
    } else if major == 7 {
      assert p == pos + 1 && b[pos..p] == [b[pos]];
      e := if info == 22 then ENull else EBool(info == 21);
    } else {
      e := DecodedString(b, pos, depth, info, arg, p);
    }
  }

  lemma DecodedString(b: seq<Byte>, pos: nat, depth: nat, info: Info, arg: nat, p: nat) returns (e: Enc)
    requires Decode(b, pos, depth).Ok? && Argument(b, pos + 1, info) == Ok(arg, p) && Fits(info, arg)
    requires info == b[pos] % 32
    requires p <= |b| && b[pos..p] == Head(b[pos] / 32, info, arg) && b[pos] / 32 in {2, 3}
    ensures var r := Decode(b, pos, depth);
            Encodable(e, depth) && Bytes(e) == b[pos..r.next] && Value(e) == r.value
  {
    var major := b[pos] / 32;
    assert Decode(b, pos, depth) == Payload(b, p, depth, major, info, arg);
    StringPayload(b, p, depth, major, info, arg);
    Glue(b, pos, p, p + arg);
    e := StringEncoding(major, info, b[p..p + arg], depth);
  }

  lemma StringPayload(b: seq<Byte>, p: nat, depth: nat, major: nat, info: Info, arg: nat)
    requires p <= |b| && (major == 2 || major == 3) && Payload(b, p, depth, major, info, arg).Ok?
    ensures p + arg <= |b|
    ensures Payload(b, p, depth, major, info, arg) ==
              Ok(if major == 2 then CBytes(b[p..p + arg]) else CText(b[p..p + arg]), p + arg)
  {
  }

  lemma StringEncoding(major: nat, info: Info, s: seq<Byte>, depth: nat) returns (e: Enc)
    requires Fits(info, |s|) && depth < MAX_DEPTH && (major == 2 || major == 3)
    ensures Encodable(e, depth) && Bytes(e) == Head(major, info, |s|) + s
    ensures Value(e) == if major == 2 then CBytes(s) else CText(s)
  {
    e := if major == 2 then EBytes(info, s) else EText(info, s);
  }

  lemma {:induction false} DecodedItems(b: seq<Byte>, pos: nat, depth: nat, n: nat, seen: seq<Item>)
      returns (es: seq<Enc>)
    requires pos <= |b| && DecodeItems(b, pos, depth, n, seen).Ok?
    ensures var r := DecodeItems(b, pos, depth, n, seen);
            |es| == n && AllEncodable(es, depth) && AllBytes(es) == b[pos..r.next] && seen + Values(es) == r.value
    decreases |b| - pos, 1, n
  {
    if n == 0 {
      es := [];
      assert seen + Values(es) == seen;
    } else {
      var e := DecodedIsEncoding(b, pos, depth);
      var p := Decode(b, pos, depth).next;
      var more := DecodedItems(b, p, depth, n - 1, seen + [Value(e)]);
      es := [e] + more;
      assert es[1..] == more;
      Glue(b, pos, p, DecodeItems(b, pos, depth, n, seen).next);
      assert seen + Values(es) == seen + [Value(e)] + Values(more);
    }
  }

  lemma {:induction false} DecodedEntries(b: seq<Byte>, pos: nat, depth: nat, n: nat, seen: seq<(Key, Item)>)
      returns (kvs: seq<Enc>)
    requires pos <= |b| && DecodeEntries(b, pos, depth, n, seen).Ok? && DistinctKeys(seen)
    ensures var r := DecodeEntries(b, pos, depth, n, seen);
            && |kvs| == 2 * n && AllEncodable(kvs, depth) && AllBytes(kvs) == b[pos..r.next]
            && GoodKeys(Values(kvs)) && seen + Pairs(Values(kvs)) == r.value && DistinctKeys(r.value)
    decreases |b| - pos, 1, n
  {
    if n == 0 {
      kvs := [];
      assert seen + Pairs(Values(kvs)) == seen;
    } else {
      var k, v, q := PairDecoded(b, pos, depth, n, seen);
      var entry := (KeyOf(Value(k)), Value(v));
      var more := DecodedEntries(b, q, depth, n - 1, seen + [entry]);
      kvs := [k, v] + more;
      PairJoins(k, v, more, depth);
      Regroup(seen, entry, Pairs(Values(more)));
      Glue(b, pos, q, DecodeEntries(b, pos, depth, n, seen).next);
    }
  }

  lemma {:induction false} PairDecoded(b: seq<Byte>, pos: nat, depth: nat, n: nat, seen: seq<(Key, Item)>)
      returns (k: Enc, v: Enc, q: nat)
    requires pos <= |b| && n > 0 && DecodeEntries(b, pos, depth, n, seen).Ok? && DistinctKeys(seen)
    ensures var entry := (KeyOf(Value(k)), Value(v));
            && Encodable(k, depth) && Encodable(v, depth) && IsKey(Value(k)) && DistinctKeys(seen + [entry])
            && pos < q <= |b| && Bytes(k) + Bytes(v) == b[pos..q]
            && DecodeEntries(b, pos, depth, n, seen) == DecodeEntries(b, q, depth, n - 1, seen + [entry])
    decreases |b| - pos, 1, 0
  {
    k := DecodedIsEncoding(b, pos, depth);
    var p := Decode(b, pos, depth).next;
    v := DecodedIsEncoding(b, p, depth);
    q := Decode(b, p, depth).next;
    EntryStep(b, pos, depth, n, seen, Value(k), p, Value(v), q);
    Glue(b, pos, p, q);
  }

  lemma PairJoins(k: Enc, v: Enc, more: seq<Enc>, depth: nat)
    ensures var kvs := [k, v] + more;
            && AllBytes(kvs) == Bytes(k) + Bytes(v) + AllBytes(more)
            && (AllEncodable(kvs, depth) <==> Encodable(k, depth) && Encodable(v, depth) && AllEncodable(more, depth))
            && Pairs(Values(kvs)) == [(KeyOf(Value(k)), Value(v))] + Pairs(Values(more))
            && (GoodKeys(Values(kvs)) <==> IsKey(Value(k)) && GoodKeys(Values(more)))
  {
    var kvs := [k, v] + more;
    assert kvs[2..] == more && kvs[1..] == [v] + more && kvs[1..][1..] == more;
    TwoValues(kvs);
  }
}
