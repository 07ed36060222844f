/** The subset of CBOR (RFC 8949) that plugins/passkey/cbor.go reads: items, every
    definite-length encoding of them, and decoding as a function of position. */
module CborSpec {
  import opened Octets

  datatype Key = IntKey(n: int) | TextKey(s: seq<Byte>)

  datatype Item =
    | CInt(n: int) | CBytes(b: seq<Byte>) | CText(s: seq<Byte>) | CBool(v: bool) | CNull
    | CArray(items: seq<Item>)
    | CMap(entries: seq<(Key, Item)>)

  datatype Fault =
    | Truncated | TooDeep | BadInfo | TooLarge | BadKey | DuplicateKey | OutOfRange | Unsupported | Trailing

  datatype Result<+T> = Ok(value: T, next: nat) | Err(fault: Fault)

  const MAX_DEPTH := 32
  const MAX_ITEMS := 0x1_0000
  const MAX_INT := 0x4000_0000_0000_0000

  // ---- arguments ----

  /** How many bytes follow an initial byte with this additional information. */
  function ExtraBytes(info: nat): nat {
    if info == 24 then 1 else if info == 25 then 2 else if info == 26 then 4 else if info == 27 then 8 else 0
  }

  function Argument(b: seq<Byte>, pos: nat, info: nat): (r: Result<nat>)
    ensures r.Ok? ==> pos <= r.next && (pos <= |b| ==> r.next <= |b|)
  {
    if info < 24 then Ok(info, pos)
    else if info <= 27 then
      var n := ExtraBytes(info);
      if pos + n > |b| then Err(Truncated) else Ok(BigEndian(b[pos..pos + n]), pos + n)
    else Err(BadInfo)
  }

  function Take(b: seq<Byte>, pos: nat, n: nat): (r: Result<seq<Byte>>)
    requires pos <= |b|
    ensures r.Ok? ==> pos <= r.next <= |b|
  {
    if n > |b| - pos then Err(Truncated) else Ok(b[pos..pos + n], pos + n)
  }

  // ---- decoding ----

  predicate HasKey(entries: seq<(Key, Item)>, k: Key) {
    exists i :: 0 <= i < |entries| && entries[i].0 == k
  }

  /** The item at pos, `depth` levels of nesting being open already. */
  function Decode(b: seq<Byte>, pos: nat, depth: nat): (r: Result<Item>)
    ensures r.Ok? ==> pos < r.next <= |b|
    decreases |b| - pos, 0, 0
  {
    if depth >= MAX_DEPTH then Err(TooDeep)
    else if pos >= |b| then Err(Truncated)
    else
      var major, info := b[pos] / 32, b[pos] % 32;
      match Argument(b, pos + 1, info)
      case Err(f) => Err(f)
      case Ok(arg, p) => Payload(b, p, depth, major, info, arg)
  }

  /** What follows a head. */
  function Payload(b: seq<Byte>, p: nat, depth: nat, major: nat, info: nat, arg: nat): (r: Result<Item>)
    requires p <= |b|
    ensures r.Ok? ==> p <= r.next <= |b|
    decreases |b| - p, 2, 0
  {
    if major == 0 then (if arg > MAX_INT then Err(OutOfRange) else Ok(CInt(arg), p))
    else if major == 1 then (if arg > MAX_INT then Err(OutOfRange) else Ok(CInt(-1 - arg), p))
    else if major == 2 then
      (match Take(b, p, arg) case Err(f) => Err(f) case Ok(bs, q) => Ok(CBytes(bs), q))
    else if major == 3 then
      (match Take(b, p, arg) case Err(f) => Err(f) case Ok(bs, q) => Ok(CText(bs), q))
    else if major == 4 then
      if arg > MAX_ITEMS then Err(TooLarge)
      else (match DecodeItems(b, p, depth + 1, arg, []) case Err(f) => Err(f) case Ok(vs, q) => Ok(CArray(vs), q))
    else if major == 5 then
      if arg > MAX_ITEMS then Err(TooLarge)
      else (match DecodeEntries(b, p, depth + 1, arg, []) case Err(f) => Err(f) case Ok(es, q) => Ok(CMap(es), q))
    else if major == 6 then Decode(b, p, depth + 1)
    else if info == 20 then Ok(CBool(false), p)
    else if info == 21 then Ok(CBool(true), p)
    else if info == 22 then Ok(CNull, p)
    else Err(Unsupported)
  }

  function DecodeItems(b: seq<Byte>, pos: nat, depth: nat, n: nat, seen: seq<Item>): (r: Result<seq<Item>>)
    requires pos <= |b|
    ensures r.Ok? ==> pos <= r.next <= |b|
    decreases |b| - pos, 1, n
  {
    if n == 0 then Ok(seen, pos)
    else
      match Decode(b, pos, depth)
      case Err(f) => Err(f)
      case Ok(v, p) => DecodeItems(b, p, depth, n - 1, seen + [v])
  }

  function DecodeEntries(b: seq<Byte>, pos: nat, depth: nat, n: nat,
      seen: seq<(Key, Item)>): (r: Result<seq<(Key, Item)>>)
    requires pos <= |b|
    ensures r.Ok? ==> pos <= r.next <= |b|
    decreases |b| - pos, 1, n
  {
    if n == 0 then Ok(seen, pos)
    else
      match Decode(b, pos, depth)
      case Err(f) => Err(f)
      case Ok(k, p) =>
        if !IsKey(k) then Err(BadKey)
        else
          match Decode(b, p, depth)
          case Err(f) => Err(f)
          case Ok(v, q) =>
            if HasKey(seen, KeyOf(k)) then Err(DuplicateKey)
            else DecodeEntries(b, q, depth, n - 1, seen + [(KeyOf(k), v)])
  }

  // ---- encodings ----

  /** The additional information of a definite-length head. */
  type Info = n: nat | n < 28

  /** A definite-length encoding: each head with its additional information, which fixes
      how wide the argument is written; a map lists key, value, key, value, ... */
  datatype Enc =
    | EInt(info: Info, n: nat) | ENeg(info: Info, n: nat)
    | EBytes(info: Info, b: seq<Byte>) | EText(info: Info, s: seq<Byte>)
    | EArray(info: Info, es: seq<Enc>) | EMap(info: Info, kvs: seq<Enc>)
    | ETag(info: Info, tag: nat, e: Enc)
    | EBool(v: bool) | ENull

  /** The argument fits the width that info announces. */
  predicate Fits(info: Info, arg: nat) {
    if info < 24 then arg == info else arg < Pow256(ExtraBytes(info))
  }

  function Head(major: nat, info: Info, arg: nat): (bs: seq<Byte>)
    requires major < 8
    ensures |bs| == 1 + ExtraBytes(info)
  {
    [32 * major + info] + ToBytes(arg, ExtraBytes(info))
  }

  function Bytes(e: Enc): (bs: seq<Byte>)
    ensures |bs| > 0
    decreases e, 0
  {
    match e
    case EInt(info, n) => Head(0, info, n)
    case ENeg(info, n) => Head(1, info, n)
    case EBytes(info, b) => Head(2, info, |b|) + b
    case EText(info, s) => Head(3, info, |s|) + s
    case EArray(info, es) => Head(4, info, |es|) + AllBytes(es)
    case EMap(info, kvs) => Head(5, info, |kvs| / 2) + AllBytes(kvs)
    case ETag(info, tag, f) => Head(6, info, tag) + Bytes(f)
    case EBool(v) => if v then [0xf5] else [0xf4]
    case ENull => [0xf6]
  }

  function AllBytes(es: seq<Enc>): seq<Byte>
    decreases es, 1
  {
    if es == [] then [] else Bytes(es[0]) + AllBytes(es[1..])
  }

  function Value(e: Enc): Item
    decreases e, 0
  {
    match e
    case EInt(_, n) => CInt(n)
    case ENeg(_, n) => CInt(-1 - n)
    case EBytes(_, b) => CBytes(b)
    case EText(_, s) => CText(s)
    case EArray(_, es) => CArray(Values(es))
    case EMap(_, kvs) => CMap(Pairs(Values(kvs)))
    case ETag(_, _, f) => Value(f)
    case EBool(v) => CBool(v)
    case ENull => CNull
  }

  function Values(es: seq<Enc>): (vs: seq<Item>)
    ensures |vs| == |es|
    decreases es, 1
  {
    if es == [] then [] else [Value(es[0])] + Values(es[1..])
  }

  predicate IsKey(v: Item) {
    v.CInt? || v.CText?
  }

  function KeyOf(v: Item): Key {
    if v.CInt? then IntKey(v.n) else if v.CText? then TextKey(v.s) else TextKey([])
  }

  function Pairs(vs: seq<Item>): seq<(Key, Item)> {
    if |vs| < 2 then [] else [(KeyOf(vs[0]), vs[1])] + Pairs(vs[2..])
  }

  predicate GoodKeys(vs: seq<Item>) {
    |vs| < 2 || (IsKey(vs[0]) && GoodKeys(vs[2..]))
  }

  predicate DistinctKeys(entries: seq<(Key, Item)>) {
    forall i, j :: 0 <= i < j < |entries| ==> entries[i].0 != entries[j].0
  }

  /** Within the decoder's limits at this depth: arguments fit, integers and collections are
      in range, map keys are integers or texts and distinct. */
  predicate Encodable(e: Enc, depth: nat)
    decreases e, 0
  {
    depth < MAX_DEPTH &&
    match e
    case EInt(info, n) => Fits(info, n) && n <= MAX_INT
    case ENeg(info, n) => Fits(info, n) && n <= MAX_INT
    case EBytes(info, b) => Fits(info, |b|)
    case EText(info, s) => Fits(info, |s|)
    case EArray(info, es) => Fits(info, |es|) && |es| <= MAX_ITEMS && AllEncodable(es, depth + 1)
    case EMap(info, kvs) =>
      && |kvs| % 2 == 0 && Fits(info, |kvs| / 2) && |kvs| / 2 <= MAX_ITEMS && AllEncodable(kvs, depth + 1)
      && GoodKeys(Values(kvs)) && DistinctKeys(Pairs(Values(kvs)))
    case ETag(info, tag, f) => Fits(info, tag) && Encodable(f, depth + 1)
    case EBool(_) => true
    case ENull => true
  }

  predicate AllEncodable(es: seq<Enc>, depth: nat)
    decreases es, 1
  {
    es == [] || (Encodable(es[0], depth) && AllEncodable(es[1..], depth))
  }
}
