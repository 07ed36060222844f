/** plugins/passkey/webauthn.go: authenticator data, credential keys and attestation objects. */
module WebAuthn {
  import opened Octets
  import opened CborSpec
  import opened CborLaws
  import opened Cbor
  import opened Storage

  datatype Attested = Attested(aaguid: seq<Byte>, credentialId: seq<Byte>, publicKey: seq<Byte>)

  datatype AuthData = AuthData(rpIdHash: seq<Byte>, flags: Byte, signCount: nat, attested: Option<Attested>)

  datatype Trouble =
    | TooShort | TruncatedAttested | BadCredentialLength | BadPublicKey(fault: Fault)
    | Malformed(fault: Fault) | NotAMap | MissingAuthData | BadCurve | BadCoordinates | NotOnCurve
    | BadRsaSize | BadRsaExponent | BadEd25519 | UnsupportedKey

  datatype Parse<+T> = Parsed(value: T) | Refused(trouble: Trouble)

  /** Bit 6 of the flags: attested credential data is present. */
  predicate HasAttested(flags: Byte) {
    flags / 64 % 2 == 1
  }

  // ---- the wire layout ----

  predicate WellFormed(ad: AuthData) {
    && |ad.rpIdHash| == 32 && ad.signCount < Pow256(4) && (ad.attested.Some? <==> HasAttested(ad.flags))
    && (ad.attested.Some? ==> WellFormedAttested(ad.attested.value))
  }

  predicate WellFormedAttested(a: Attested) {
    |a.aaguid| == 16 && 1 <= |a.credentialId| <= 1023 && DecodeStrict(a.publicKey).Ok?
  }

  function Layout(ad: AuthData): seq<Byte> {
    ad.rpIdHash + [ad.flags] + ToBytes(ad.signCount, 4) +
        if ad.attested.Some? then LayoutAttested(ad.attested.value) else []
  }

  function LayoutAttested(a: Attested): seq<Byte> {
    a.aaguid + ToBytes(|a.credentialId|, 2) + a.credentialId + a.publicKey
  }

  // ---- authenticator data ----

  /** raw starts with the layout of ad; anything may follow (the extensions). */
  predicate Starts(raw: seq<Byte>, ad: AuthData) {
    WellFormed(ad) && Layout(ad) <= raw
  }

  predicate StartsAttested(rest: seq<Byte>, a: Attested) {
    WellFormedAttested(a) && LayoutAttested(a) <= rest
  }

  function CredentialLength(rest: seq<Byte>): nat
    requires |rest| >= 18
  {
    (rest[16] as nat) * 256 + rest[17]
  }

  lemma TwoBytes(bs: seq<Byte>)
    requires |bs| == 2
    ensures BigEndian(bs) == (bs[0] as nat) * 256 + bs[1]
  {
    assert BigEndian(bs[..1]) == BigEndian(bs[..1][..0]) * 256 + bs[0];
  }

  lemma {:induction false} FourBytes(bs: seq<Byte>)
    requires |bs| == 4
    ensures BigEndian(bs) == (bs[0] as nat) * 0x100_0000 + (bs[1] as nat) * 0x1_0000 + (bs[2] as nat) * 0x100 + bs[3]
  {
    TwoBytes(bs[..2]);
    assert bs[..3][..2] == bs[..2];
    assert BigEndian(bs[..3]) == BigEndian(bs[..2]) * 256 + bs[2];
  }

  /** Cutting an attested layout at its offsets gives back its parts. */
  lemma AttestedParts(rest: seq<Byte>, a: Attested)
    requires StartsAttested(rest, a)
    ensures |rest| >= 18 && rest[..16] == a.aaguid && CredentialLength(rest) == |a.credentialId|
    ensures var n := |a.credentialId|;
            18 + n <= |rest| && rest[18..18 + n] == a.credentialId && a.publicKey <= rest[18 + n..]
  {
    var n := |a.credentialId|;
    var len := ToBytes(n, 2);
    var all := LayoutAttested(a);
    assert Pow256(2) == 0x1_0000;
    BytesRoundTrip(n, 2);
    TwoBytes(len);
    assert rest[..|all|] == all;
    assert rest[..16] == all[..16] == a.aaguid;
    assert rest[16] == all[16] == len[0] && rest[17] == all[17] == len[1];
    assert rest[18..18 + n] == all[18..18 + n] == a.credentialId;
    assert rest[18 + n..][..|a.publicKey|] == all[18 + n..] == a.publicKey;
  }

  /** The credential key cut out by its prefix, whatever follows it. */
  lemma KeyIsPrefix(tail: seq<Byte>, key: seq<Byte>)
    requires key <= tail && DecodeStrict(key).Ok?
    ensures DecodePrefix(tail) == DecodeStrict(key) && key == tail[..DecodePrefix(tail).next]
  {
    var v := DecodeStrict(key).value;
    StrictExactly(key, v);
    PrefixReadsEncoding(key, v, tail[|key|..]);
    assert key + tail[|key|..] == tail;
  }

  lemma AttestedJoin(rest: seq<Byte>, key: seq<Byte>)
    requires |rest| >= 18 && 18 + CredentialLength(rest) <= |rest| && key <= rest[18 + CredentialLength(rest)..]
    ensures var n := CredentialLength(rest);
            LayoutAttested(Attested(rest[..16], rest[18..18 + n], key)) <= rest
  {
    var n := CredentialLength(rest);
    TwoBytes(rest[16..18]);
    NatRoundTrip(rest[16..18]);
    assert ToBytes(n, 2) == rest[16..18];
    assert rest[..16] + rest[16..18] + rest[18..18 + n] == rest[..18 + n];
    assert rest[..18 + n] + rest[18 + n..] == rest;
    assert rest[..18 + n] + key <= rest;
  }

  method ParseAttested(rest0: seq<Byte>) returns (r: Parse<Attested>)
    ensures r.Parsed? ==> StartsAttested(rest0, r.value)
    ensures forall a :: StartsAttested(rest0, a) ==> r == Parsed(a)
    ensures r == Refused(TruncatedAttested) <==> |rest0| < 18
    ensures r == Refused(BadCredentialLength) <==>
              |rest0| >= 18 && !(1 <= CredentialLength(rest0) <= 1023 && 18 + CredentialLength(rest0) <= |rest0|)
    ensures r.Refused? ==> r.trouble in {TruncatedAttested, BadCredentialLength} || r.trouble.BadPublicKey?
  {
    var rest := rest0;
    if |rest| < 18 {
      NoAttested(rest0);
      return Refused(TruncatedAttested);
    }
    var aaguid := rest[..16];
    var n := (rest[16] as nat) * 256 + rest[17];
    rest := rest[18..];
    if n == 0 || n > 1023 || |rest| < n {
      NoAttested(rest0);
      return Refused(BadCredentialLength);
    }
    var credentialId := rest[..n];
    rest := rest[n..];
    assert rest == rest0[18 + n..] && credentialId == rest0[18..18 + n];
    var key := PrefixDecode(rest);
    if key.Err? {
      NoAttested(rest0);
      return Refused(BadPublicKey(key.fault));
    }
    AttestedFound(rest0, rest, key.next);
    r := Parsed(Attested(aaguid, credentialId, rest[..key.next]));
  }

  /** The bytes have room for a credential id of allowed length, and a key after it decodes. */
  predicate HoldsAttested(rest: seq<Byte>) {
    && |rest| >= 18 && 1 <= CredentialLength(rest) <= 1023 && 18 + CredentialLength(rest) <= |rest|
    && DecodePrefix(rest[18 + CredentialLength(rest)..]).Ok?
  }

  lemma NoAttested(rest: seq<Byte>)
    requires !HoldsAttested(rest)
    ensures forall a :: !StartsAttested(rest, a)
  {
    forall a | StartsAttested(rest, a) ensures false {
      AttestedParts(rest, a);
      KeyIsPrefix(rest[18 + |a.credentialId|..], a.publicKey);
    }
  }

  lemma AttestedFound(rest: seq<Byte>, tail: seq<Byte>, n: nat)
    requires HoldsAttested(rest) && tail == rest[18 + CredentialLength(rest)..] && n == DecodePrefix(tail).next
    ensures var found := Attested(rest[..16], rest[18..18 + CredentialLength(rest)], tail[..n]);
            StartsAttested(rest, found) && forall a :: StartsAttested(rest, a) ==> a == found
  {
    var found := Attested(rest[..16], rest[18..18 + CredentialLength(rest)], tail[..n]);
    PrefixLocality(tail, []);
    AttestedJoin(rest, tail[..n]);
    forall a | StartsAttested(rest, a) ensures a == found {
      AttestedParts(rest, a);
      KeyIsPrefix(tail, a.publicKey);
    }
  }

  lemma AuthDataParts(raw: seq<Byte>, ad: AuthData)
    requires Starts(raw, ad)
    ensures |raw| >= 37 && raw[..32] == ad.rpIdHash && raw[32] == ad.flags && BigEndian(raw[33..37]) == ad.signCount
    ensures ad.attested.Some? ==> StartsAttested(raw[37..], ad.attested.value)
  {
    var all := Layout(ad);
    BytesRoundTrip(ad.signCount, 4);
    assert raw[..|all|] == all;
    assert raw[..32] == all[..32] == ad.rpIdHash && raw[32] == all[32];
    assert raw[33..37] == all[33..37] == ToBytes(ad.signCount, 4);
    if ad.attested.Some? {
      var part := LayoutAttested(ad.attested.value);
      assert raw[37..][..|part|] == all[37..] == part;
    }
  }

  lemma AuthDataJoin(raw: seq<Byte>, attested: Option<Attested>)
    requires |raw| >= 37 && (attested.Some? ==> LayoutAttested(attested.value) <= raw[37..])
    ensures BigEndian(raw[33..37]) < Pow256(4)
    ensures Layout(AuthData(raw[..32], raw[32], BigEndian(raw[33..37]), attested)) <= raw
  {
    NatRoundTrip(raw[33..37]);
    assert raw[..32] + [raw[32]] + raw[33..37] == raw[..37];
    assert raw[..37] + raw[37..] == raw;
    if attested.Some? {
      assert raw[..37] + LayoutAttested(attested.value) <= raw;
    }
  }

  /** Authenticator data is read exactly: what is returned is the one well-formed record whose
      layout raw starts with, and there is an error only when there is no such record. */
  method ParseAuthData(raw: seq<Byte>) returns (r: Parse<AuthData>)
    ensures r.Parsed? ==> Starts(raw, r.value)
    ensures forall ad :: Starts(raw, ad) ==> r == Parsed(ad)
    ensures r == Refused(TooShort) <==> |raw| < 37
    ensures r.Refused? && |raw| >= 37 ==> HasAttested(raw[32])
  {
    if |raw| < 37 {
      forall ad | Starts(raw, ad) ensures false { AuthDataParts(raw, ad); }
      return Refused(TooShort);
    }
    var signCount := (raw[33] as nat) * 0x100_0000 + (raw[34] as nat) * 0x1_0000 + (raw[35] as nat) * 0x100 + raw[36];
    FourBytes(raw[33..37]);
    var ad := AuthData(raw[..32], raw[32], signCount, None);
    if HasAttested(ad.flags) {
      var a := ParseAttested(raw[37..]);
      if a.Refused? {
        forall d | Starts(raw, d) ensures false { AuthDataParts(raw, d); }
        return Refused(a.trouble);
      }
      ad := ad.(attested := Some(a.value));
    }
    AuthDataJoin(raw, ad.attested);
    forall d | Starts(raw, d) ensures d == ad { AuthDataParts(raw, d); }
    r := Parsed(ad);
  }

  lemma OneAttestedReading(rest: seq<Byte>, a: Attested, b: Attested)
    requires StartsAttested(rest, a) && StartsAttested(rest, b)
    ensures a == b
  {
    AttestedParts(rest, a);
    AttestedParts(rest, b);
    KeyIsPrefix(rest[18 + |a.credentialId|..], a.publicKey);
    KeyIsPrefix(rest[18 + |a.credentialId|..], b.publicKey);
  }

  /** So a record laid out and followed by any extensions has one reading. */
  lemma OneReading(raw: seq<Byte>, a: AuthData, b: AuthData)
    requires Starts(raw, a) && Starts(raw, b)
    ensures a == b
  {
    AuthDataParts(raw, a);
    AuthDataParts(raw, b);
    if a.attested.Some? {
      OneAttestedReading(raw[37..], a.attested.value, b.attested.value);
    }
  }

  // ---- credential keys ----

  datatype CoseKey = EcKey(x: seq<Byte>, y: seq<Byte>) | RsaKey(n: seq<Byte>, e: nat) | EdKey(x: seq<Byte>)

  /** The value a decoded map holds at a key. */
  function At(entries: seq<(Key, Item)>, k: Key): Option<Item> {
    if entries == [] then None
    else if entries[0].0 == k then Some(entries[0].1)
    else At(entries[1..], k)
  }

  /** The integer at k, zero when there is none. */
  function IntAt(entries: seq<(Key, Item)>, k: int): int {
    match At(entries, IntKey(k)) case Some(CInt(n)) => n case _ => 0
  }

  function BytesAt(entries: seq<(Key, Item)>, k: int): Option<seq<Byte>> {
    match At(entries, IntKey(k)) case Some(CBytes(b)) => Some(b) case _ => None
  }

  const ES256 := -7
  const EDDSA := -8
  const RS256 := -257

  /** parseCOSEKey past the decoder; onCurve is the library's check of a P-256 point. */
  function KeyOfEntries(entries: seq<(Key, Item)>, onCurve: (seq<Byte>, seq<Byte>) -> bool): Parse<CoseKey> {
    var kty, alg := IntAt(entries, 1), IntAt(entries, 3);
    if kty == 2 && alg == ES256 then
      var x, y := BytesAt(entries, -2), BytesAt(entries, -3);
      if IntAt(entries, -1) != 1 then Refused(BadCurve)
      else if x.None? || y.None? || |x.value| != 32 || |y.value| != 32 then Refused(BadCoordinates)
      else if !onCurve(x.value, y.value) then Refused(NotOnCurve)
      else Parsed(EcKey(x.value, y.value))
    else if kty == 3 && alg == RS256 then
      var n, e := BytesAt(entries, -1), BytesAt(entries, -2);
      if n.None? || e.None? || |n.value| < 256 || |n.value| > 1024 || |e.value| == 0 || |e.value| > 8 then
          Refused(BadRsaSize)
      else
        var exponent := BigEndian(e.value);
        if exponent >= 0x8000_0000_0000_0000 || exponent < 3 || exponent % 2 == 0 then Refused(BadRsaExponent)
        else Parsed(RsaKey(n.value, exponent))
    else if kty == 1 && alg == EDDSA then
      var x := BytesAt(entries, -2);
      if IntAt(entries, -1) != 6 then Refused(BadCurve)
      else if x.None? || |x.value| != 32 then Refused(BadEd25519)
      else Parsed(EdKey(x.value))
    else Refused(UnsupportedKey)
  }

  function KeyOfItem(v: Item, onCurve: (seq<Byte>, seq<Byte>) -> bool): Parse<CoseKey> {
    if v.CMap? then KeyOfEntries(v.entries, onCurve) else Refused(NotAMap)
  }

  function CoseKeyOf(raw: seq<Byte>, onCurve: (seq<Byte>, seq<Byte>) -> bool): Parse<CoseKey> {
    match DecodeStrict(raw)
    case Err(f) => Refused(Malformed(f))
    case Ok(v, _) => KeyOfItem(v, onCurve)
  }

  /** A map with pairwise distinct keys is read the same in whatever order its entries come. */
  lemma {:induction false} AtFinds(entries: seq<(Key, Item)>, i: nat)
    requires i < |entries| && DistinctKeys(entries)
    ensures At(entries, entries[i].0) == Some(entries[i].1)
  {
    if i > 0 {
      assert entries[1..][i - 1] == entries[i];
      AtFinds(entries[1..], i - 1);
    }
  }

  /** The map of a credential key lists these and nothing that matters besides. */
  predicate Lists(entries: seq<(Key, Item)>, k: int, v: Item) {
    exists i :: 0 <= i < |entries| && entries[i] == (IntKey(k), v)
  }

  /** The COSE_Key parameters of RFC 9053 that a key is made of, in any order, with anything else beside them. */
  predicate Describes(entries: seq<(Key, Item)>, key: CoseKey, exponent: seq<Byte>) {
    match key
    case EcKey(x, y) =>
      && Lists(entries, 1, CInt(2)) && Lists(entries, 3, CInt(ES256)) && Lists(entries, -1, CInt(1))
      && Lists(entries, -2, CBytes(x)) && Lists(entries, -3, CBytes(y)) && |x| == |y| == 32
    case RsaKey(n, e) =>
      && Lists(entries, 1, CInt(3)) && Lists(entries, 3, CInt(RS256)) && Lists(entries, -1, CBytes(n)) &&
           Lists(entries, -2, CBytes(exponent))
      && 256 <= |n| <= 1024 && 1 <= |exponent| <= 8 && BigEndian(exponent) == e && 3 <= e < 0x8000_0000_0000_0000 &&
           e % 2 == 1
    case EdKey(x) =>
      && Lists(entries, 1, CInt(1)) && Lists(entries, 3, CInt(EDDSA)) && Lists(entries, -1, CInt(6))
      && Lists(entries, -2, CBytes(x)) && |x| == 32
  }

  lemma ListsIsAt(entries: seq<(Key, Item)>, k: int, v: Item)
    requires DistinctKeys(entries)
    ensures Lists(entries, k, v) <==> At(entries, IntKey(k)) == Some(v)
  {
    if Lists(entries, k, v) {
      var i :| 0 <= i < |entries| && entries[i] == (IntKey(k), v);
      AtFinds(entries, i);
    }
    if At(entries, IntKey(k)) == Some(v) {
      AtListed(entries, IntKey(k));
    }
  }

  lemma {:induction false} AtListed(entries: seq<(Key, Item)>, k: Key)
    requires At(entries, k).Some?
    ensures exists i :: 0 <= i < |entries| && entries[i] == (k, At(entries, k).value)
  {
    if entries[0].0 == k {
      assert entries[0] == (k, At(entries, k).value);
    } else {
      AtListed(entries[1..], k);
      var i :| 0 <= i < |entries| - 1 && entries[1..][i] == (k, At(entries, k).value);
      assert entries[i + 1] == (k, At(entries, k).value);
    }
  }

  lemma {:induction false} MapsHaveDistinctKeys(e: Enc, depth: nat)
    requires Encodable(e, depth) && CborSpec.Value(e).CMap?
    ensures DistinctKeys(CborSpec.Value(e).entries)
  {
    if e.ETag? {
      MapsHaveDistinctKeys(e.e, depth + 1);
    }
  }

  lemma {:induction false} DescribedIsRead(entries: seq<(Key, Item)>, key: CoseKey, exponent: seq<Byte>,
      onCurve: (seq<Byte>, seq<Byte>) -> bool)
    requires DistinctKeys(entries) && Describes(entries, key, exponent) && (key.EcKey? ==> onCurve(key.x, key.y))
    ensures KeyOfEntries(entries, onCurve) == Parsed(key)
  {
    match key
    case EcKey(x, y) =>
      ListsIsAt(entries, 1, CInt(2)); ListsIsAt(entries, 3, CInt(ES256)); ListsIsAt(entries, -1, CInt(1));
      ListsIsAt(entries, -2, CBytes(x)); ListsIsAt(entries, -3, CBytes(y));
    case RsaKey(n, e) =>
      ListsIsAt(entries, 1, CInt(3)); ListsIsAt(entries, 3, CInt(RS256)); ListsIsAt(entries, -1, CBytes(n));
      ListsIsAt(entries, -2, CBytes(exponent));
    case EdKey(x) =>
      ListsIsAt(entries, 1, CInt(1)); ListsIsAt(entries, 3, CInt(EDDSA)); ListsIsAt(entries, -1, CInt(6));
      ListsIsAt(entries, -2, CBytes(x));
  }

  lemma IntIsListed(entries: seq<(Key, Item)>, k: int)
    requires DistinctKeys(entries) && IntAt(entries, k) != 0
    ensures Lists(entries, k, CInt(IntAt(entries, k)))
  {
    ListsIsAt(entries, k, CInt(IntAt(entries, k)));
  }

  lemma BytesAreListed(entries: seq<(Key, Item)>, k: int)
    requires DistinctKeys(entries) && BytesAt(entries, k).Some?
    ensures Lists(entries, k, CBytes(BytesAt(entries, k).value))
  {
    ListsIsAt(entries, k, CBytes(BytesAt(entries, k).value));
  }

  lemma ReadIsDescribed(entries: seq<(Key, Item)>, key: CoseKey, onCurve: (seq<Byte>, seq<Byte>) -> bool)
      returns (exponent: seq<Byte>)
    requires DistinctKeys(entries) && KeyOfEntries(entries, onCurve) == Parsed(key)
    ensures Describes(entries, key, exponent) && (key.EcKey? ==> onCurve(key.x, key.y))
  {
    exponent := if BytesAt(entries, -2).Some? then BytesAt(entries, -2).value else [];
    IntIsListed(entries, 1);
    IntIsListed(entries, 3);
    BytesAreListed(entries, -2);
    if key.RsaKey? {
      BytesAreListed(entries, -1);
    } else {
      IntIsListed(entries, -1);
      if key.EcKey? { BytesAreListed(entries, -3); }
    }
  }

  /** raw is an encoding of a map listing the parameters of key. */
  ghost predicate EncodesKey(raw: seq<Byte>, key: CoseKey, onCurve: (seq<Byte>, seq<Byte>) -> bool) {
    (key.EcKey? ==> onCurve(key.x, key.y)) &&
    exists entries, exponent :: Encodes(raw, CMap(entries)) && Describes(entries, key, exponent)
  }

  /** The credential keys accepted are exactly the encodings of a supported key's parameters. */
  lemma KeyExactly(raw: seq<Byte>, key: CoseKey, onCurve: (seq<Byte>, seq<Byte>) -> bool)
    ensures CoseKeyOf(raw, onCurve) == Parsed(key) <==> EncodesKey(raw, key, onCurve)
  {
    if CoseKeyOf(raw, onCurve) == Parsed(key) {
      var v := DecodeStrict(raw).value;
      StrictExactly(raw, v);
      var e :| EncodedBy(e, raw, v);
      MapsHaveDistinctKeys(e, 0);
      var exponent := ReadIsDescribed(v.entries, key, onCurve);
      assert Encodes(raw, CMap(v.entries)) && Describes(v.entries, key, exponent);
    }
    if EncodesKey(raw, key, onCurve) {
      var entries, exponent :| Encodes(raw, CMap(entries)) && Describes(entries, key, exponent);
      StrictExactly(raw, CMap(entries));
      var e :| EncodedBy(e, raw, CMap(entries));
      MapsHaveDistinctKeys(e, 0);
      DescribedIsRead(entries, key, exponent, onCurve);
    }
  }

  /** The key bytes cut out of authenticator data decode strictly to the item that the prefix
      decoder met there. So a key's parameters encoded into authenticator data are the key read
      from that item and the key read from the slice, whatever extension bytes follow. */
  lemma KeySurvives(raw: seq<Byte>, ad: AuthData, key: CoseKey, onCurve: (seq<Byte>, seq<Byte>) -> bool)
    requires Starts(raw, ad) && ad.attested.Some?
    ensures var a := ad.attested.value;
            && 55 + |a.credentialId| <= |raw|
            && var met := DecodePrefix(raw[55 + |a.credentialId|..]);
               && met.Ok? && met.next == |a.publicKey| && met == DecodeStrict(a.publicKey)
               && CoseKeyOf(a.publicKey, onCurve) == KeyOfItem(met.value, onCurve)
               && (KeyOfItem(met.value, onCurve) == Parsed(key) <==> EncodesKey(a.publicKey, key, onCurve))
  {
    var a := ad.attested.value;
    AuthDataParts(raw, ad);
    AttestedParts(raw[37..], a);
    assert raw[37..][18 + |a.credentialId|..] == raw[55 + |a.credentialId|..];
    KeyIsPrefix(raw[55 + |a.credentialId|..], a.publicKey);
    KeyExactly(a.publicKey, key, onCurve);
  }

  // ---- attestation objects ----

  const FMT: seq<Byte> := [0x66, 0x6d, 0x74]
  const AUTH_DATA: seq<Byte> := [0x61, 0x75, 0x74, 0x68, 0x44, 0x61, 0x74, 0x61]

  /** The text at "fmt", empty when there is none. */
  function FormatOf(entries: seq<(Key, Item)>): seq<Byte> {
    match At(entries, TextKey(FMT)) case Some(CText(s)) => s case _ => []
  }

  /** raw encodes a map whose "authData" bytes start with the layout of ad. */
  ghost predicate Attests(raw: seq<Byte>, format: seq<Byte>, ad: AuthData) {
    exists entries, payload ::
      Encodes(raw, CMap(entries)) && At(entries, TextKey(AUTH_DATA)) == Some(CBytes(payload)) && Starts(payload, ad) &&
          format == FormatOf(entries)
  }

  lemma AttestsMeans(raw: seq<Byte>, format: seq<Byte>, ad: AuthData)
    requires Attests(raw, format, ad)
    ensures DecodeStrict(raw).Ok? && DecodeStrict(raw).value.CMap?
    ensures var entries := DecodeStrict(raw).value.entries; var v := At(entries, TextKey(AUTH_DATA));
            format == FormatOf(entries) && v.Some? && v.value.CBytes? && Starts(v.value.b, ad)
  {
    var entries, payload :| Encodes(raw, CMap(entries)) && At(entries, TextKey(AUTH_DATA)) == Some(CBytes(payload)) &&
        Starts(payload, ad) && format == FormatOf(entries);
    StrictExactly(raw, CMap(entries));
  }

  method ParseAttestationObject(raw: seq<Byte>) returns (r: Parse<(seq<Byte>, AuthData)>)
    ensures r.Parsed? ==> Attests(raw, r.value.0, r.value.1)
    ensures forall format, ad :: Attests(raw, format, ad) ==> r == Parsed((format, ad))
  {
    forall format, ad | Attests(raw, format, ad)
      ensures DecodeStrict(raw).Ok? && DecodeStrict(raw).value.CMap?
      ensures var entries := DecodeStrict(raw).value.entries; var v := At(entries, TextKey(AUTH_DATA));
              format == FormatOf(entries) && v.Some? && v.value.CBytes? && Starts(v.value.b, ad)
    {
      AttestsMeans(raw, format, ad);
    }
    var item := StrictDecode(raw);
    if item.Failed? {
      return Refused(Malformed(item.fault));
    }
    if !item.value.CMap? {
      return Refused(NotAMap);
    }
    var entries := item.value.entries;
    var payload := At(entries, TextKey(AUTH_DATA));
    if payload.None? || !payload.value.CBytes? {
      return Refused(MissingAuthData);
    }
    var ad := ParseAuthData(payload.value.b);
    if ad.Refused? {
      return Refused(ad.trouble);
    }
    StrictExactly(raw, item.value);
    r := Parsed((FormatOf(entries), ad.value));
  }
}
