/** crypto/aead.go: location-bound encryption at rest under a rotating ring of keys, over an
    ideal authenticated cipher: a sealed value opens under the key and the additional data
    it was sealed with, and no other bytes open. */
module Keyring {
  import opened Octets
  import opened Storage

  /** A Go string: its length fits an int. */
  type GoString = s: string | |s| < 0x8000_0000_0000_0000 witness ""

  datatype Binding = Binding(model: GoString, record: GoString, field: GoString)

  /** What one secret derives: the published id and, behind it, two cipher keys. */
  datatype Key = Key(secret: string, kid: string)

  datatype CipherKey = LegacyKey(key: Key) | DerivedKey(key: Key)

  /** Decoded bodies: a nonce and a sealed box, bytes shorter than a nonce, or bytes no key sealed. */
  datatype Raw = Sealed(key: CipherKey, nonce: nat, aad: string, plaintext: string) | TooShort | Altered(n: nat)

  /** Stored text: characters, and base64url runs kept as the bytes they decode to. */
  datatype Glyph = Ch(c: char) | Body(raw: Raw)
  type Text = seq<Glyph>

  datatype Ring = Ring(keys: seq<Key>, acceptUnbound: bool)

  datatype Refusal = NoMatchingKey | Malformed | Unbound | InvalidBinding
  datatype Opened = Plain(plaintext: string) | Refused(why: Refusal)

  // ---- bindings and additional data ----

  predicate Complete(b: Binding) {
    b.model != "" && b.record != "" && b.field != ""
  }

  /** Octets as the characters that stand for them. */
  function Spelled(bs: seq<Byte>): (s: string)
    ensures |s| == |bs|
  {
    seq(|bs|, i requires 0 <= i < |bs| => bs[i] as char)
  }

  /** The length of a component as eight octets. */
  function Length(n: nat): (s: string)
    ensures |s| == 8
  {
    Spelled(ToBytes(n, 8))
  }

  lemma LengthInjective(m: nat, n: nat)
    requires m < Pow256(8) && n < Pow256(8) && Length(m) == Length(n)
    ensures m == n
  {
    var bs, cs := ToBytes(m, 8), ToBytes(n, 8);
    forall i | 0 <= i < 8 ensures bs[i] == cs[i] {
      assert Length(m)[i] == bs[i] as char && Length(n)[i] == cs[i] as char;
    }
    assert bs == cs;
    BytesRoundTrip(m, 8);
    BytesRoundTrip(n, 8);
  }

  function Prefixed(s: string): string {
    Length(|s|) + s
  }

  function Aad(b: Binding, kid: string): string {
    "v2." + kid + Prefixed(b.model) + Prefixed(b.record) + Prefixed(b.field)
  }

  function AadV1(kid: string): string {
    "v1." + kid
  }

  method BuildAad(b: Binding, kid: string) returns (out: string)
    ensures out == Aad(b, kid)
  {
    out := "v2";
    out := out + ".";
    out := out + kid;
    var parts: seq<string> := [b.model, b.record, b.field];
    for i := 0 to 3
      invariant i == 0 ==> out == "v2." + kid
      invariant i == 1 ==> out == "v2." + kid + Prefixed(b.model)
      invariant i == 2 ==> out == "v2." + kid + Prefixed(b.model) + Prefixed(b.record)
      invariant i == 3 ==> out == Aad(b, kid)
    {
      out := out + Length(|parts[i]|);
      out := out + parts[i];
    }
  }

  /** A length-prefixed component is cut off unambiguously. */
  lemma PrefixedSplits(s: string, t: string, x: string, y: string)
    requires |s| < Pow256(8) && |t| < Pow256(8) && Prefixed(s) + x == Prefixed(t) + y
    ensures s == t && x == y
  {
    var all := Prefixed(s) + x;
    assert all[..8] == Length(|s|) && all[..8] == Length(|t|);
    LengthInjective(|s|, |t|);
    assert all[8..8 + |s|] == s && all[8..8 + |s|] == t;
    assert all[8 + |s|..] == x && all[8 + |s|..] == y;
  }

  /** Distinct bindings never share their additional data. */
  lemma AadInjective(b: Binding, c: Binding, kid: string)
    requires Aad(b, kid) == Aad(c, kid)
    ensures b == c
  {
    var restB, restC := Prefixed(b.record) + Prefixed(b.field), Prefixed(c.record) + Prefixed(c.field);
    AadParts(b, kid);
    AadParts(c, kid);
    Pow256Of8();
    PrefixedSplits(b.model, c.model, restB, restC);
    PrefixedSplits(b.record, c.record, Prefixed(b.field), Prefixed(c.field));
    assert Prefixed(b.field) + "" == Prefixed(c.field) + "";
    PrefixedSplits(b.field, c.field, "", "");
  }

  lemma AadParts(b: Binding, kid: string)
    ensures Aad(b, kid)[|kid| + 3..] == Prefixed(b.model) + (Prefixed(b.record) + Prefixed(b.field))
  {
  }

  lemma AadsOfVersionsDiffer(b: Binding, kid: string, other: string)
    ensures Aad(b, kid) != AadV1(other) && Aad(b, kid) != "" && AadV1(other) != ""
  {
    assert Aad(b, kid)[1] == '2' && AadV1(other)[1] == '1';
  }

  // ---- the three-part text ----

  const DOT := Ch('.')

  function Chars(s: string): (t: Text)
    ensures |t| == |s| && forall i :: 0 <= i < |s| ==> t[i] == Ch(s[i])
  {
    seq(|s|, i requires 0 <= i < |s| => Ch(s[i]))
  }

  lemma CharsInjective(s: string, t: string)
    requires Chars(s) == Chars(t)
    ensures s == t
  {
    assert forall i :: 0 <= i < |s| ==> s[i] == Chars(s)[i].c && Chars(t)[i] == Ch(t[i]);
  }

  /** Splitting at every dot. */
  function Split(t: Text): (parts: seq<Text>)
    ensures |parts| > 0
  {
    if t == [] then [[]]
    else
      var parts := Split(t[1..]);
      if t[0] == DOT then [[]] + parts else [[t[0]] + parts[0]] + parts[1..]
  }

  function Join(parts: seq<Text>): Text
    requires |parts| > 0
  {
    if |parts| == 1 then parts[0] else parts[0] + [DOT] + Join(parts[1..])
  }

  lemma {:induction false} SplitOff(a: Text, t: Text)
    requires DOT !in a
    ensures Split(a + [DOT] + t) == [a] + Split(t)
  {
    var whole := a + [DOT] + t;
    if a == [] {
      assert whole[1..] == t;
    } else {
      SplitOff(a[1..], t);
      assert whole[1..] == a[1..] + [DOT] + t;
      assert [a[0]] + a[1..] == a;
    }
  }

  lemma {:induction false} SplitLast(a: Text)
    requires DOT !in a
    ensures Split(a) == [a]
  {
    if a != [] {
      SplitLast(a[1..]);
      assert [a[0]] + a[1..] == a;
    }
  }

  lemma {:induction false} SplitJoins(t: Text)
    ensures Join(Split(t)) == t && forall p :: p in Split(t) ==> DOT !in p
  {
    if t != [] {
      SplitJoins(t[1..]);
      var parts := Split(t[1..]);
      if t[0] == DOT {
        assert ([[]] + parts)[1..] == parts;
        assert [] + [DOT] + t[1..] == t;
      } else {
        var all := [[t[0]] + parts[0]] + parts[1..];
        assert all[1..] == parts[1..];
        assert [t[0]] + t[1..] == t;
      }
    }
  }

  function Dotted(version: Text, kid: Text, body: Text): Text {
    version + [DOT] + (kid + [DOT] + body)
  }

  lemma JoinThree(a: Text, b: Text, c: Text)
    ensures Join([a, b, c]) == Dotted(a, b, c)
  {
    assert [a, b, c][1..] == [b, c] && [b, c][1..] == [c];
    assert Join([b, c]) == b + [DOT] + Join([c]);
  }

  /** A text splits into three parts in exactly one way. */
  lemma ThreeParts(t: Text, version: Text, kid: Text, body: Text)
    ensures Split(t) == [version, kid, body] <==>
              t == Dotted(version, kid, body) && DOT !in version && DOT !in kid && DOT !in body
  {
    if Split(t) == [version, kid, body] {
      SplitJoins(t);
      JoinThree(version, kid, body);
      var parts := [version, kid, body];
      assert parts[0] in Split(t) && parts[1] in Split(t) && parts[2] in Split(t);
    }
    if t == Dotted(version, kid, body) && DOT !in version && DOT !in kid && DOT !in body {
      SplitOff(version, kid + [DOT] + body);
      SplitOff(kid, body);
      SplitLast(body);
      assert [version] + ([kid] + [body]) == [version, kid, body];
    }
  }

  // ---- rings ----

  /** Distinct key ids of base64url characters (48-bit digests of distinct secrets). */
  predicate Usable(keys: seq<Key>) {
    && keys != []
    && (forall i :: 0 <= i < |keys| ==> '.' !in keys[i].kid)
    && (forall i, j :: 0 <= i < j < |keys| ==> keys[i].kid != keys[j].kid)
  }

  /** Only the first occurrence of each element. */
  function Distinct(s: seq<string>): (d: seq<string>)
    ensures forall x :: x in d <==> x in s
    ensures forall i, j :: 0 <= i < j < |d| ==> d[i] != d[j]
  {
    if s == [] then []
    else
      var d, last := Distinct(s[..|s| - 1]), s[|s| - 1];
      if last in d then d else d + [last]
  }

  function NonEmpty(secrets: seq<string>): (r: seq<string>)
    ensures forall x :: x in r <==> x in secrets && x != ""
  {
    if secrets == [] then []
    else
      var front, last := NonEmpty(secrets[..|secrets| - 1]), secrets[|secrets| - 1];
      if last == "" then front else front + [last]
  }

  function Secrets(keys: seq<Key>): seq<string> {
    seq(|keys|, i requires 0 <= i < |keys| => keys[i].secret)
  }

  method HoldsSecret(keys: seq<Key>, secret: string) returns (dup: bool)
    ensures dup <==> secret in Secrets(keys)
  {
    dup := false;
    for i := 0 to |keys|
      invariant !dup && secret !in Secrets(keys)[..i]
    {
      assert Secrets(keys)[i] == keys[i].secret;
      if keys[i].secret == secret {
        dup := true;
        break;
      }
    }
    assert Secrets(keys)[..|keys|] == Secrets(keys);
  }

  lemma DistinctStep(current: string, previous: seq<string>, n: nat)
    requires n < |previous|
    ensures var d, p := Distinct([current] + NonEmpty(previous[..n])), previous[n];
            Distinct([current] + NonEmpty(previous[..n + 1])) == if p == "" || p in d then d else d + [p]
  {
    var front, p := NonEmpty(previous[..n]), previous[n];
    assert previous[..n + 1][..n] == previous[..n];
    if p != "" {
      var all := [current] + (front + [p]);
      assert all[..|all| - 1] == [current] + front;
    }
  }

  /** Every key carries the id its secret derives. */
  predicate Derived(keys: seq<Key>, kidOf: string -> string) {
    forall i :: 0 <= i < |keys| ==> keys[i].kid == kidOf(keys[i].secret)
  }

  method AddPrevious(keys: seq<Key>, p: string, kidOf: string -> string) returns (more: seq<Key>)
    requires keys != [] && Derived(keys, kidOf)
    ensures Derived(more, kidOf) && more != [] && more[0] == keys[0]
    ensures Secrets(more) == if p == "" || p in Secrets(keys) then Secrets(keys) else Secrets(keys) + [p]
  {
    assert Secrets(keys)[0] == keys[0].secret;
    if p == "" || p == keys[0].secret {
      return keys;
    }
    var dup := HoldsSecret(keys, p);
    more := if dup then keys else keys + [Key(p, kidOf(p))];
  }

  /** NewKeyringFrom: the current secret, then every other non-empty previous one, once, in order. */
  method NewKeyringFrom(current: string, previous: seq<string>, rejectUnbound: bool, kidOf: string -> string)
      returns (ring: Ring)
    ensures Secrets(ring.keys) == Distinct([current] + NonEmpty(previous)) && ring.acceptUnbound == !rejectUnbound
    ensures Derived(ring.keys, kidOf) && ring.keys != [] && ring.keys[0].secret == current
  {
    var keys := [Key(current, kidOf(current))];
    assert Secrets(keys) == [current] == Distinct([current] + NonEmpty(previous[..0]));
    for n := 0 to |previous|
      invariant Secrets(keys) == Distinct([current] + NonEmpty(previous[..n]))
      invariant Derived(keys, kidOf) && keys != [] && keys[0].secret == current
    {
      DistinctStep(current, previous, n);
      keys := AddPrevious(keys, previous[n], kidOf);
    }
    assert previous[..|previous|] == previous;
    ring := Ring(keys, !rejectUnbound);
  }

  // ---- sealing and opening ----

  function V2Text(key: Key, nonce: nat, b: Binding, plaintext: string): Text {
    Dotted(Chars("v2"), Chars(key.kid), [Body(Sealed(DerivedKey(key), nonce, Aad(b, key.kid), plaintext))])
  }

  function V1Text(key: Key, nonce: nat, plaintext: string): Text {
    Dotted(Chars("v1"), Chars(key.kid), [Body(Sealed(DerivedKey(key), nonce, AadV1(key.kid), plaintext))])
  }

  function V0Text(key: Key, nonce: nat, plaintext: string): Text {
    [Body(Sealed(LegacyKey(key), nonce, "", plaintext))]
  }

  /** The caller supplies a nonce never used before. */
  function Encrypt(ring: Ring, b: Binding, plaintext: string, nonce: nat): Option<Text>
    requires ring.keys != []
  {
    if Complete(b) then Some(V2Text(ring.keys[0], nonce, b, plaintext)) else None
  }

  /** base64url decoding. */
  function DecodeBody(body: Text): Option<Raw> {
    if |body| == 1 && body[0].Body? then Some(body[0].raw) else None
  }

  function Open(key: CipherKey, aad: string, raw: Raw): Option<string> {
    if raw.Sealed? && raw.key == key && raw.aad == aad then Some(raw.plaintext) else None
  }

  function OpenNamed(keys: seq<Key>, kid: Text, raw: Raw, aadOf: string -> string): Opened {
    if keys == [] then Refused(NoMatchingKey)
    else if Chars(keys[0].kid) != kid then OpenNamed(keys[1..], kid, raw, aadOf)
    else if raw.TooShort? then Refused(Malformed)
    else
      match Open(DerivedKey(keys[0]), aadOf(keys[0].kid), raw)
      case Some(pt) => Plain(pt)
      case None => Refused(Malformed)
  }

  function OpenLegacy(keys: seq<Key>, raw: Raw): Opened {
    if keys == [] then Refused(NoMatchingKey)
    else if raw.TooShort? then Refused(Malformed)
    else
      match Open(LegacyKey(keys[0]), "", raw)
      case Some(pt) => Plain(pt)
      case None => OpenLegacy(keys[1..], raw)
  }

  function DecryptLegacy(ring: Ring, text: Text): Opened {
    if !ring.acceptUnbound then Refused(Unbound)
    else if DecodeBody(text).None? then Refused(Malformed)
    else OpenLegacy(ring.keys, DecodeBody(text).value)
  }

  function Decrypt(ring: Ring, b: Binding, text: Text): Opened {
    if DOT !in text then DecryptLegacy(ring, text)
    else
      var parts := Split(text);
      if |parts| != 3 then Refused(Malformed)
      else
        var kid, raw := parts[1], DecodeBody(parts[2]);
        if parts[0] == Chars("v2") then
          if !Complete(b) then Refused(InvalidBinding)
          else if raw.None? then Refused(Malformed)
          else OpenNamed(ring.keys, kid, raw.value, id => Aad(b, id))
        else if parts[0] == Chars("v1") then
          if !ring.acceptUnbound then Refused(Unbound)
          else if raw.None? then Refused(Malformed)
          else OpenNamed(ring.keys, kid, raw.value, id => AadV1(id))
        else Refused(Malformed)
  }

  function NeedsReencryption(ring: Ring, text: Text): bool
    requires ring.keys != []
  {
    var parts := Split(text);
    |parts| != 3 || parts[0] != Chars("v2") || parts[1] != Chars(ring.keys[0].kid)
  }

  // ---- what opens ----

  lemma {:induction false} NamedOpens(keys: seq<Key>, key: Key, raw: Raw, aadOf: string -> string)
    requires Usable(keys) && key in keys
    ensures OpenNamed(keys, Chars(key.kid), raw, aadOf) ==
            if Open(DerivedKey(key), aadOf(key.kid), raw).Some? then Plain(raw.plaintext) else Refused(Malformed)
  {
    if keys[0] != key {
      var i :| 0 < i < |keys| && keys[i] == key;
      if Chars(keys[0].kid) == Chars(key.kid) { CharsInjective(keys[0].kid, key.kid); }
      assert key == keys[1..][i - 1];
      NamedOpens(keys[1..], key, raw, aadOf);
    }
  }

  lemma {:induction false} NoneNamed(keys: seq<Key>, kid: Text, raw: Raw, aadOf: string -> string)
    requires forall k :: k in keys ==> Chars(k.kid) != kid
    ensures OpenNamed(keys, kid, raw, aadOf) == Refused(NoMatchingKey)
  {
    if keys != [] {
      assert keys[0] in keys;
      NoneNamed(keys[1..], kid, raw, aadOf);
    }
  }

  lemma {:induction false} LegacyOpens(keys: seq<Key>, raw: Raw)
    ensures OpenLegacy(keys, raw).Plain? <==> raw.Sealed? && raw.key.LegacyKey? && raw.aad == "" && raw.key.key in keys
    ensures OpenLegacy(keys, raw).Plain? ==> OpenLegacy(keys, raw) == Plain(raw.plaintext)
  {
    if keys != [] {
      LegacyOpens(keys[1..], raw);
    }
  }

  lemma DotFree(s: string)
    requires '.' !in s
    ensures DOT !in Chars(s)
  {
  }

  lemma DottedHasDot(version: Text, kid: Text, body: Text)
    ensures DOT in Dotted(version, kid, body)
  {
    assert Dotted(version, kid, body)[|version|] == DOT;
  }

  /** The parts of a stored text. */
  lemma StoredParts(version: string, kid: string, raw: Raw)
    requires '.' !in version && '.' !in kid
    ensures var t := Dotted(Chars(version), Chars(kid), [Body(raw)]);
            Split(t) == [Chars(version), Chars(kid), [Body(raw)]] && DOT in t
  {
    DotFree(version);
    DotFree(kid);
    ThreeParts(Dotted(Chars(version), Chars(kid), [Body(raw)]), Chars(version), Chars(kid), [Body(raw)]);
    DottedHasDot(Chars(version), Chars(kid), [Body(raw)]);
  }

  lemma VersionsDiffer()
    ensures Chars("v1") != Chars("v2")
  {
    assert Chars("v1")[1] == Ch('1') && Chars("v2")[1] == Ch('2');
  }

  /** A value sealed at b opens, under a ring holding its key, exactly when presented at b,
      and then gives the original plaintext; every other outcome is the named error. */
  lemma SealedOpensExactlyThere(ring: Ring, key: Key, nonce: nat, b: Binding, plaintext: string, at: Binding)
    requires Usable(ring.keys) && '.' !in key.kid && Complete(b)
    ensures Decrypt(ring, at, V2Text(key, nonce, b, plaintext)) ==
            if !Complete(at) then Refused(InvalidBinding)
            else if forall k :: k in ring.keys ==> k.kid != key.kid then Refused(NoMatchingKey)
            else if key in ring.keys && at == b then Plain(plaintext)
            else Refused(Malformed)
  {
    var raw := Sealed(DerivedKey(key), nonce, Aad(b, key.kid), plaintext);
    StoredParts("v2", key.kid, raw);
    if Complete(at) {
      if k :| k in ring.keys && k.kid == key.kid {
        NamedOpens(ring.keys, k, raw, id => Aad(at, id));
        if Aad(at, key.kid) == Aad(b, key.kid) { AadInjective(at, b, key.kid); }
        if key in ring.keys {
          var i :| 0 <= i < |ring.keys| && ring.keys[i] == key;
          var j :| 0 <= j < |ring.keys| && ring.keys[j] == k;
        }
      } else {
        forall k | k in ring.keys ensures Chars(k.kid) != Chars(key.kid) {
          if Chars(k.kid) == Chars(key.kid) { CharsInjective(k.kid, key.kid); }
        }
        NoneNamed(ring.keys, Chars(key.kid), raw, id => Aad(at, id));
      }
    }
  }

  /** text is what some key of the ring wrote for plaintext, bound to b or in a format still accepted. */
  predicate WrittenBy(ring: Ring, b: Binding, text: Text, plaintext: string, key: Key, nonce: nat) {
    key in ring.keys &&
    ( (Complete(b) && text == V2Text(key, nonce, b, plaintext))
      || (ring.acceptUnbound && (text == V1Text(key, nonce, plaintext) || text == V0Text(key, nonce, plaintext))))
  }

  lemma WrittenOpens(ring: Ring, b: Binding, text: Text, plaintext: string, key: Key, nonce: nat)
    requires Usable(ring.keys) && WrittenBy(ring, b, text, plaintext, key, nonce)
    ensures Decrypt(ring, b, text) == Plain(plaintext)
  {
    if text == V0Text(key, nonce, plaintext) {
      LegacyOpens(ring.keys, text[0].raw);
    } else if text == V1Text(key, nonce, plaintext) && ring.acceptUnbound {
      var raw := Sealed(DerivedKey(key), nonce, AadV1(key.kid), plaintext);
      StoredParts("v1", key.kid, raw);
      VersionsDiffer();
      NamedOpens(ring.keys, key, raw, id => AadV1(id));
    } else {
      SealedOpensExactlyThere(ring, key, nonce, b, plaintext, b);
    }
  }

  /** A named body that opens was sealed by the first key of that name. */
  lemma {:induction false} NamedWriter(keys: seq<Key>, kid: Text, raw: Raw, aadOf: string -> string) returns (key: Key)
    requires OpenNamed(keys, kid, raw, aadOf).Plain?
    ensures key in keys && Chars(key.kid) == kid && raw.Sealed? && raw.key == DerivedKey(key)
    ensures raw.aad == aadOf(key.kid)
    ensures OpenNamed(keys, kid, raw, aadOf) == Plain(raw.plaintext)
  {
    if Chars(keys[0].kid) != kid {
      key := NamedWriter(keys[1..], kid, raw, aadOf);
    } else {
      key := keys[0];
    }
  }

  lemma DottedText(text: Text, parts: seq<Text>)
    requires Split(text) == parts && |parts| == 3
    ensures text == Dotted(parts[0], parts[1], parts[2])
  {
    assert parts == [parts[0], parts[1], parts[2]];
    ThreeParts(text, parts[0], parts[1], parts[2]);
  }

  lemma OpenedWasWritten(ring: Ring, b: Binding, text: Text) returns (key: Key, nonce: nat)
    requires Usable(ring.keys) && Decrypt(ring, b, text).Plain?
    ensures WrittenBy(ring, b, text, Decrypt(ring, b, text).plaintext, key, nonce)
  {
    if DOT !in text {
      var raw := DecodeBody(text).value;
      LegacyOpens(ring.keys, raw);
      key, nonce := raw.key.key, raw.nonce;
      assert text == V0Text(key, nonce, raw.plaintext);
    } else {
      var parts := Split(text);
      var raw := DecodeBody(parts[2]).value;
      DottedText(text, parts);
      assert parts[2] == [Body(raw)];
      if parts[0] == Chars("v2") {
        key := NamedWriter(ring.keys, parts[1], raw, id => Aad(b, id));
      } else {
        key := NamedWriter(ring.keys, parts[1], raw, id => AadV1(id));
      }
      nonce := raw.nonce;
    }
  }

  /** Decrypt returns a plaintext exactly for the texts some key of the ring wrote for it: bound
      to this binding, or unbound while the ring still accepts those formats. */
  lemma DecryptsExactlyWhatWasWritten(ring: Ring, b: Binding, text: Text, plaintext: string)
    requires Usable(ring.keys)
    ensures Decrypt(ring, b, text) == Plain(plaintext) <==>
              exists key, nonce :: WrittenBy(ring, b, text, plaintext, key, nonce)
  {
    if Decrypt(ring, b, text) == Plain(plaintext) {
      var key, nonce := OpenedWasWritten(ring, b, text);
    }
    if key, nonce :| WrittenBy(ring, b, text, plaintext, key, nonce) {
      WrittenOpens(ring, b, text, plaintext, key, nonce);
    }
  }

  /** The bytes of a bound value open in no other text: not relabelled with another version or
      key id, not stripped of its header, and not at another binding, under any ring. */
  lemma RelabellingFails(ring: Ring, at: Binding, text: Text, key: Key, nonce: nat, b: Binding, plaintext: string)
    requires Usable(ring.keys) && Body(Sealed(DerivedKey(key), nonce, Aad(b, key.kid), plaintext)) in text
    ensures Decrypt(ring, at, text).Plain? ==> text == V2Text(key, nonce, b, plaintext) && at == b && key in ring.keys
  {
    if Decrypt(ring, at, text).Plain? {
      var k, n := OpenedWasWritten(ring, at, text);
      var got := Decrypt(ring, at, text).plaintext;
      var raw := Sealed(DerivedKey(key), nonce, Aad(b, key.kid), plaintext);
      if text == V2Text(k, n, at, got) {
        OnlyBody(Chars("v2"), Chars(k.kid), Sealed(DerivedKey(k), n, Aad(at, k.kid), got), raw);
        AadInjective(at, b, key.kid);
      } else if text == V1Text(k, n, got) {
        OnlyBody(Chars("v1"), Chars(k.kid), Sealed(DerivedKey(k), n, AadV1(k.kid), got), raw);
        AadsOfVersionsDiffer(b, key.kid, k.kid);
        assert false;
      } else {
        assert false;
      }
    }
  }

  lemma OnlyBody(version: Text, kid: Text, raw: Raw, other: Raw)
    requires (forall i :: 0 <= i < |version| ==> version[i].Ch?) && (forall i :: 0 <= i < |kid| ==> kid[i].Ch?)
    requires Body(other) in Dotted(version, kid, [Body(raw)])
    ensures other == raw
  {
  }

  // ---- rotation ----

  /** The ring left once rotation is over: the current key, bound values only. */
  function CurrentOnly(ring: Ring): Ring
    requires ring.keys != []
  {
    Ring([ring.keys[0]], false)
  }

  /** A value that needs no re-encryption reads the same, errors included, once the previous
      keys and the unbound formats are gone. */
  lemma CurrentReadsAlike(ring: Ring, b: Binding, text: Text)
    requires Usable(ring.keys) && !NeedsReencryption(ring, text)
    ensures Decrypt(ring, b, text) == Decrypt(CurrentOnly(ring), b, text)
  {
    DottedText(text, Split(text));
    DottedHasDot(Split(text)[0], Split(text)[1], Split(text)[2]);
  }

  /** And a readable value that does need it would be lost. */
  lemma NeedyReadsDiffer(ring: Ring, b: Binding, text: Text)
    requires Usable(ring.keys) && NeedsReencryption(ring, text) && Decrypt(ring, b, text).Plain?
    ensures Decrypt(CurrentOnly(ring), b, text).Refused?
  {
    if Decrypt(CurrentOnly(ring), b, text).Plain? {
      var key, nonce := OpenedWasWritten(CurrentOnly(ring), b, text);
      StoredParts("v2", key.kid,
          Sealed(DerivedKey(key), nonce, Aad(b, key.kid), Decrypt(CurrentOnly(ring), b, text).plaintext));
      assert false;
    }
  }

  /** What Encrypt writes needs no re-encryption and opens to what was written. */
  lemma EncryptedIsCurrent(ring: Ring, b: Binding, plaintext: string, nonce: nat)
    requires Usable(ring.keys) && Complete(b)
    ensures var text := Encrypt(ring, b, plaintext, nonce).value;
            !NeedsReencryption(ring, text) &&
                Decrypt(ring, b, text) == Plain(plaintext) == Decrypt(CurrentOnly(ring), b, text)
  {
    var key := ring.keys[0];
    StoredParts("v2", key.kid, Sealed(DerivedKey(key), nonce, Aad(b, key.kid), plaintext));
    SealedOpensExactlyThere(ring, key, nonce, b, plaintext, b);
    CurrentReadsAlike(ring, b, Encrypt(ring, b, plaintext, nonce).value);
  }
}
