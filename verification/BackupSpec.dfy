/** plugins/twofactor/twofactor.go: one twoFactor row under concurrent backup-code verification,
    regeneration, TOTP verification and re-encryption. Every storage call is one event. */
module BackupSpec {
  import opened Storage
  import opened Keyring
  import opened ReencryptSpec

  /** JSON encoding of the list of codes. */
  datatype Codec = Codec(marshal: seq<string> -> string, unmarshal: string -> Option<seq<string>>)

  function Marshal(codec: Codec, codes: seq<string>): string {
    codec.marshal(codes)
  }

  function Unmarshal(codec: Codec, raw: string): Option<seq<string>> {
    codec.unmarshal(raw)
  }

  /** The row: the ring it is sealed under, the model it is in, its id. */
  datatype Setup = Setup(ring: Ring, codec: Codec, model: GoString, id: Id)

  const FIELD: GoString := "backupCodes"

  ghost predicate Proper(p: Setup) {
    && Usable(p.ring.keys) && p.model != ""
    && forall codes {:trigger Marshal(p.codec, codes)} :: Unmarshal(p.codec, Marshal(p.codec, codes)) == Some(codes)
  }

  function Place(p: Setup): Binding {
    Binding(p.model, p.id, FIELD)
  }

  /** decryptBackupCodes. */
  function CodesIn(p: Setup, text: Text): Option<seq<string>> {
    match Decrypt(p.ring, Place(p), text)
    case Plain(raw) => Unmarshal(p.codec, raw)
    case Refused(_) => None
  }

  /** encryptBackupCodes. */
  function SealCodes(p: Setup, codes: seq<string>, nonce: nat): Text
    requires p.ring.keys != [] && p.model != ""
  {
    Encrypt(p.ring, Place(p), Marshal(p.codec, codes), nonce).value
  }

  lemma SealedCodes(p: Setup, codes: seq<string>, nonce: nat)
    requires Proper(p)
    ensures CodesIn(p, SealCodes(p, codes, nonce)) == Some(codes)
  {
    EncryptedIsCurrent(p.ring, Place(p), Marshal(p.codec, codes), nonce);
  }

  /** What the re-encryption pass writes back for a value of this column, when it can. */
  function PassOf(p: Setup): Pass {
    Pass(p.ring, p.model, false, [FIELD])
  }

  lemma ResealedCodes(p: Setup, text: Text, nonce: nat)
    requires Proper(p) && Readable(PassOf(p), p.id, FIELD, text)
    ensures var r :=
              Resealed(PassOf(p), p.id, FIELD, Read(PassOf(p), p.ring, p.id, FIELD, text).value.plaintext, nonce);
            r.Some? && CodesIn(p, r.value) == CodesIn(p, text)
  {
    ResealedIsRenewed(PassOf(p), p.id, FIELD, text, nonce);
  }

  // ---- the row and its history ----

  /** What an operation read. */
  datatype Loaded = Loaded(codes: Text, last: int)

  /** The columns, what each operation in progress has read, and the history since the codes were
      last generated: the codes generated, those accepted, and those spent by a call whose
      answer was lost. steps lists the TOTP time steps accepted. */
  datatype Factor = Factor(codes: Text, last: int, loaded: map<nat, Loaded>, generated: seq<string>,
                         accepted: multiset<string>, lost: multiset<string>, steps: seq<int>)

  datatype Event =
    | Load(op: nat)
    | UseCode(op: nat, code: string, nonce: nat, answerLost: bool)
    | Regenerate(codes: seq<string>, nonce: nat)
    | Reseal(op: nat, nonce: nat)
    | ClaimStep(op: nat, counter: int, answerLost: bool)

  /** The first position of the code, the length when it is absent. */
  function IndexOf(codes: seq<string>, code: string): (i: nat)
    ensures i <= |codes| && (i < |codes| ==> codes[i] == code) && (i == |codes| <==> code !in codes)
  {
    if codes == [] then 0 else if codes[0] == code then 0 else 1 + IndexOf(codes[1..], code)
  }

  function Without(codes: seq<string>, code: string): seq<string>
    requires code in codes
  {
    var i := IndexOf(codes, code);
    codes[..i] + codes[i + 1..]
  }

  predicate Allowed(p: Setup, s: Factor, e: Event) {
    match e
    case Load(_) => true
    case UseCode(op, code, _, _) =>
        op in s.loaded && CodesIn(p, s.loaded[op].codes).Some? && code in CodesIn(p, s.loaded[op].codes).value
    case Regenerate(_, _) => true
    case Reseal(op, _) => op in s.loaded && Readable(PassOf(p), p.id, FIELD, s.loaded[op].codes)
    case ClaimStep(op, counter, _) => op in s.loaded && counter > s.loaded[op].last
  }

  /** Writes are compare-and-set on the value read, except regeneration. */
  function Next(p: Setup, s: Factor, e: Event): Factor
    requires p.ring.keys != [] && p.model != "" && Allowed(p, s, e)
  {
    match e
    case Load(op) => s.(loaded := s.loaded[op := Loaded(s.codes, s.last)])
    case UseCode(op, code, nonce, answerLost) =>
      var read := s.loaded[op].codes;
      if s.codes != read then s
      else
        var t := s.(codes := SealCodes(p, Without(CodesIn(p, read).value, code), nonce));
        if answerLost then t.(lost := s.lost + multiset{code}) else t.(accepted := s.accepted + multiset{code})
    case Regenerate(codes, nonce) =>
        s.(codes := SealCodes(p, codes, nonce), generated := codes, accepted := multiset{}, lost := multiset{})
    case Reseal(op, nonce) =>
      var read := s.loaded[op].codes;
      if s.codes != read then s
      else
        var text := Resealed(PassOf(p), p.id, FIELD, Read(PassOf(p), p.ring, p.id, FIELD, read).value.plaintext, nonce);
        if text.None? then s else s.(codes := text.value)
    case ClaimStep(op, counter, answerLost) =>
      if s.last != s.loaded[op].last then s
      else s.(last := counter, steps := if answerLost then s.steps else s.steps + [counter])
  }

  predicate AllAllowed(p: Setup, s: Factor, es: seq<Event>)
    requires p.ring.keys != [] && p.model != ""
    decreases |es|
  {
    es == [] || (Allowed(p, s, es[0]) && AllAllowed(p, Next(p, s, es[0]), es[1..]))
  }

  function Run(p: Setup, s: Factor, es: seq<Event>): Factor
    requires p.ring.keys != [] && p.model != "" && AllAllowed(p, s, es)
    decreases |es|
  {
    if es == [] then s else Run(p, Next(p, s, es[0]), es[1..])
  }

  /** The row as enrolment creates it. */
  function Enrol(p: Setup, codes: seq<string>, nonce: nat): Factor
    requires p.ring.keys != [] && p.model != ""
  {
    Factor(SealCodes(p, codes, nonce), 0, map[], codes, multiset{}, multiset{}, [])
  }

  // ---- conservation ----

  /** Every code generated is still in the list, accepted, or spent by a call that was lost. */
  predicate Conserved(p: Setup, s: Factor) {
    CodesIn(p, s.codes).Some? && multiset(s.generated) == multiset(CodesIn(p, s.codes).value) + s.accepted + s.lost
  }

  /** Accepted time steps increase, and none is above the one stored. */
  predicate StepsClimb(s: Factor) {
    (forall i, j :: 0 <= i < j < |s.steps| ==> s.steps[i] < s.steps[j]) &&
        forall i :: 0 <= i < |s.steps| ==> s.steps[i] <= s.last
  }

  lemma WithoutTakesOne(codes: seq<string>, code: string)
    requires code in codes
    ensures multiset(Without(codes, code)) + multiset{code} == multiset(codes)
  {
    var i := IndexOf(codes, code);
    assert codes == codes[..i] + [code] + codes[i + 1..];
  }

  lemma ConservedStep(p: Setup, s: Factor, e: Event)
    requires Proper(p) && Conserved(p, s) && Allowed(p, s, e)
    ensures Conserved(p, Next(p, s, e))
  {
    match e
    case UseCode(op, code, nonce, _) =>
      if s.codes == s.loaded[op].codes {
        var codes := CodesIn(p, s.codes).value;
        SealedCodes(p, Without(codes, code), nonce);
        WithoutTakesOne(codes, code);
      }
    case Regenerate(codes, nonce) => SealedCodes(p, codes, nonce);
    case Reseal(op, nonce) => if s.codes == s.loaded[op].codes { ResealedCodes(p, s.codes, nonce); }
    case _ =>
  }

  lemma StepsClimbStep(p: Setup, s: Factor, e: Event)
    requires p.ring.keys != [] && p.model != "" && StepsClimb(s) && Allowed(p, s, e)
    ensures StepsClimb(Next(p, s, e))
  {
  }

  /** Re-encryption neither brings a code back nor takes one away. */
  lemma ResealKeepsCodes(p: Setup, s: Factor, op: nat, nonce: nat)
    requires Proper(p) && Allowed(p, s, Reseal(op, nonce))
    ensures var t := Next(p, s, Reseal(op, nonce));
            CodesIn(p, t.codes) == CodesIn(p, s.codes) && t == s.(codes := t.codes)
  {
    if s.codes == s.loaded[op].codes { ResealedCodes(p, s.codes, nonce); }
  }

  lemma {:induction false} ConservedRun(p: Setup, s: Factor, es: seq<Event>)
    requires Proper(p) && Conserved(p, s) && StepsClimb(s) && AllAllowed(p, s, es)
    ensures Conserved(p, Run(p, s, es)) && StepsClimb(Run(p, s, es))
    decreases |es|
  {
    if es != [] {
      ConservedStep(p, s, es[0]);
      StepsClimbStep(p, s, es[0]);
      ConservedRun(p, Next(p, s, es[0]), es[1..]);
    }
  }

  /** Over every interleaving: a code generated once is accepted at most once since, and once
      accepted it is no longer in the list; accepted time steps strictly increase. */
  lemma CodesAcceptedOnce(p: Setup, codes: seq<string>, nonce: nat, es: seq<Event>, code: string)
    requires Proper(p) && AllAllowed(p, Enrol(p, codes, nonce), es)
    ensures var s := Run(p, Enrol(p, codes, nonce), es);
            && CodesIn(p, s.codes).Some?
            && s.accepted[code] + multiset(CodesIn(p, s.codes).value)[code] + s.lost[code] ==
                 multiset(s.generated)[code]
            && (multiset(s.generated)[code] <= 1 ==>
                 s.accepted[code] <= 1 && (s.accepted[code] == 1 ==> code !in CodesIn(p, s.codes).value))
            && StepsClimb(s)
  {
    SealedCodes(p, codes, nonce);
    ConservedRun(p, Enrol(p, codes, nonce), es);
  }
}
