/** secrets.go on values: which stored values a re-encryption pass must rewrite, what the other
    writers of the table are relied on for, and what a page and a rewrite are. */
module ReencryptSpec {
  import opened Storage
  import opened Keyring

  type Id = s: GoString | s != "" witness "a"

  /** The string columns of a record, and the records of one model by id. */
  type Record = map<GoString, Text>
  type Rows = map<Id, Record>

  /** What one pass works on: fields of one model, their values marked "enc:" or not. */
  datatype Pass = Pass(ring: Ring, model: GoString, marked: bool, fields: seq<GoString>)

  function Cell(row: Record, field: GoString): Text {
    if field in row then row[field] else []
  }

  function ValueAt(rows: Rows, id: Id, field: GoString): Text
    requires id in rows
  {
    Cell(rows[id], field)
  }

  const MARK: Text := Chars("enc:")

  /** The ciphertext in a stored value, when it holds one. */
  function BodyOf(marked: bool, stored: Text): Option<Text> {
    if marked then
      if |stored| > |MARK| && stored[..|MARK|] == MARK then Some(stored[|MARK|..]) else None
    else if stored == [] then None else Some(stored)
  }

  function Marked(marked: bool, body: Text): Text {
    if marked then MARK + body else body
  }

  predicate Needy(p: Pass, stored: Text)
    requires p.ring.keys != []
  {
    var body := BodyOf(p.marked, stored);
    body.Some? && NeedsReencryption(p.ring, body.value)
  }

  /** What a reader of the value gets under a ring; nothing when it is not a ciphertext. */
  function Read(p: Pass, ring: Ring, id: Id, field: GoString, stored: Text): Option<Opened> {
    match BodyOf(p.marked, stored)
    case None => None
    case Some(body) => Some(Decrypt(ring, Binding(p.model, id, field), body))
  }

  predicate Readable(p: Pass, id: Id, field: GoString, stored: Text) {
    var got := Read(p, p.ring, id, field, stored);
    got.Some? && got.value.Plain?
  }

  lemma MarkedBody(marked: bool, body: Text)
    requires body != []
    ensures BodyOf(marked, Marked(marked, body)) == Some(body)
  {
    if marked { assert (MARK + body)[..4] == MARK && (MARK + body)[4..] == body; }
  }

  // ---- counts ----

  datatype Counts = Counts(scanned: nat, rewritten: nat, unreadable: nat, skipped: nat, failed: nat)

  const ZERO := Counts(0, 0, 0, 0, 0)

  function Add(a: Counts, b: Counts): Counts {
    Counts(a.scanned + b.scanned, a.rewritten + b.rewritten, a.unreadable + b.unreadable, a.skipped + b.skipped,
        a.failed + b.failed)
  }

  /** ReencryptResult.Done. */
  predicate Done(c: Counts) {
    c.rewritten == 0 && c.unreadable == 0 && c.skipped == 0 && c.failed == 0
  }

  // ---- needy values ----

  predicate NeedyAt(p: Pass, rows: Rows, id: Id, field: GoString)
    requires p.ring.keys != []
  {
    id in rows && field in p.fields && Needy(p, ValueAt(rows, id, field))
  }

  /** Every needy value of the pass's fields is among these. */
  ghost predicate NeedyOnly(p: Pass, rows: Rows, among: iset<(Id, GoString)>)
    requires p.ring.keys != []
  {
    forall id, f {:trigger NeedyAt(p, rows, id, f)} :: NeedyAt(p, rows, id, f) ==> (id, f) in among
  }

  /** No value is made needy: a value is as it was, or not in need. */
  ghost predicate NothingMadeNeedy(p: Pass, before: Rows, after: Rows)
    requires p.ring.keys != []
  {
    forall id, f {:trigger NeedyAt(p, after, id, f)} :: NeedyAt(p, after, id, f) ==> NeedyAt(p, before, id, f)
  }

  lemma StaysAmong(p: Pass, before: Rows, after: Rows, among: iset<(Id, GoString)>)
    requires p.ring.keys != [] && NothingMadeNeedy(p, before, after) && NeedyOnly(p, before, among)
    ensures NeedyOnly(p, after, among)
  {
  }

  /** Once no value is in need, every value reads the same, errors included, under the whole
      ring and under the current key alone with unbound values rejected. */
  lemma SettledReadsAlike(p: Pass, rows: Rows, id: Id, field: GoString)
    requires Usable(p.ring.keys) && NeedyOnly(p, rows, iset{}) && id in rows && field in p.fields
    ensures Read(p, p.ring, id, field, ValueAt(rows, id, field)) ==
              Read(p, CurrentOnly(p.ring), id, field, ValueAt(rows, id, field))
  {
    var body := BodyOf(p.marked, ValueAt(rows, id, field));
    assert !NeedyAt(p, rows, id, field);
    if body.Some? {
      CurrentReadsAlike(p.ring, Binding(p.model, id, field), body.value);
    }
  }

  // ---- rewriting one value ----

  /** The same meaning, in need no more. */
  predicate Renewed(p: Pass, id: Id, field: GoString, before: Text, after: Text)
    requires p.ring.keys != []
  {
    Read(p, p.ring, id, field, after) == Read(p, p.ring, id, field, before) && !Needy(p, after)
  }

  /** The value written back: the plaintext sealed again. */
  function Resealed(p: Pass, id: Id, field: GoString, plaintext: string, nonce: nat): Option<Text>
    requires p.ring.keys != []
  {
    match Encrypt(p.ring, Binding(p.model, id, field), plaintext, nonce)
    case None => None
    case Some(body) => Some(Marked(p.marked, body))
  }

  lemma ResealedIsRenewed(p: Pass, id: Id, field: GoString, stored: Text, nonce: nat)
    requires Usable(p.ring.keys) && Readable(p, id, field, stored)
    ensures var r := Resealed(p, id, field, Read(p, p.ring, id, field, stored).value.plaintext, nonce);
            (r.Some? <==> p.model != "" && field != "") && (r.Some? ==> Renewed(p, id, field, stored, r.value))
  {
    var b, plaintext := Binding(p.model, id, field), Read(p, p.ring, id, field, stored).value.plaintext;
    if Complete(b) {
      var body := Encrypt(p.ring, b, plaintext, nonce).value;
      EncryptedIsCurrent(p.ring, b, plaintext, nonce);
      MarkedBody(p.marked, body);
    }
  }

  function Put(row: Record, field: GoString, value: Text): Record {
    map f: GoString | f in row.Keys + {field} :: if f == field then value else row[f]
  }

  /** rows with one value replaced. */
  function Replaced(rows: Rows, id: Id, field: GoString, value: Text): Rows
    requires id in rows
  {
    rows[id := Put(rows[id], field, value)]
  }

  /** A write of the pass: one value, found as it was read, now sealed anew with the same meaning. */
  predicate PassWrite(p: Pass, before: Rows, after: Rows, id: Id, field: GoString, stored: Text, value: Text)
    requires p.ring.keys != []
  {
    && id in before && field in p.fields && ValueAt(before, id, field) == stored
    && after == Replaced(before, id, field, value) && Renewed(p, id, field, stored, value)
  }

  lemma PassWriteMakesNoneNeedy(p: Pass, before: Rows, after: Rows, id: Id, field: GoString, stored: Text, value: Text)
    requires p.ring.keys != [] && PassWrite(p, before, after, id, field, stored, value)
    ensures NothingMadeNeedy(p, before, after)
  {
  }

  /** A reader of this value gets what it got before. */
  predicate SameReading(p: Pass, before: Rows, after: Rows, id: Id, field: GoString)
    requires id in before
  {
    id in after &&
        Read(p, p.ring, id, field, ValueAt(after, id, field)) == Read(p, p.ring, id, field, ValueAt(before, id, field))
  }

  // ---- pages ----

  predicate Ascending(ids: seq<Id>) {
    forall i, j :: 0 <= i < j < |ids| ==> StrLess(ids[i], ids[j])
  }

  /** The first ids past the cursor, at most limit of them, in order. */
  predicate IsPage(rows: Rows, last: GoString, limit: nat, ids: seq<Id>) {
    && |ids| <= limit && Ascending(ids)
    && (forall i :: 0 <= i < |ids| ==> ids[i] in rows && StrLess(last, ids[i]))
    && (forall id :: id in rows && StrLess(last, id) && id !in ids ==>
         |ids| == limit && (ids != [] ==> StrLess(ids[|ids| - 1], id)))
  }

  lemma {:induction false} HasLeast(s: set<Id>) returns (m: Id)
    requires s != {}
    ensures m in s && forall x :: x in s ==> x == m || StrLess(m, x)
  {
    m :| m in s;
    if s != {m} {
      var other := HasLeast(s - {m});
      StrOrder(m, other);
      if StrLess(other, m) {
        m := other;
      } else {
        forall x | x in s ensures x == m || StrLess(m, x) {
          if x != m && x != other { StrTransitive(m, other, x); }
        }
      }
    }
  }

  // ---- the table, its other writers and its faults ----

  datatype Fault = Fine | Missing | Dropped | Reported

  /** What happens around the n-th storage call: the other writers' writes since the call before,
      and whether the call fails: with ErrNotFound, with an error and no effect, or with an
      error reported after taking effect. */
  datatype Environment = Environment(writes: (nat, Rows) -> Rows, faults: nat -> Fault)

  function Written(env: Environment, n: nat, rows: Rows): Rows {
    env.writes(n, rows)
  }

  function FaultAt(env: Environment, n: nat): Fault {
    env.faults(n)
  }

  /** Writers write under the current key: whatever they leave behind was there or needs nothing. */
  ghost predicate WritersAreCurrent(p: Pass, env: Environment)
    requires p.ring.keys != []
  {
    forall n, rows {:trigger Written(env, n, rows)} :: NothingMadeNeedy(p, rows, Written(env, n, rows))
  }

  /** From some call on nobody inserts records, so that the cursor can catch up. */
  ghost predicate InsertsEnd(env: Environment, from: nat) {
    forall n, rows {:trigger Written(env, n, rows)} :: n >= from ==> Written(env, n, rows).Keys <= rows.Keys
  }

  ghost predicate Undisturbed(env: Environment) {
    && (forall n, rows {:trigger Written(env, n, rows)} :: Written(env, n, rows) == rows)
    && (forall n {:trigger FaultAt(env, n)} :: FaultAt(env, n) == Fine)
  }

  /** One write the pass made: the table as the call found it and left it. */
  datatype Write = Write(before: Rows, after: Rows, id: Id, field: GoString, stored: Text, value: Text)

  datatype State = State(step: nat, rows: Rows, log: seq<Write>)

  /** From the k-th on, the writes logged are writes of the pass. */
  predicate PassWrites(p: Pass, log: seq<Write>, k: nat)
    requires p.ring.keys != []
  {
    forall j {:trigger log[j]} :: k <= j < |log| ==>
      PassWrite(p, log[j].before, log[j].after, log[j].id, log[j].field, log[j].stored, log[j].value)
  }

  /** The other writers leave what a reader of this value gets alone. */
  ghost predicate Spared(p: Pass, env: Environment, id: Id, field: GoString) {
    forall n, rows {:trigger Written(env, n, rows)} :: id in rows ==>
        SameReading(p, rows, Written(env, n, rows), id, field)
  }

  /** Readers of values that the other writers leave alone see no difference. */
  ghost predicate Invisible(p: Pass, env: Environment, before: Rows, after: Rows) {
    forall id, f {:trigger Spared(p, env, id, f)} :: Spared(p, env, id, f) && id in before ==>
        SameReading(p, before, after, id, f)
  }

  /** What any stretch of the pass keeps: no value is made needy, no reading is changed, and the
      pass's own writes only seal values anew where they are found as read; from some call on,
      no record appears. */
  ghost predicate Advanced(p: Pass, env: Environment, from: nat, s: State, t: State)
    requires p.ring.keys != []
  {
    && s.step <= t.step && NothingMadeNeedy(p, s.rows, t.rows) && Invisible(p, env, s.rows, t.rows)
    && s.log <= t.log && PassWrites(p, t.log, |s.log|)
    && (s.step >= from ==> t.rows.Keys <= s.rows.Keys)
  }

  lemma AdvancedTwice(p: Pass, env: Environment, from: nat, s: State, t: State, u: State)
    requires p.ring.keys != [] && Advanced(p, env, from, s, t) && Advanced(p, env, from, t, u)
    ensures Advanced(p, env, from, s, u)
  {
    forall j | |s.log| <= j < |u.log|
      ensures PassWrite(p, u.log[j].before, u.log[j].after, u.log[j].id, u.log[j].field, u.log[j].stored,
                u.log[j].value)
    {
      if j < |t.log| { assert u.log[j] == t.log[j]; }
    }
  }

  lemma WritersAdvance(p: Pass, env: Environment, from: nat, s: State)
    requires p.ring.keys != [] && WritersAreCurrent(p, env) && InsertsEnd(env, from)
    ensures Advanced(p, env, from, s, State(s.step + 1, Written(env, s.step, s.rows), s.log))
  {
  }

  lemma PassWriteAdvances(p: Pass, env: Environment, from: nat, s: State, w: Write)
    requires p.ring.keys != [] && PassWrite(p, w.before, w.after, w.id, w.field, w.stored, w.value)
    requires s.rows == w.before
    ensures Advanced(p, env, from, s, State(s.step, w.after, s.log + [w]))
  {
    PassWriteMakesNoneNeedy(p, w.before, w.after, w.id, w.field, w.stored, w.value);
  }

  // ---- an undisturbed pass ----

  /** The counts of one value. */
  function OneOf(p: Pass, id: Id, field: GoString, stored: Text): Counts
    requires p.ring.keys != []
  {
    if BodyOf(p.marked, stored).None? then ZERO
    else if !Needy(p, stored) then Counts(1, 0, 0, 0, 0)
    else if Readable(p, id, field, stored) then Counts(1, 1, 0, 0, 0)
    else Counts(1, 0, 1, 0, 0)
  }

  function TallyRow(p: Pass, id: Id, row: Record, fields: seq<GoString>): Counts
    requires p.ring.keys != []
  {
    if fields == [] then ZERO
    else
      var last := fields[|fields| - 1];
      Add(TallyRow(p, id, row, fields[..|fields| - 1]), OneOf(p, id, last, Cell(row, last)))
  }

  function Tally(p: Pass, rows: Rows, ids: seq<Id>): Counts
    requires p.ring.keys != [] && forall i :: 0 <= i < |ids| ==> ids[i] in rows
  {
    if ids == [] then ZERO
    else
      var last := ids[|ids| - 1];
      Add(Tally(p, rows, ids[..|ids| - 1]), TallyRow(p, last, rows[last], p.fields))
  }

  predicate SameCell(before: Record, after: Record, f: GoString) {
    (f in after <==> f in before) && (f in before ==> after[f] == before[f])
  }

  predicate CellRenewed(p: Pass, id: Id, before: Record, after: Record, f: GoString)
    requires p.ring.keys != []
  {
    if f in before && Needy(p, before[f]) && Readable(p, id, f, before[f]) then
        f in after && Renewed(p, id, f, before[f], after[f])
    else SameCell(before, after, f)
  }

  /** The values of these fields renewed, every other column as it was. */
  ghost predicate RowRenewed(p: Pass, id: Id, before: Record, after: Record, fields: seq<GoString>)
    requires p.ring.keys != []
  {
    && (forall f {:trigger CellRenewed(p, id, before, after, f)} :: f in fields ==>
         CellRenewed(p, id, before, after, f))
    && (forall f {:trigger SameCell(before, after, f)} :: f !in fields ==> SameCell(before, after, f))
  }

  /** These records renewed, every other record as it was. */
  ghost predicate RowsRenewed(p: Pass, before: Rows, after: Rows, ids: seq<Id>)
    requires p.ring.keys != []
  {
    && after.Keys == before.Keys
    && forall id {:trigger id in before} :: id in before ==>
         if id in ids then RowRenewed(p, id, before[id], after[id], p.fields) else after[id] == before[id]
  }

  /** One value of an undisturbed table handled. */
  ghost predicate ValueHandled(p: Pass, before: Rows, after: Rows, id: Id, field: GoString, one: Counts)
    requires p.ring.keys != [] && id in before
  {
    && one == OneOf(p, id, field, ValueAt(before, id, field))
    && if one.rewritten == 1 then
         exists value :: PassWrite(p, before, after, id, field, ValueAt(before, id, field), value) else after == before
  }

  lemma RowGrows(p: Pass, id: Id, rows0: Rows, rows: Rows, after: Rows, k: nat, one: Counts)
    requires p.ring.keys != [] && k < |p.fields| && p.fields[k] !in p.fields[..k]
    requires id in rows0 && rows.Keys == rows0.Keys && RowRenewed(p, id, rows0[id], rows[id], p.fields[..k])
    requires ValueHandled(p, rows, after, id, p.fields[k], one)
    ensures after.Keys == rows.Keys && RowRenewed(p, id, rows0[id], after[id], p.fields[..k + 1])
    ensures one == OneOf(p, id, p.fields[k], Cell(rows0[id], p.fields[k]))
    ensures forall i :: i in rows && i != id ==> after[i] == rows[i]
  {
    var f := p.fields[k];
    assert SameCell(rows0[id], rows[id], f);
    assert p.fields[..k + 1] == p.fields[..k] + [f];
    if one.rewritten == 1 {
      var stored := ValueAt(rows, id, f);
      var value :| PassWrite(p, rows, after, id, f, stored, value);
      assert after[id] == Put(rows[id], f, value);
      assert BodyOf(p.marked, stored).Some? && f in rows[id];
      forall g | g in p.fields[..k + 1] ensures CellRenewed(p, id, rows0[id], after[id], g) {
        if g != f { assert CellRenewed(p, id, rows0[id], rows[id], g); }
      }
      forall g | g !in p.fields[..k + 1] ensures SameCell(rows0[id], after[id], g) {
        assert SameCell(rows0[id], rows[id], g);
      }
    }
  }

  lemma RowsGrow(p: Pass, rows0: Rows, rows: Rows, after: Rows, ids: seq<Id>, id: Id)
    requires p.ring.keys != [] && RowsRenewed(p, rows0, rows, ids) && id in rows0 && id !in ids
    requires after.Keys == rows.Keys && RowRenewed(p, id, rows0[id], after[id], p.fields)
    requires forall i :: i in rows && i != id ==> after[i] == rows[i]
    ensures RowsRenewed(p, rows0, after, ids + [id])
  {
  }

  /** A row renewed twice is renewed once: nothing readable is left in need. */
  lemma RenewedRowIsSettled(p: Pass, id: Id, row: Record, after: Record, again: Record)
    requires p.ring.keys != [] && RowRenewed(p, id, row, after, p.fields) && RowRenewed(p, id, after, again, p.fields)
    ensures again == after
  {
    forall f: GoString ensures SameCell(after, again, f) {
      if f in p.fields {
        assert CellRenewed(p, id, row, after, f);
        assert CellRenewed(p, id, after, again, f);
      }
    }
    forall f: GoString ensures (f in again <==> f in after) && (f in after ==> again[f] == after[f]) {
      assert SameCell(after, again, f);
    }
    assert again.Keys == after.Keys;
  }

  /** A second undisturbed pass changes nothing. */
  lemma SecondPassChangesNothing(p: Pass, rows: Rows, after: Rows, again: Rows, ids: seq<Id>)
    requires p.ring.keys != [] && (forall id :: id in rows ==> id in ids)
    requires RowsRenewed(p, rows, after, ids) && RowsRenewed(p, after, again, ids)
    ensures again == after
  {
    forall id | id in after ensures id in again && again[id] == after[id] {
      assert id in rows;
      RenewedRowIsSettled(p, id, rows[id], after[id], again[id]);
    }
  }

  lemma {:induction false} RenewedRowTally(p: Pass, id: Id, row: Record, after: Record, fields: seq<GoString>)
    requires p.ring.keys != [] && RowRenewed(p, id, row, after, p.fields) && forall f :: f in fields ==> f in p.fields
    ensures TallyRow(p, id, after, fields).rewritten == 0
    ensures TallyRow(p, id, after, fields).unreadable == TallyRow(p, id, row, fields).unreadable
    ensures TallyRow(p, id, after, fields).skipped == 0 && TallyRow(p, id, after, fields).failed == 0
  {
    if fields != [] {
      var last := fields[|fields| - 1];
      RenewedRowTally(p, id, row, after, fields[..|fields| - 1]);
      assert last in fields;
      assert CellRenewed(p, id, row, after, last);
    }
  }

  /** And rewrites nothing: what is still unreadable is all it has to report. */
  lemma {:induction false} SecondPassRewritesNothing(p: Pass, rows: Rows, after: Rows, ids: seq<Id>, some: seq<Id>)
    requires p.ring.keys != [] && RowsRenewed(p, rows, after, ids)
    requires forall id :: id in some ==> id in rows && id in ids
    ensures Tally(p, after, some).rewritten == 0 && Tally(p, after, some).unreadable == Tally(p, rows, some).unreadable
    ensures Tally(p, after, some).skipped == 0 && Tally(p, after, some).failed == 0
  {
    if some != [] {
      var last := some[|some| - 1];
      assert last in some;
      SecondPassRewritesNothing(p, rows, after, ids, some[..|some| - 1]);
      RenewedRowTally(p, last, rows[last], after[last], p.fields);
    }
  }

  /** Every plaintext is preserved: a reader under the ring gets what it got before. */
  lemma RenewedReadsAlike(p: Pass, rows: Rows, after: Rows, ids: seq<Id>, id: Id, f: GoString)
    requires p.ring.keys != [] && RowsRenewed(p, rows, after, ids) && id in rows
    ensures Read(p, p.ring, id, f, ValueAt(after, id, f)) == Read(p, p.ring, id, f, ValueAt(rows, id, f))
  {
    if id in ids {
      if f in p.fields { assert CellRenewed(p, id, rows[id], after[id], f); }
          else { assert SameCell(rows[id], after[id], f); }
    }
  }
}
