/** secrets.go: the batched re-encryption pass beside other writers. */
module Reencrypt {
  import opened Storage
  import opened Keyring
  import opened ReencryptSpec

  const BATCH := 200

  /** One model's table. Before each call takes effect the other writers have had their turn. */
  class Database {
    const env: Environment
    /** Records without a string id: they sort first and nothing addresses them. */
    const blank: nat
    var rows: Rows
    var step: nat
    ghost var log: seq<Write>

    constructor (rows: Rows, env: Environment, blank: nat)
      ensures this.rows == rows && this.env == env && this.blank == blank && step == 0 && log == []
    {
      this.rows, this.env, this.blank, step, log := rows, env, blank, 0, [];
    }

    ghost function Now(): State
      reads this
    {
      State(step, rows, log)
    }

    /** FindMany where id > last, in id order, limited. */
    method FindPage(last: GoString, limit: nat) returns (failed: bool, blanks: nat, ids: seq<Id>, records: seq<Record>)
      modifies this
      ensures Now() == State(old(step) + 1, Written(env, old(step), old(rows)), old(log))
      ensures failed == (FaultAt(env, old(step)) != Fine)
      ensures blanks == if last != "" then 0 else if blank < limit then blank else limit
      ensures IsPage(rows, last, limit - blanks, ids) && Snapshots(rows, ids, records)
    {
      failed := FaultAt(env, step) != Fine;
      rows := Written(env, step, rows);
      step := step + 1;
      blanks := if last != "" then 0 else if blank < limit then blank else limit;
      ids := FirstIds(rows, last, limit - blanks);
      var found, seen := ids, rows;
      records := seq(|found|, i requires 0 <= i < |found| && found[i] in seen => seen[found[i]]);
    }

    /** UpdateMany where id and field are as given: a compare-and-set. */
    method UpdateWhere(id: Id, field: GoString, stored: Text, value: Text) returns (n: nat, fault: Fault)
      modifies this
      ensures step == old(step) + 1 && fault == FaultAt(env, old(step))
      ensures var seen := Written(env, old(step), old(rows));
      var hit := id in seen && field in seen[id] && seen[id][field] == stored;
              && n == (if hit then 1 else 0)
              && if hit && fault in {Fine, Reported} then
                   rows == Replaced(seen, id, field, value) &&
                       log == old(log) + [Write(seen, rows, id, field, stored, value)]
                 else rows == seen && log == old(log)
    {
      fault := FaultAt(env, step);
      rows := Written(env, step, rows);
      step := step + 1;
      n := 0;
      if id in rows && field in rows[id] && rows[id][field] == stored {
        n := 1;
        if fault in {Fine, Reported} {
          ghost var seen := rows;
          rows := Replaced(rows, id, field, value);
          log := log + [Write(seen, rows, id, field, stored, value)];
        }
      }
    }
  }

  predicate Snapshots(rows: Rows, ids: seq<Id>, records: seq<Record>) {
    |records| == |ids| && forall i :: 0 <= i < |ids| ==> ids[i] in rows && records[i] == rows[ids[i]]
  }

  method FirstIds(rows: Rows, last: GoString, limit: nat) returns (ids: seq<Id>)
    ensures IsPage(rows, last, limit, ids)
  {
    ids := [];
    var left := set id | id in rows && StrLess(last, id);
    while |ids| < limit && left != {}
      invariant |ids| <= limit && Ascending(ids)
      invariant forall i :: 0 <= i < |ids| ==> ids[i] in rows && StrLess(last, ids[i])
      invariant forall id :: id in left ==> id in rows && StrLess(last, id)
      invariant forall id, i :: id in left && 0 <= i < |ids| ==> StrLess(ids[i], id)
      invariant forall id :: id in rows && StrLess(last, id) ==> id in left || id in ids
      decreases left
    {
      ghost var _ := HasLeast(left);
      var m :| m in left && forall x :: x in left ==> x == m || StrLess(m, x);
      ids := ids + [m];
      left := left - {m};
    }
  }

  /** What a pass relies on. */
  ghost predicate Sound(p: Pass, env: Environment, from: nat) {
    Usable(p.ring.keys) && WritersAreCurrent(p, env) && InsertsEnd(env, from)
  }

  /** Nobody else writes, nothing fails, and every value has a place to be bound to. */
  ghost predicate Quiet(p: Pass, env: Environment) {
    Undisturbed(env) && p.model != "" && "" !in p.fields &&
        forall i, j :: 0 <= i < j < |p.fields| ==> p.fields[i] != p.fields[j]
  }

  lemma UpdateAdvances(p: Pass, env: Environment, from: nat, s: State, t: State, id: Id, field: GoString, stored: Text,
      value: Text)
    requires Sound(p, env, from) && field in p.fields && Renewed(p, id, field, stored, value) && t.step == s.step + 1
    requires var seen := Written(env, s.step, s.rows);
             if id in seen && ValueAt(seen, id, field) == stored && t.rows != seen
             then t.rows == Replaced(seen, id, field, value) &&
                 t.log == s.log + [Write(seen, t.rows, id, field, stored, value)]
             else t.rows == seen && t.log == s.log
    ensures Advanced(p, env, from, s, t)
  {
    var seen := Written(env, s.step, s.rows);
    var mid := State(s.step + 1, seen, s.log);
    WritersAdvance(p, env, from, s);
    if t != mid {
      PassWriteAdvances(p, env, from, mid, Write(seen, t.rows, id, field, stored, value));
      AdvancedTwice(p, env, from, s, mid, t);
    }
  }

  method ReencryptField(db: Database, p: Pass, ghost from: nat, id: Id, field: GoString, stored: Text)
      returns (one: Counts, err: bool)
    requires Sound(p, db.env, from) && field in p.fields
    modifies db
    ensures Advanced(p, db.env, from, old(db.Now()), db.Now())
    ensures Needy(p, stored) ==> !Done(one)
    ensures !Needy(p, stored) ==> db.Now() == old(db.Now())
    ensures Quiet(p, db.env) && id in old(db.rows) && ValueAt(old(db.rows), id, field) == stored ==>
              !err && ValueHandled(p, old(db.rows), db.rows, id, field, one)
  {
    one, err := ZERO, false;
    var body := BodyOf(p.marked, stored);
    if body.None? {
      return;
    }
    one := one.(scanned := 1);
    if !NeedsReencryption(p.ring, body.value) {
      return;
    }
    var plain := Decrypt(p.ring, Binding(p.model, id, field), body.value);
    if plain.Refused? {
      one := one.(unreadable := 1);
      return;
    }
    var value := Resealed(p, id, field, plain.plaintext, db.step);
    ResealedIsRenewed(p, id, field, stored, db.step);
    if value.None? {
      one := one.(failed := 1);
      return one, true;
    }
    var n, fault := db.UpdateWhere(id, field, stored, value.value);
    UpdateAdvances(p, db.env, from, old(db.Now()), db.Now(), id, field, stored, value.value);
    if fault == Missing {
      one := one.(skipped := 1);
    } else if fault != Fine {
      one := one.(failed := 1);
      err := true;
    } else if n == 0 {
      one := one.(skipped := 1);
    } else {
      one := one.(rewritten := 1);
      if Undisturbed(db.env) && id in old(db.rows) && ValueAt(old(db.rows), id, field) == stored {
        ValueRewritten(p, old(db.rows), db.rows, id, field, value.value);
      }
    }
  }

  lemma ValueRewritten(p: Pass, before: Rows, after: Rows, id: Id, field: GoString, value: Text)
    requires p.ring.keys != [] && id in before && field in p.fields && Needy(p, ValueAt(before, id, field))
    requires Readable(p, id, field, ValueAt(before, id, field))
    requires after == Replaced(before, id, field, value) && Renewed(p, id, field, ValueAt(before, id, field), value)
    ensures ValueHandled(p, before, after, id, field, Counts(1, 1, 0, 0, 0))
  {
    assert PassWrite(p, before, after, id, field, ValueAt(before, id, field), value);
  }

  predicate NoneNeedy(p: Pass, record: Record, fields: seq<GoString>)
    requires p.ring.keys != []
  {
    forall f :: f in fields ==> !Needy(p, Cell(record, f))
  }

  predicate NoneNeedyIn(p: Pass, records: seq<Record>)
    requires p.ring.keys != []
  {
    forall i :: 0 <= i < |records| ==> NoneNeedy(p, records[i], p.fields)
  }

  /** One record of an undisturbed table handled. */
  ghost predicate RecordHandled(p: Pass, before: Rows, after: Rows, id: Id, k: nat, sum: Counts)
    requires p.ring.keys != [] && k <= |p.fields| && id in before
  {
    && after.Keys == before.Keys && RowRenewed(p, id, before[id], after[id], p.fields[..k])
    && (forall i :: i in before && i != id ==> after[i] == before[i])
    && sum == TallyRow(p, id, before[id], p.fields[..k])
  }

  lemma RecordBegins(p: Pass, before: Rows, id: Id)
    requires p.ring.keys != [] && id in before
    ensures RecordHandled(p, before, before, id, 0, ZERO)
  {
  }

  lemma RecordStep(p: Pass, before: Rows, mid: Rows, after: Rows, id: Id, k: nat, sum: Counts, one: Counts)
    requires p.ring.keys != [] && k < |p.fields| && p.fields[k] !in p.fields[..k] && id in before
    requires RecordHandled(p, before, mid, id, k, sum) && ValueHandled(p, mid, after, id, p.fields[k], one)
    ensures RecordHandled(p, before, after, id, k + 1, Add(sum, one))
  {
    RowGrows(p, id, before, mid, after, k, one);
    assert p.fields[..k + 1][..k] == p.fields[..k];
  }

  lemma UntouchedCell(p: Pass, before: Rows, mid: Rows, id: Id, k: nat, sum: Counts)
    requires p.ring.keys != [] && k < |p.fields| && p.fields[k] !in p.fields[..k] && id in before
    requires RecordHandled(p, before, mid, id, k, sum)
    ensures ValueAt(mid, id, p.fields[k]) == ValueAt(before, id, p.fields[k])
  {
    assert SameCell(before[id], mid[id], p.fields[k]);
  }

  /** Handling k fields of a record, begun in the state `start`, has come this far. */
  ghost predicate FieldsDone(p: Pass, db: Database, from: nat, id: Id, record: Record, start: State, now: State, k: nat,
      sum: Counts, errs: nat)
    requires p.ring.keys != [] && k <= |p.fields|
  {
    && Advanced(p, db.env, from, start, now)
    && (Done(sum) ==> NoneNeedy(p, record, p.fields[..k]))
    && (Quiet(p, db.env) && id in start.rows && start.rows[id] == record ==>
          errs == 0 && RecordHandled(p, start.rows, now.rows, id, k, sum))
  }

  method NextField(db: Database, p: Pass, ghost from: nat, id: Id, record: Record, ghost start: State, k: nat,
      sum0: Counts, errs0: nat)
      returns (sum: Counts, errs: nat)
    requires Sound(p, db.env, from) && k < |p.fields|
    requires FieldsDone(p, db, from, id, record, start, db.Now(), k, sum0, errs0)
    modifies db
    ensures FieldsDone(p, db, from, id, record, start, db.Now(), k + 1, sum, errs)
  {
    ghost var mid := db.Now();
    ghost var quiet := Quiet(p, db.env) && id in start.rows && start.rows[id] == record;
    if quiet { UntouchedCell(p, start.rows, mid.rows, id, k, sum0); }
    var one, err := ReencryptField(db, p, from, id, p.fields[k], Cell(record, p.fields[k]));
    AdvancedTwice(p, db.env, from, start, mid, db.Now());
    if quiet { RecordStep(p, start.rows, mid.rows, db.rows, id, k, sum0, one); }
    sum := Add(sum0, one);
    errs := errs0 + if err then 1 else 0;
    assert p.fields[..k + 1] == p.fields[..k] + [p.fields[k]];
  }

  method ReencryptRecord(db: Database, p: Pass, ghost from: nat, id: Id, record: Record)
      returns (sum: Counts, errs: nat)
    requires Sound(p, db.env, from)
    modifies db
    ensures FieldsDone(p, db, from, id, record, old(db.Now()), db.Now(), |p.fields|, sum, errs)
  {
    sum, errs := ZERO, 0;
    if id in db.rows { RecordBegins(p, db.rows, id); }
    for k := 0 to |p.fields|
      invariant FieldsDone(p, db, from, id, record, old(db.Now()), db.Now(), k, sum, errs)
    {
      sum, errs := NextField(db, p, from, id, record, old(db.Now()), k, sum, errs);
    }
  }

  /** How far an undisturbed pass has come: these records, in order, and the counts they make. */
  ghost predicate Progress(p: Pass, before: Rows, now: Rows, seen: seq<Id>, res: Counts)
    requires p.ring.keys != []
  {
    && (forall i :: 0 <= i < |seen| ==> seen[i] in before) && Ascending(seen)
    && RowsRenewed(p, before, now, seen) && res == Tally(p, before, seen)
  }

  lemma ProgressGrows(p: Pass, before: Rows, now: Rows, after: Rows, seen: seq<Id>, res: Counts, id: Id, sum: Counts)
    requires p.ring.keys != [] && Progress(p, before, now, seen, res) && id in before && id !in seen
    requires forall i :: 0 <= i < |seen| ==> StrLess(seen[i], id)
    requires RecordHandled(p, now, after, id, |p.fields|, sum)
    ensures Progress(p, before, after, seen + [id], Add(res, sum))
  {
    assert p.fields[..|p.fields|] == p.fields;
    assert now[id] == before[id];
    RowsGrow(p, before, now, after, seen, id);
    TallyGrows(p, before, seen, id);
  }

  lemma TallyGrows(p: Pass, rows: Rows, seen: seq<Id>, id: Id)
    requires p.ring.keys != [] && id in rows && forall i :: 0 <= i < |seen| ==> seen[i] in rows
    ensures Tally(p, rows, seen + [id]) == Add(Tally(p, rows, seen), TallyRow(p, id, rows[id], p.fields))
  {
    assert (seen + [id])[..|seen|] == seen;
  }

  /** k records of a page handled, the page met after `seen` in an otherwise undisturbed table. */
  ghost predicate QuietPage(p: Pass, before: Rows, now: Rows, seen: seq<Id>, ids: seq<Id>, records: seq<Record>, k: nat,
      res: Counts)
    requires p.ring.keys != [] && k <= |ids|
  {
    && Progress(p, before, now, seen + ids[..k], res) && Ascending(seen + ids) && |records| == |ids|
    && forall i :: 0 <= i < |ids| ==> ids[i] in before && records[i] == before[ids[i]]
  }

  lemma PageNext(p: Pass, before: Rows, now: Rows, seen: seq<Id>, ids: seq<Id>, records: seq<Record>, k: nat,
      res: Counts)
    requires p.ring.keys != [] && k < |ids| && QuietPage(p, before, now, seen, ids, records, k, res)
    ensures ids[k] in now && now[ids[k]] == records[k] && ids[k] !in seen + ids[..k]
    ensures forall i :: 0 <= i < |seen| + k ==> StrLess((seen + ids[..k])[i], ids[k])
  {
    forall i | 0 <= i < |seen| + k ensures StrLess((seen + ids[..k])[i], ids[k]) {
      assert (seen + ids)[i] == (seen + ids[..k])[i] && (seen + ids)[|seen| + k] == ids[k];
    }
    Unseen(seen + ids[..k], ids[k]);
  }

  lemma PageStep(p: Pass, before: Rows, now: Rows, after: Rows, seen: seq<Id>, ids: seq<Id>, records: seq<Record>,
      k: nat, res: Counts, sum: Counts)
    requires p.ring.keys != [] && k < |ids| && QuietPage(p, before, now, seen, ids, records, k, res)
    requires ids[k] in now && RecordHandled(p, now, after, ids[k], |p.fields|, sum)
    ensures QuietPage(p, before, after, seen, ids, records, k + 1, Add(res, sum))
  {
    PageNext(p, before, now, seen, ids, records, k, res);
    ProgressGrows(p, before, now, after, seen + ids[..k], res, ids[k], sum);
    assert seen + ids[..k] + [ids[k]] == seen + ids[..k + 1];
  }

  lemma Unseen(seen: seq<Id>, id: Id)
    requires forall i :: 0 <= i < |seen| ==> StrLess(seen[i], id)
    ensures id !in seen
  {
    if id in seen { StrOrder(id, id); }
  }

  /** Handling k records of a page, begun in the state `start`, has come this far. */
  ghost predicate RecordsDone(p: Pass, db: Database, from: nat, ids: seq<Id>, records: seq<Record>, res0: Counts,
      before: Rows, seen: seq<Id>,
                              start: State, now: State, k: nat, res: Counts, errs: nat)
    requires p.ring.keys != [] && k <= |ids| == |records|
  {
    && Advanced(p, db.env, from, start, now)
    && (Done(res) ==> Done(res0) && NoneNeedyIn(p, records[..k]))
    && (Quiet(p, db.env) && QuietPage(p, before, start.rows, seen, ids, records, 0, res0) ==>
          errs == 0 && QuietPage(p, before, now.rows, seen, ids, records, k, res))
  }

  method NextRecord(db: Database, p: Pass, ghost from: nat, ids: seq<Id>, records: seq<Record>, ghost res0: Counts,
      ghost before: Rows, ghost seen: seq<Id>,
                    ghost start: State, k: nat, had: Counts, errs0: nat)
      returns (res: Counts, errs: nat)
    requires Sound(p, db.env, from) && k < |ids| == |records|
    requires RecordsDone(p, db, from, ids, records, res0, before, seen, start, db.Now(), k, had, errs0)
    modifies db
    ensures RecordsDone(p, db, from, ids, records, res0, before, seen, start, db.Now(), k + 1, res, errs)
  {
    ghost var mid := db.Now();
    ghost var quiet := Quiet(p, db.env) && QuietPage(p, before, start.rows, seen, ids, records, 0, res0);
    if quiet { PageNext(p, before, mid.rows, seen, ids, records, k, had); }
    var sum, failed := ReencryptRecord(db, p, from, ids[k], records[k]);
    assert p.fields[..|p.fields|] == p.fields;
    AdvancedTwice(p, db.env, from, start, mid, db.Now());
    if quiet { PageStep(p, before, mid.rows, db.rows, seen, ids, records, k, had, sum); }
    res := Add(had, sum);
    errs := errs0 + failed;
    assert records[..k + 1] == records[..k] + [records[k]];
  }

  method ReencryptPage(db: Database, p: Pass, ghost from: nat, ids: seq<Id>, records: seq<Record>, res0: Counts,
      ghost before: Rows, ghost seen: seq<Id>)
      returns (res: Counts, errs: nat)
    requires Sound(p, db.env, from) && |records| == |ids|
    modifies db
    ensures Advanced(p, db.env, from, old(db.Now()), db.Now())
    ensures Done(res) ==> Done(res0) && NoneNeedyIn(p, records)
    ensures Quiet(p, db.env) && QuietPage(p, before, old(db.rows), seen, ids, records, 0, res0) ==>
              errs == 0 && Progress(p, before, db.rows, seen + ids, res)
  {
    res, errs := res0, 0;
    for k := 0 to |ids|
      invariant RecordsDone(p, db, from, ids, records, res0, before, seen, old(db.Now()), db.Now(), k, res, errs)
    {
      res, errs := NextRecord(db, p, from, ids, records, res0, before, seen, old(db.Now()), k, res, errs);
    }
    assert ids[..|ids|] == ids && records[..|ids|] == records;
  }

  ghost function Beyond(last: GoString): iset<(Id, GoString)> {
    iset pair: (Id, GoString) | StrLess(last, pair.0)
  }

  function Ahead(rows: Rows, last: GoString): set<Id> {
    set id | id in rows && StrLess(last, id)
  }

  /** What may still be in need once a page with nothing in need has been handled. */
  ghost function Remaining(last: GoString, ids: seq<Id>, limit: nat): iset<(Id, GoString)> {
    if |ids| < limit then iset{} else if ids == [] then Beyond(last) else Beyond(ids[|ids| - 1])
  }

  lemma PageLeaves(p: Pass, rows: Rows, last: GoString, limit: nat, ids: seq<Id>, records: seq<Record>)
    requires p.ring.keys != [] && IsPage(rows, last, limit, ids) && Snapshots(rows, ids, records)
    requires NeedyOnly(p, rows, Beyond(last)) && NoneNeedyIn(p, records)
    ensures NeedyOnly(p, rows, Remaining(last, ids, limit))
  {
    forall i, f | 0 <= i < |ids| ensures !NeedyAt(p, rows, ids[i], f) {
      assert NoneNeedy(p, records[i], p.fields);
    }
    forall id, f | NeedyAt(p, rows, id, f) ensures (id, f) in Remaining(last, ids, limit) {
      assert (id, f) in Beyond(last);
    }
  }

  /** The cursor moves to the largest id of the page. */
  method BatchLast(last: GoString, ids: seq<Id>) returns (next: GoString)
    requires Ascending(ids) && forall i :: 0 <= i < |ids| ==> StrLess(last, ids[i])
    ensures next == if ids == [] then last else ids[|ids| - 1]
  {
    next := last;
    for i := 0 to |ids|
      invariant next == if i == 0 then last else ids[i - 1]
    {
      if StrLess(next, ids[i]) {
        next := ids[i];
      }
    }
  }

  /** Every record up to the cursor has been met, and none beyond it. */
  predicate Caught(before: Rows, seen: seq<Id>, last: GoString) {
    (forall id :: id in before ==> id in seen || StrLess(last, id)) &&
        forall i :: 0 <= i < |seen| ==> seen[i] == last || StrLess(seen[i], last)
  }

  lemma PageFollows(p: Pass, before: Rows, now: Rows, seen: seq<Id>, res: Counts, last: GoString, limit: nat,
      ids: seq<Id>, records: seq<Record>)
    requires p.ring.keys != [] && Progress(p, before, now, seen, res) && Caught(before, seen, last)
    requires IsPage(now, last, limit, ids) && Snapshots(now, ids, records)
    ensures QuietPage(p, before, now, seen, ids, records, 0, res)
    ensures ids != [] ==> Caught(before, seen + ids, ids[|ids| - 1])
    ensures |ids| < limit ==> Covers(seen + ids, before)
  {
    assert seen + ids[..0] == seen;
    forall i, j | 0 <= i < |seen| && 0 <= j < |ids| ensures StrLess(seen[i], ids[j]) {
      if seen[i] != last { StrTransitive(seen[i], last, ids[j]); }
    }
    forall i | 0 <= i < |ids| ensures ids[i] in before && records[i] == before[ids[i]] {
      Unseen(seen, ids[i]);
    }
  }

  lemma BatchSettles(p: Pass, env: Environment, from: nat, start: State, found: State, end: State, last: GoString,
      limit: nat, ids: seq<Id>, records: seq<Record>)
    requires p.ring.keys != [] && Advanced(p, env, from, start, found) && Advanced(p, env, from, found, end)
    requires IsPage(found.rows, last, limit, ids) && Snapshots(found.rows, ids, records)
    requires NeedyOnly(p, start.rows, Beyond(last)) && NoneNeedyIn(p, records)
    ensures NeedyOnly(p, end.rows, Remaining(last, ids, limit))
  {
    StaysAmong(p, start.rows, found.rows, Beyond(last));
    PageLeaves(p, found.rows, last, limit, ids, records);
    StaysAmong(p, found.rows, end.rows, Remaining(last, ids, limit));
  }

  lemma CursorAdvances(start: Rows, found: Rows, end: Rows, last: GoString, limit: nat, ids: seq<Id>)
    requires end.Keys <= found.Keys <= start.Keys && IsPage(found, last, limit, ids) && ids != []
    ensures Ahead(end, ids[|ids| - 1]) < Ahead(start, last)
  {
    var next := ids[|ids| - 1];
    StrOrder(next, next);
    assert next in Ahead(start, last) && next !in Ahead(end, next);
    forall id | id in Ahead(end, next) ensures id in Ahead(start, last) {
      StrTransitive(last, next, id);
    }
  }

  /** Nobody disturbs the pass, which has met exactly the records up to the cursor. */
  ghost predicate QuietAt(p: Pass, db: Database, before: Rows, now: Rows, seen: seq<Id>, res: Counts, last: GoString)
    requires p.ring.keys != []
  {
    Quiet(p, db.env) && db.blank == 0 && Progress(p, before, now, seen, res) && Caught(before, seen, last)
  }

  /** After the last page every record has been met. */
  ghost predicate QuietAfter(p: Pass, before: Rows, now: Rows, seen: seq<Id>, res: Counts, next: GoString, more: bool)
    requires p.ring.keys != []
  {
    Progress(p, before, now, seen, res) && if more then Caught(before, seen, next) else Covers(seen, before)
  }

  /** Where values may still be in need after a page. */
  ghost function Left(next: GoString, more: bool): iset<(Id, GoString)> {
    if more then Beyond(next) else iset{}
  }

  /** A page handled: the cursor moves on, and with nothing in need in the page only values
      beyond it can be. */
  lemma BatchMoves(p: Pass, env: Environment, from: nat, start: State, found: State, end: State, last: GoString,
      limit: nat, ids: seq<Id>, records: seq<Record>, more: bool)
    requires p.ring.keys != [] && Advanced(p, env, from, start, found) && Advanced(p, env, from, found, end)
    requires start.step < found.step && IsPage(found.rows, last, limit, ids) && Snapshots(found.rows, ids, records)
    requires |ids| == limit && ids != [] ==> more
    ensures Advanced(p, env, from, start, end) && start.step < end.step
    ensures ids != [] && start.step >= from ==> Ahead(end.rows, ids[|ids| - 1]) < Ahead(start.rows, last)
    ensures limit > 0 && NoneNeedyIn(p, records) && NeedyOnly(p, start.rows, Beyond(last)) ==>
              NeedyOnly(p, end.rows, Left(if ids == [] then last else ids[|ids| - 1], more))
  {
    AdvancedTwice(p, env, from, start, found, end);
    if ids != [] && start.step >= from { CursorAdvances(start.rows, found.rows, end.rows, last, limit, ids); }
    if NoneNeedyIn(p, records) && NeedyOnly(p, start.rows, Beyond(last)) {
      BatchSettles(p, env, from, start, found, end, last, limit, ids, records);
    }
  }

  /** The records of a page, those without an id reported, and the cursor after them. */
  method HandlePage(db: Database, p: Pass, ghost from: nat, last: GoString, blanks: nat, ids: seq<Id>,
      records: seq<Record>, res0: Counts, ghost before: Rows, ghost seen: seq<Id>)
      returns (res: Counts, errs: nat, next: GoString, more: bool)
    requires Sound(p, db.env, from) && |records| == |ids| && Ascending(ids)
    requires forall i :: 0 <= i < |ids| ==> StrLess(last, ids[i])
    modifies db
    ensures Advanced(p, db.env, from, old(db.Now()), db.Now())
    ensures next == if ids == [] then last else ids[|ids| - 1]
    ensures more <==> ids != [] && blanks + |ids| == BATCH
    ensures errs == 0 && Done(res) ==> blanks == 0 && Done(res0) && NoneNeedyIn(p, records)
    ensures Quiet(p, db.env) && blanks == 0 && QuietPage(p, before, old(db.rows), seen, ids, records, 0, res0) ==>
              errs == 0 && Progress(p, before, db.rows, seen + ids, res)
  {
    CursorMoved(last, ids);
    var n: nat;
    res, n := ReencryptPage(db, p, from, ids, records, Add(res0, Counts(0, 0, 0, 0, blanks)), before, seen);
    errs := blanks + n;
    next := BatchLast(last, ids);
    more := next != last && blanks + |ids| == BATCH;
  }

  /** One page: read, handle, and move the cursor. */
  method ReencryptBatch(db: Database, p: Pass, ghost from: nat, last: GoString, res0: Counts, ghost before: Rows,
      ghost seen: seq<Id>)
      returns (res: Counts, errs: nat, next: GoString, more: bool, ghost met: seq<Id>)
    requires Sound(p, db.env, from)
    modifies db
    ensures Advanced(p, db.env, from, old(db.Now()), db.Now()) && db.step > old(db.step)
    ensures more && old(db.step) >= from ==> Ahead(db.rows, next) < Ahead(old(db.rows), last)
    ensures errs == 0 && Done(res) ==> Done(res0)
    ensures errs == 0 && Done(res) && NeedyOnly(p, old(db.rows), Beyond(last)) ==>
              NeedyOnly(p, db.rows, Left(next, more))
    ensures QuietAt(p, db, before, old(db.rows), seen, res0, last) ==>
              errs == 0 && QuietAfter(p, before, db.rows, met, res, next, more)
  {
    ghost var start := db.Now();
    ghost var quiet := QuietAt(p, db, before, db.rows, seen, res0, last);
    var failed, blanks, ids, records := db.FindPage(last, BATCH);
    ghost var found := db.Now();
    WritersAdvance(p, db.env, from, start);
    met := seen;
    if failed {
      return res0, 1, last, false, met;
    }
    if quiet { PageFollows(p, before, db.rows, seen, res0, last, BATCH, ids, records); }
    met := seen + ids;
    res, errs, next, more := res0, 0, last, false;
    if blanks + |ids| == 0 {
      assert met == seen;
    } else {
      res, errs, next, more := HandlePage(db, p, from, last, blanks, ids, records, res0, before, seen);
    }
    BatchMoves(p, db.env, from, start, found, db.Now(), last, BATCH - blanks, ids, records, more);
  }

  predicate Covers(seen: seq<Id>, rows: Rows) {
    forall id :: id in rows ==> id in seen
  }

  lemma CursorMoved(last: GoString, ids: seq<Id>)
    requires forall i :: 0 <= i < |ids| ==> StrLess(last, ids[i])
    ensures ids != [] ==> ids[|ids| - 1] != last
  {
    StrOrder(last, last);
  }

  /** reencryptFields. Whatever others write under the current key, and whatever fails: a pass
      that returns no error and is Done leaves no value in need; the pass's own writes only
      ever renew a value found as it was read, and no reader can tell; and the pass ends once
      inserting ends.
      Undisturbed, it meets every record once, in id order, and renews exactly what can be read. */
  method ReencryptFields(db: Database, p: Pass, ghost from: nat) returns (res: Counts, errs: nat, ghost met: seq<Id>)
    requires Sound(p, db.env, from)
    modifies db
    ensures errs == 0 && Done(res) ==> NeedyOnly(p, db.rows, iset{})
    ensures old(db.log) <= db.log && PassWrites(p, db.log, |old(db.log)|) && Invisible(p, db.env, old(db.rows), db.rows)
    ensures Quiet(p, db.env) && db.blank == 0 ==>
              errs == 0 && Progress(p, old(db.rows), db.rows, met, res) && Covers(met, old(db.rows))
  {
    res, errs, met := ZERO, 0, [];
    ghost var before := db.rows;
    ghost var quiet := Quiet(p, db.env) && db.blank == 0;
    var last: GoString, more := "", true;
    while more
      invariant Advanced(p, db.env, from, old(db.Now()), db.Now())
      invariant errs == 0 && Done(res) ==> NeedyOnly(p, db.rows, Left(last, more))
      invariant quiet ==> errs == 0 && QuietAfter(p, before, db.rows, met, res, last, more)
      decreases more, if db.step < from then from - db.step else 0, Ahead(db.rows, last)
    {
      ghost var mid := db.Now();
      var n: nat;
      res, n, last, more, met := ReencryptBatch(db, p, from, last, res, before, met);
      errs := errs + n;
      AdvancedTwice(p, db.env, from, old(db.Now()), mid, db.Now());
    }
  }

  /** What a clean pass is for: the previous secrets and the unbound formats can be dropped, and
      every stored value still reads as it did, errors included. */
  method DropPreviousKeys(db: Database, p: Pass, ghost from: nat)
      returns (ring: Option<Ring>, res: Counts, errs: nat, ghost met: seq<Id>)
    requires Sound(p, db.env, from)
    modifies db
    ensures ring == if errs == 0 && Done(res) then Some(CurrentOnly(p.ring)) else None
    ensures ring.Some? ==> forall id, f :: id in db.rows && f in p.fields ==>
              Read(p, ring.value, id, f, ValueAt(db.rows, id, f)) == Read(p, p.ring, id, f, ValueAt(db.rows, id, f))
    ensures Quiet(p, db.env) && db.blank == 0 ==>
              errs == 0 && Progress(p, old(db.rows), db.rows, met, res) && Covers(met, old(db.rows))
  {
    res, errs, met := ReencryptFields(db, p, from);
    if errs != 0 || !Done(res) {
      return None, res, errs, met;
    }
    ring := Some(CurrentOnly(p.ring));
    forall id, f | id in db.rows && f in p.fields
      ensures Read(p, ring.value, id, f, ValueAt(db.rows, id, f)) == Read(p, p.ring, id, f, ValueAt(db.rows, id, f))
    {
      SettledReadsAlike(p, db.rows, id, f);
    }
  }

  /** Two undisturbed passes: the first preserves every reading, the second changes nothing and
      reports nothing but the values that stay unreadable. */
  method PassTwice(db: Database, p: Pass, ghost from: nat) returns (first: Counts, second: Counts)
    requires Sound(p, db.env, from) && Quiet(p, db.env) && db.blank == 0
    modifies db
    ensures forall id, f :: id in old(db.rows) ==>
              id in db.rows &&
                  Read(p, p.ring, id, f, ValueAt(db.rows, id, f)) ==
                      Read(p, p.ring, id, f, ValueAt(old(db.rows), id, f))
    ensures second.rewritten == 0 && second.skipped == 0 && second.failed == 0
  {
    ghost var rows0 := db.rows;
    ghost var met, met2;
    var errs: nat;
    first, errs, met := ReencryptFields(db, p, from);
    ghost var rows1 := db.rows;
    second, errs, met2 := ReencryptFields(db, p, from);
    SecondPassChangesNothing(p, rows0, rows1, db.rows, met2);
    SecondPassRewritesNothing(p, rows0, rows1, met, met2);
    forall id, f | id in rows0
        ensures Read(p, p.ring, id, f, ValueAt(rows1, id, f)) == Read(p, p.ring, id, f, ValueAt(rows0, id, f)) {
      RenewedReadsAlike(p, rows0, rows1, met, id, f);
    }
  }
}
