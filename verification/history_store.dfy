/** `HistoryDAO`: the `password_history` table, at most five encrypted earlier passwords per
    entry.

    The rows of each entry are kept in the order `findByEntry` reads them: newest `changed_at`
    first. The SQL leaves the order of rows with equal `changed_at` open; the model breaks
    such ties by the auto-increment id, the later insertion counting as newer. */
module HistoryStore {
  import opened Wrappers
  import opened Hex
  import opened Crypto

  type EntryId = int

  const MaxHistory: nat := 5

  /** One `password_history` row: (id, entry_id, value_enc, changed_at). */
  datatype HistoryRow = HistoryRow(id: nat, entryId: EntryId, blob: seq<byte>, changedAt: int)

  /** `PasswordHistory`: one decrypted row. */
  datatype PasswordHistory = PasswordHistory(id: nat, entryId: EntryId, password: string, changedAt: int)

  /** The table, grouped by entry, and the next auto-increment id. */
  datatype History = History(byEntry: map<EntryId, seq<HistoryRow>>, nextId: nat)

  const Empty: History := History(map[], 1)

  /** `a` sorts before `b` in `ORDER BY changed_at DESC`, ties going to the later insert. */
  predicate Newer(a: HistoryRow, b: HistoryRow) {
    a.changedAt > b.changedAt || (a.changedAt == b.changedAt && a.id > b.id)
  }

  predicate NewestFirst(rows: seq<HistoryRow>) {
    forall i, j :: 0 <= i < j < |rows| ==> Newer(rows[i], rows[j])
  }

  /** The rows of one entry, newest first. */
  function RowsOf(h: History, entryId: EntryId): seq<HistoryRow> {
    if entryId in h.byEntry then h.byEntry[entryId] else []
  }

  /** What every reachable table satisfies: rows are filed under their own entry, newest
      first, with ids below the next id, and no entry has more than `MaxHistory` rows. */
  ghost predicate Valid(h: History) {
    forall e :: e in h.byEntry ==> ValidRows(e, h.byEntry[e], h.nextId)
  }

  ghost predicate ValidRows(e: EntryId, rows: seq<HistoryRow>, nextId: nat) {
    && NewestFirst(rows)
    && |rows| <= MaxHistory
    && forall i :: 0 <= i < |rows| ==> rows[i].entryId == e && rows[i].id < nextId
  }

  /** Places `row` in a newest-first list at the position `ORDER BY` would give it. */
  function Insert(rows: seq<HistoryRow>, row: HistoryRow): (r: seq<HistoryRow>)
    ensures |r| == |rows| + 1
  {
    if |rows| == 0 || Newer(row, rows[0]) then [row] + rows
    else [rows[0]] + Insert(rows[1..], row)
  }

  /** Inserting a row with a larger id than every listed row keeps the list newest first and
      adds exactly that row; a row stamped no earlier than all others goes in front. */
  lemma {:induction false} InsertSpec(rows: seq<HistoryRow>, row: HistoryRow)
    requires NewestFirst(rows)
    requires forall i :: 0 <= i < |rows| ==> rows[i].id < row.id
    ensures NewestFirst(Insert(rows, row))
    ensures multiset(Insert(rows, row)) == multiset(rows) + multiset{row}
    ensures forall x :: x in Insert(rows, row) <==> x in rows || x == row
    ensures (forall i :: 0 <= i < |rows| ==> rows[i].changedAt <= row.changedAt) ==>
              Insert(rows, row) == [row] + rows
  {
    if |rows| == 0 || Newer(row, rows[0]) {
    } else {
      var tail := rows[1..];
      assert rows == [rows[0]] + tail;
      InsertSpec(tail, row);
      var t := Insert(tail, row);
      assert Newer(rows[0], row);
      forall k | 0 <= k < |t| ensures Newer(rows[0], t[k]) {
        assert t[k] in t;
        if t[k] != row {
          var j :| 0 <= j < |tail| && tail[j] == t[k];
          assert rows[j + 1] == t[k];
        }
      }
      assert rows[0].changedAt > row.changedAt;
    }
  }

  /** `prune`: keep the `MaxHistory` newest rows. */
  function Prune(rows: seq<HistoryRow>): (kept: seq<HistoryRow>)
    ensures |kept| == if |rows| < MaxHistory then |rows| else MaxHistory
    ensures kept == rows[..|kept|]
  {
    if |rows| <= MaxHistory then rows else rows[..MaxHistory]
  }

  /** `save`: encrypt the password, append a row stamped `now`, then prune the entry. */
  function Save(p: Primitives, h: History, entryId: EntryId, password: string, key: Key, iv: Iv,
                now: int): (h': History)
    requires Sound(p)
    requires Valid(h)
    ensures Valid(h')
    ensures h'.nextId == h.nextId + 1
    ensures forall e :: e != entryId ==> RowsOf(h', e) == RowsOf(h, e)
    ensures |RowsOf(h', entryId)| == if |RowsOf(h, entryId)| < MaxHistory then |RowsOf(h, entryId)| + 1 else MaxHistory
  {
    var row := HistoryRow(h.nextId, entryId, EncryptString(p, password, key, iv), now);
    var rows := Prune(Insert(RowsOf(h, entryId), row));
    SavedRowsValid(h, entryId, row);
    History(h.byEntry[entryId := rows], h.nextId + 1)
  }

  lemma SavedRowsValid(h: History, entryId: EntryId, row: HistoryRow)
    requires Valid(h)
    requires row.id == h.nextId && row.entryId == entryId
    ensures ValidRows(entryId, Prune(Insert(RowsOf(h, entryId), row)), h.nextId + 1)
    ensures Valid(History(h.byEntry[entryId := Prune(Insert(RowsOf(h, entryId), row))], h.nextId + 1))
  {
    var prior := RowsOf(h, entryId);
    InsertSpec(prior, row);
    var all := Insert(prior, row);
    var rows := Prune(all);
    assert forall i :: 0 <= i < |rows| ==> rows[i] == all[i] && all[i] in all;
    assert ValidRows(entryId, rows, h.nextId + 1);
    forall e | e in h.byEntry && e != entryId ensures ValidRows(e, h.byEntry[e], h.nextId + 1) {
      assert ValidRows(e, h.byEntry[e], h.nextId);
    }
  }

  /** The row `Save` inserts. */
  function SavedRow(p: Primitives, h: History, entryId: EntryId, password: string, key: Key, iv: Iv,
                    now: int): HistoryRow
    requires Sound(p)
  {
    HistoryRow(h.nextId, entryId, EncryptString(p, password, key, iv), now)
  }

  /** Pruning keeps the newest rows: every surviving row of the entry was there before or
      is the new one, and every row that did not survive is older than every survivor. */
  lemma SaveKeepsNewest(p: Primitives, h: History, entryId: EntryId, password: string, key: Key,
                        iv: Iv, now: int)
    requires Sound(p)
    requires Valid(h)
    ensures var h' := Save(p, h, entryId, password, key, iv, now);
      var before := RowsOf(h, entryId) + [SavedRow(p, h, entryId, password, key, iv, now)];
      && (forall x :: x in RowsOf(h', entryId) ==> x in before)
      && (forall x, y :: x in before && x !in RowsOf(h', entryId) && y in RowsOf(h', entryId) ==>
            Newer(y, x))
  {
    var prior := RowsOf(h, entryId);
    var row := SavedRow(p, h, entryId, password, key, iv, now);
    var all := Insert(prior, row);
    var kept := Prune(all);
    InsertSpec(prior, row);
    forall x, y | x in prior + [row] && x !in kept && y in kept ensures Newer(y, x) {
      assert x in multiset(all);
      var i :| 0 <= i < |all| && all[i] == x;
      var j :| 0 <= j < |kept| && kept[j] == y;
      assert i >= |kept|;
    }
  }

  /** A save stamped no earlier than every existing row of the entry puts the new row in
      front and drops the oldest one once the entry already had `MaxHistory` rows. */
  lemma SaveAtLatestTime(p: Primitives, h: History, entryId: EntryId, password: string, key: Key,
                         iv: Iv, now: int)
    requires Sound(p)
    requires Valid(h)
    requires forall x :: x in RowsOf(h, entryId) ==> x.changedAt <= now
    ensures var prior := RowsOf(h, entryId);
      RowsOf(Save(p, h, entryId, password, key, iv, now), entryId) ==
        [SavedRow(p, h, entryId, password, key, iv, now)] + (if |prior| < MaxHistory then prior else prior[..MaxHistory - 1])
  {
    var prior := RowsOf(h, entryId);
    assert forall i :: 0 <= i < |prior| ==> prior[i] in prior;
  }

  /** `findByEntry`: the entry's rows newest first, each decrypted; the first row that does
      not decrypt makes the call fail. */
  function FindByEntry(p: Primitives, rows: seq<HistoryRow>, key: Key): (r: Result<seq<PasswordHistory>>)
    ensures r.Ok? ==> |r.value| == |rows|
    ensures r.Ok? ==> forall i :: 0 <= i < |rows| ==>
      && DecryptString(p, rows[i].blob, key) == Ok(r.value[i].password)
      && r.value[i] == PasswordHistory(rows[i].id, rows[i].entryId, r.value[i].password, rows[i].changedAt)
    ensures r.Ok? <==> forall i :: 0 <= i < |rows| ==> DecryptString(p, rows[i].blob, key).Ok?
  {
    if |rows| == 0 then Ok([])
    else
      var password :- DecryptString(p, rows[0].blob, key);
      var rest :- FindByEntry(p, rows[1..], key);
      assert forall i :: 1 <= i < |rows| ==> rows[i] == rows[1..][i - 1];
      Ok([PasswordHistory(rows[0].id, rows[0].entryId, password, rows[0].changedAt)] + rest)
  }

  /** `findByEntry` on the stored history of one entry. */
  function FindEntry(p: Primitives, h: History, entryId: EntryId, key: Key): (r: Result<seq<PasswordHistory>>)
    requires Valid(h)
    ensures r.Ok? ==> |r.value| <= MaxHistory
    ensures r.Ok? ==> forall i, j :: 0 <= i < j < |r.value| ==> r.value[i].changedAt >= r.value[j].changedAt
  {
    FindByEntry(p, RowsOf(h, entryId), key)
  }

  /** Every stored row decrypts under `key`. */
  ghost predicate SealedUnder(p: Primitives, h: History, key: Key) {
    forall e, i :: e in h.byEntry && 0 <= i < |h.byEntry[e]| ==> DecryptString(p, h.byEntry[e][i].blob, key).Ok?
  }

  /** Saving under the vault key keeps every row readable. */
  lemma SaveKeepsSealed(p: Primitives, h: History, entryId: EntryId, password: string, key: Key,
                        iv: Iv, now: int)
    requires Sound(p)
    requires Valid(h)
    requires SealedUnder(p, h, key)
    ensures SealedUnder(p, Save(p, h, entryId, password, key, iv, now), key)
  {
    var h' := Save(p, h, entryId, password, key, iv, now);
    var row := SavedRow(p, h, entryId, password, key, iv, now);
    SaveKeepsNewest(p, h, entryId, password, key, iv, now);
    DecryptStringEncryptString(p, password, key, iv);
    forall e, i | e in h'.byEntry && 0 <= i < |h'.byEntry[e]|
      ensures DecryptString(p, h'.byEntry[e][i].blob, key).Ok?
    {
      if e == entryId {
        var x := h'.byEntry[e][i];
        assert x in RowsOf(h', entryId);
        assert x in RowsOf(h, entryId) + [row];
        if x != row {
          var j :| 0 <= j < |RowsOf(h, entryId)| && RowsOf(h, entryId)[j] == x;
        }
      }
    }
  }

  /** A saved password is read back, newest first, when it was saved last. */
  lemma FindAfterSave(p: Primitives, h: History, entryId: EntryId, password: string, key: Key,
                      iv: Iv, now: int)
    requires Sound(p)
    requires Valid(h)
    requires SealedUnder(p, h, key)
    requires forall x :: x in RowsOf(h, entryId) ==> x.changedAt <= now
    ensures var r := FindEntry(p, Save(p, h, entryId, password, key, iv, now), entryId, key);
      r.Ok? && |r.value| > 0 && r.value[0].password == password && r.value[0].changedAt == now
  {
    var h' := Save(p, h, entryId, password, key, iv, now);
    SaveKeepsSealed(p, h, entryId, password, key, iv, now);
    SaveAtLatestTime(p, h, entryId, password, key, iv, now);
    DecryptStringEncryptString(p, password, key, iv);
    var rows := RowsOf(h', entryId);
    assert forall i :: 0 <= i < |rows| ==> DecryptString(p, rows[i].blob, key).Ok?;
  }

  /** The entry's history holds the last five of `pws`, saved at times `ts`, newest first. */
  ghost predicate HoldsLast(p: Primitives, h: History, entryId: EntryId, key: Key,
                            pws: seq<string>, ts: seq<int>) {
    var rows := RowsOf(h, entryId);
    && |pws| == |ts|
    && |rows| == (if |pws| < MaxHistory then |pws| else MaxHistory)
    && forall i :: 0 <= i < |rows| ==>
         && rows[i].changedAt == ts[|ts| - 1 - i]
         && DecryptString(p, rows[i].blob, key) == Ok(pws[|pws| - 1 - i])
  }

  lemma {:induction false} SaveStep(p: Primitives, h: History, entryId: EntryId, key: Key,
                                    pws: seq<string>, ts: seq<int>, pw: string, iv: Iv, now: int)
    requires Sound(p) && Valid(h) && SealedUnder(p, h, key)
    requires HoldsLast(p, h, entryId, key, pws, ts)
    requires forall i :: 0 <= i < |ts| ==> ts[i] <= now
    ensures HoldsLast(p, Save(p, h, entryId, pw, key, iv, now), entryId, key, pws + [pw], ts + [now])
    ensures SealedUnder(p, Save(p, h, entryId, pw, key, iv, now), key)
  {
    var prior := RowsOf(h, entryId);
    forall x | x in prior ensures x.changedAt <= now {
      var i :| 0 <= i < |prior| && prior[i] == x;
    }
    SaveAtLatestTime(p, h, entryId, pw, key, iv, now);
    SaveKeepsSealed(p, h, entryId, pw, key, iv, now);
    DecryptStringEncryptString(p, pw, key, iv);
  }

  /** Saves `pws[i]` with IV `ivs[i]` at time `ts[i]`, in order. */
  function SaveAll(p: Primitives, h: History, entryId: EntryId, key: Key,
                   pws: seq<string>, ivs: seq<Iv>, ts: seq<int>): (h': History)
    requires Sound(p) && Valid(h)
    requires |pws| == |ivs| == |ts|
    ensures Valid(h')
    decreases |pws|
  {
    if |pws| == 0 then h
    else
      var n := |pws| - 1;
      Save(p, SaveAll(p, h, entryId, key, pws[..n], ivs[..n], ts[..n]), entryId, pws[n], key, ivs[n], ts[n])
  }

  lemma {:induction false} SaveAllHolds(p: Primitives, h: History, entryId: EntryId, key: Key,
                                        pws: seq<string>, ivs: seq<Iv>, ts: seq<int>)
    requires Sound(p) && Valid(h) && SealedUnder(p, h, key) && RowsOf(h, entryId) == []
    requires |pws| == |ivs| == |ts|
    requires forall i, j :: 0 <= i < j < |ts| ==> ts[i] <= ts[j]
    ensures HoldsLast(p, SaveAll(p, h, entryId, key, pws, ivs, ts), entryId, key, pws, ts)
    ensures SealedUnder(p, SaveAll(p, h, entryId, key, pws, ivs, ts), key)
    decreases |pws|
  {
    if |pws| > 0 {
      var n := |pws| - 1;
      SaveAllHolds(p, h, entryId, key, pws[..n], ivs[..n], ts[..n]);
      SaveStep(p, SaveAll(p, h, entryId, key, pws[..n], ivs[..n], ts[..n]), entryId, key,
               pws[..n], ts[..n], pws[n], ivs[n], ts[n]);
      assert pws[..n] + [pws[n]] == pws && ts[..n] + [ts[n]] == ts;
    }
  }

  /** Saving a sequence of passwords at non-decreasing times into an empty history leaves the
      last `MaxHistory` of them, read back newest first; older ones are gone. */
  lemma KeepsLastFive(p: Primitives, h: History, entryId: EntryId, key: Key,
                      pws: seq<string>, ivs: seq<Iv>, ts: seq<int>)
    requires Sound(p) && Valid(h) && SealedUnder(p, h, key) && RowsOf(h, entryId) == []
    requires |pws| == |ivs| == |ts|
    requires forall i, j :: 0 <= i < j < |ts| ==> ts[i] <= ts[j]
    ensures var r := FindEntry(p, SaveAll(p, h, entryId, key, pws, ivs, ts), entryId, key);
      && r.Ok?
      && |r.value| == (if |pws| < MaxHistory then |pws| else MaxHistory)
      && forall i :: 0 <= i < |r.value| ==>
           r.value[i].password == pws[|pws| - 1 - i] && r.value[i].changedAt == ts[|ts| - 1 - i]
  {
    SaveAllHolds(p, h, entryId, key, pws, ivs, ts);
    var h' := SaveAll(p, h, entryId, key, pws, ivs, ts);
    var rows := RowsOf(h', entryId);
    assert forall i :: 0 <= i < |rows| ==> DecryptString(p, rows[i].blob, key).Ok?;
    var r := FindByEntry(p, rows, key);
    assert r.Ok? && |r.value| == |rows|;
    forall i | 0 <= i < |r.value|
      ensures r.value[i].password == pws[|pws| - 1 - i] && r.value[i].changedAt == ts[|ts| - 1 - i]
    {
      assert DecryptString(p, rows[i].blob, key) == Ok(r.value[i].password);
    }
  }
}
