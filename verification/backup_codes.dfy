/** `BackupCodeDAO`: one-time backup codes stored as bcrypt hashes in `backup_codes`.

    bcrypt is abstract: a `Hasher` pairs the hash function with the verifier. bcrypt draws a
    fresh salt per hash; the model folds that salt into `hash`, so only what the verifier
    accepts matters. `SELECT ... WHERE used = 0` has no `ORDER BY`; the model reads the rows in
    insertion (id) order. */
module BackupCodes {
  import opened Wrappers

  /** `BCrypt.withDefaults().hashToString` and `BCrypt.verifyer().verify(...).verified` */
  datatype Hasher = Hasher(hash: string -> string, verify: (string, string) -> bool)

  /** A verifier that accepts a code against a hash exactly when the hash was made from that
      code. */
  ghost predicate Exact(h: Hasher) {
    forall c, c' :: h.verify(c, h.hash(c')) <==> c == c'
  }

  /** One `backup_codes` row: (id, code_hash, used). */
  datatype BackupRow = BackupRow(id: nat, hash: string, used: bool)

  /** The table in id order and the next auto-increment id. */
  datatype Store = Store(rows: seq<BackupRow>, nextId: nat)

  /** Ids increase along the table and stay below the next id. */
  predicate Valid(s: Store) {
    && (forall i, j :: 0 <= i < j < |s.rows| ==> s.rows[i].id < s.rows[j].id)
    && (forall i :: 0 <= i < |s.rows| ==> s.rows[i].id < s.nextId)
  }

  /** Row `i` is a candidate for `code`: still unused and its hash verifies the code. */
  predicate Matches(h: Hasher, rows: seq<BackupRow>, i: int, code: string)
    requires 0 <= i < |rows|
  {
    !rows[i].used && h.verify(code, rows[i].hash)
  }

  /** `replaceAll`: delete every row, then insert one unused row per code. The
      auto-increment counter is not reset by `DELETE`. */
  function ReplaceAll(h: Hasher, s: Store, codes: seq<string>): (s': Store)
    requires Valid(s)
    ensures Valid(s')
    ensures |s'.rows| == |codes|
    ensures forall i :: 0 <= i < |codes| ==> s'.rows[i].hash == h.hash(codes[i]) && !s'.rows[i].used
    ensures forall i :: 0 <= i < |s.rows| ==> s.rows[i] !in s'.rows
  {
    var rows := seq(|codes|, (i: int) requires 0 <= i < |codes| => BackupRow(s.nextId + i, h.hash(codes[i]), false));
    assert forall i, j :: 0 <= i < |s.rows| && 0 <= j < |rows| ==> s.rows[i].id < rows[j].id;
    Store(rows, s.nextId + |codes|)
  }

  /** `countUnused` */
  function CountUnused(rows: seq<BackupRow>): (n: nat)
    ensures n <= |rows|
  {
    if |rows| == 0 then 0
    else (if rows[0].used then 0 else 1) + CountUnused(rows[1..])
  }

  /** The number of rows that would accept `code`. */
  function CountMatching(h: Hasher, rows: seq<BackupRow>, code: string): (n: nat)
    ensures n <= CountUnused(rows)
  {
    if |rows| == 0 then 0
    else (if !rows[0].used && h.verify(code, rows[0].hash) then 1 else 0) + CountMatching(h, rows[1..], code)
  }

  /** `markUsed(id)`: `UPDATE ... SET used = 1 WHERE id = ?` */
  function MarkUsed(s: Store, id: nat): (s': Store)
    ensures |s'.rows| == |s.rows| && s'.nextId == s.nextId
    ensures forall i :: 0 <= i < |s.rows| ==>
              s'.rows[i] == if s.rows[i].id == id then s.rows[i].(used := true) else s.rows[i]
  {
    Store(seq(|s.rows|, (i: int) requires 0 <= i < |s.rows| =>
      if s.rows[i].id == id then s.rows[i].(used := true) else s.rows[i]), s.nextId)
  }

  /** The index of the first row that accepts `code`, if any. */
  function FirstMatch(h: Hasher, rows: seq<BackupRow>, code: string): (r: Option<nat>)
    ensures r.None? <==> forall i :: 0 <= i < |rows| ==> !Matches(h, rows, i, code)
    ensures r.Some? ==> r.value < |rows| && Matches(h, rows, r.value, code)
    ensures r.Some? ==> forall j :: 0 <= j < r.value ==> !Matches(h, rows, j, code)
  {
    if |rows| == 0 then None
    else if !rows[0].used && h.verify(code, rows[0].hash) then
      assert Matches(h, rows, 0, code);
      Some(0)
    else
      assert !Matches(h, rows, 0, code);
      match FirstMatch(h, rows[1..], code)
      case None =>
        assert forall i :: 1 <= i < |rows| ==> !Matches(h, rows[1..], i - 1, code) && rows[i] == rows[1..][i - 1];
        None
      case Some(k) =>
        assert Matches(h, rows[1..], k, code) && rows[k + 1] == rows[1..][k];
        assert Matches(h, rows, k + 1, code);
        assert forall j :: 1 <= j < k + 1 ==> !Matches(h, rows[1..], j - 1, code) && rows[j] == rows[1..][j - 1];
        Some(k + 1)
  }

  /** `verifyAndConsume` as a function of the table: whether the code was accepted, and the
      table afterwards. */
  function Consume(h: Hasher, s: Store, code: string): (r: (bool, Store))
    requires Valid(s)
    ensures Valid(r.1)
    ensures r.0 <==> exists i :: 0 <= i < |s.rows| && Matches(h, s.rows, i, code)
    ensures !r.0 ==> r.1 == s
    ensures r.0 ==> exists i :: 0 <= i < |s.rows| && Matches(h, s.rows, i, code) &&
                      (forall j :: 0 <= j < i ==> !Matches(h, s.rows, j, code)) &&
                      r.1 == Store(s.rows[i := s.rows[i].(used := true)], s.nextId)
  {
    match FirstMatch(h, s.rows, code)
    case None => (false, s)
    case Some(i) =>
      var s' := MarkUsed(s, s.rows[i].id);
      assert s'.rows == s.rows[i := s.rows[i].(used := true)];
      (true, s')
  }

  /** `verifyAndConsume`: scan the unused rows in order; the first whose hash verifies the
      code is marked used and the call answers true. */
  method VerifyAndConsume(h: Hasher, s: Store, code: string) returns (ok: bool, s': Store)
    requires Valid(s)
    ensures ok <==> exists i :: 0 <= i < |s.rows| && Matches(h, s.rows, i, code)
    ensures !ok ==> s' == s
    ensures ok ==> exists i :: 0 <= i < |s.rows| && Matches(h, s.rows, i, code) &&
                     (forall j :: 0 <= j < i ==> !Matches(h, s.rows, j, code)) &&
                     s' == Store(s.rows[i := s.rows[i].(used := true)], s.nextId)
    ensures (ok, s') == Consume(h, s, code)
  {
    var i := 0;
    while i < |s.rows|
      invariant 0 <= i <= |s.rows|
      invariant forall j :: 0 <= j < i ==> !Matches(h, s.rows, j, code)
    {
      if !s.rows[i].used && h.verify(code, s.rows[i].hash) {
        s' := MarkUsed(s, s.rows[i].id);
        assert Matches(h, s.rows, i, code);
        assert s'.rows == s.rows[i := s.rows[i].(used := true)];
        return true, s';
      }
      i := i + 1;
    }
    return false, s;
  }

  /** Replacing row `i` changes the unused count by the change in that row alone. */
  lemma {:induction false} CountUnusedUpdate(rows: seq<BackupRow>, i: nat, x: BackupRow)
    requires i < |rows|
    ensures CountUnused(rows[i := x]) + (if rows[i].used then 0 else 1) ==
            CountUnused(rows) + (if x.used then 0 else 1)
  {
    if i > 0 {
      CountUnusedUpdate(rows[1..], i - 1, x);
      assert rows[i := x][1..] == rows[1..][i - 1 := x];
    }
  }

  /** Same for the number of rows accepting `code`. */
  lemma {:induction false} CountMatchingUpdate(h: Hasher, rows: seq<BackupRow>, i: nat, x: BackupRow, code: string)
    requires i < |rows|
    ensures CountMatching(h, rows[i := x], code) + (if !rows[i].used && h.verify(code, rows[i].hash) then 1 else 0) ==
            CountMatching(h, rows, code) + (if !x.used && h.verify(code, x.hash) then 1 else 0)
  {
    if i > 0 {
      CountMatchingUpdate(h, rows[1..], i - 1, x, code);
      assert rows[i := x][1..] == rows[1..][i - 1 := x];
    }
  }

  /** Some row accepts `code` exactly when the matching count is positive. */
  lemma {:induction false} CountMatchingPositive(h: Hasher, rows: seq<BackupRow>, code: string)
    ensures CountMatching(h, rows, code) > 0 <==> exists i :: 0 <= i < |rows| && Matches(h, rows, i, code)
  {
    if |rows| > 0 {
      CountMatchingPositive(h, rows[1..], code);
      if Matches(h, rows, 0, code) {
        assert CountMatching(h, rows, code) > 0;
      } else if CountMatching(h, rows, code) > 0 {
        var k :| 0 <= k < |rows[1..]| && Matches(h, rows[1..], k, code);
        assert Matches(h, rows, k + 1, code);
      } else {
        forall i | 0 < i < |rows| ensures !Matches(h, rows, i, code) {
          assert rows[i] == rows[1..][i - 1];
          assert !Matches(h, rows[1..], i - 1, code);
        }
      }
    }
  }

  /** An accepted code costs exactly one unused row, and one of the rows accepting it. */
  lemma ConsumeCounts(h: Hasher, s: Store, code: string)
    requires Valid(s)
    ensures var (ok, s') := Consume(h, s, code);
      && CountUnused(s'.rows) == (if ok then CountUnused(s.rows) - 1 else CountUnused(s.rows))
      && CountMatching(h, s'.rows, code) == (if ok then CountMatching(h, s.rows, code) - 1 else CountMatching(h, s.rows, code))
  {
    var (ok, s') := Consume(h, s, code);
    if ok {
      var i :| 0 <= i < |s.rows| && Matches(h, s.rows, i, code) && s'.rows == s.rows[i := s.rows[i].(used := true)];
      CountUnusedUpdate(s.rows, i, s.rows[i].(used := true));
      CountMatchingUpdate(h, s.rows, i, s.rows[i].(used := true), code);
    }
  }

  /** A consume never turns a used row back into an unused one. */
  lemma UsedStaysUsed(h: Hasher, s: Store, code: string, i: int)
    requires Valid(s)
    requires 0 <= i < |s.rows| && s.rows[i].used
    ensures Consume(h, s, code).1.rows[i] == s.rows[i]
  {
  }

  /** How often `code` occurs in `codes`. */
  function Occurrences(codes: seq<string>, code: string): (n: nat)
    ensures n <= |codes|
  {
    if |codes| == 0 then 0
    else (if codes[0] == code then 1 else 0) + Occurrences(codes[1..], code)
  }

  lemma {:induction false} CountUnusedFresh(rows: seq<BackupRow>)
    requires forall i :: 0 <= i < |rows| ==> !rows[i].used
    ensures CountUnused(rows) == |rows|
  {
    if |rows| > 0 {
      CountUnusedFresh(rows[1..]);
    }
  }

  lemma {:induction false} CountMatchingFresh(h: Hasher, rows: seq<BackupRow>, codes: seq<string>, code: string)
    requires Exact(h)
    requires |rows| == |codes|
    requires forall i :: 0 <= i < |rows| ==> !rows[i].used && rows[i].hash == h.hash(codes[i])
    ensures CountMatching(h, rows, code) == Occurrences(codes, code)
  {
    if |rows| > 0 {
      CountMatchingFresh(h, rows[1..], codes[1..], code);
    }
  }

  /** Right after `replaceAll`, every code is unused and a code is accepted as many times as
      it occurs in the list. */
  lemma ReplaceAllCounts(h: Hasher, s: Store, codes: seq<string>, code: string)
    requires Exact(h) && Valid(s)
    ensures CountUnused(ReplaceAll(h, s, codes).rows) == |codes|
    ensures CountMatching(h, ReplaceAll(h, s, codes).rows, code) == Occurrences(codes, code)
  {
    var rows := ReplaceAll(h, s, codes).rows;
    CountUnusedFresh(rows);
    CountMatchingFresh(h, rows, codes, code);
  }

  /** Single use: a code listed once is accepted once and then refused. */
  lemma SingleUse(h: Hasher, s: Store, codes: seq<string>, code: string)
    requires Exact(h) && Valid(s)
    requires Occurrences(codes, code) == 1
    ensures var s1 := ReplaceAll(h, s, codes);
      var (ok1, s2) := Consume(h, s1, code);
      var (ok2, s3) := Consume(h, s2, code);
      ok1 && !ok2 && s3 == s2 && CountUnused(s2.rows) == |codes| - 1
  {
    var s1 := ReplaceAll(h, s, codes);
    ReplaceAllCounts(h, s, codes, code);
    CountMatchingPositive(h, s1.rows, code);
    var (ok1, s2) := Consume(h, s1, code);
    ConsumeCounts(h, s1, code);
    CountMatchingPositive(h, s2.rows, code);
  }
}
