/** `AuditService.run`: the security findings over all LOGIN entries.

    The entries arrive with their fields already decrypted, in the order `findAllLogins`
    returns them, and the clock is `now`. The reuse phase walks a `HashMap` whose order Java
    leaves open; the model visits passwords in order of first occurrence. Which titles are
    reported, with which id, and that each title is reported once do not depend on that
    order. */
module Audit {
  import opened Wrappers
  import opened Text
  import PasswordGenerator

  /** 90 days in milliseconds. */
  const NinetyDaysMs: int := 90 * 24 * 60 * 60 * 1000

  datatype Issue = WEAK_PASSWORD | REUSED_PASSWORD | OLD_PASSWORD | MISSING_URL | MISSING_TOTP

  /** `AuditResult` */
  datatype AuditResult = AuditResult(entryId: int, title: string, issue: Issue)

  /** A LOGIN entry with its decrypted fields. */
  datatype Login = Login(id: int, title: string, updatedAt: int, fields: map<string, string>)

  /** `fields.getOrDefault(name, "")` */
  function Field(l: Login, name: string): string {
    Lookup(l.fields, name).GetOr("")
  }

  function Password(l: Login): string {
    Field(l, "password")
  }

  predicate IsWeak(l: Login) {
    !IsBlank(Password(l)) && PasswordGenerator.Strength(Some(Password(l))) < 2
  }

  predicate IsOld(l: Login, now: int) {
    now - l.updatedAt > NinetyDaysMs
  }

  /** The findings about one entry alone, in the order the checks run. */
  function EntryFindings(l: Login, now: int): (r: seq<AuditResult>)
    ensures forall k :: 0 <= k < |r| ==> r[k].entryId == l.id && r[k].title == l.title
    ensures forall k :: 0 <= k < |r| ==> r[k].issue != REUSED_PASSWORD
    ensures forall i, j :: 0 <= i < j < |r| ==> r[i].issue != r[j].issue
  {
    (if IsWeak(l) then [AuditResult(l.id, l.title, WEAK_PASSWORD)] else []) +
    (if IsOld(l, now) then [AuditResult(l.id, l.title, OLD_PASSWORD)] else []) +
    (if IsBlank(Field(l, "url")) then [AuditResult(l.id, l.title, MISSING_URL)] else []) +
    (if IsBlank(Field(l, "totp")) then [AuditResult(l.id, l.title, MISSING_TOTP)] else [])
  }

  /** Each per-entry finding is reported exactly when its rule holds. */
  lemma EntryFindingsRules(l: Login, now: int)
    ensures AuditResult(l.id, l.title, WEAK_PASSWORD) in EntryFindings(l, now) <==>
              !IsBlank(Password(l)) && PasswordGenerator.Strength(Some(Password(l))) < 2
    ensures AuditResult(l.id, l.title, OLD_PASSWORD) in EntryFindings(l, now) <==> now - l.updatedAt > NinetyDaysMs
    ensures AuditResult(l.id, l.title, MISSING_URL) in EntryFindings(l, now) <==> IsBlank(Field(l, "url"))
    ensures AuditResult(l.id, l.title, MISSING_TOTP) in EntryFindings(l, now) <==> IsBlank(Field(l, "totp"))
  {
  }

  /** The per-entry findings of all entries, entry by entry. */
  function AllEntryFindings(logins: seq<Login>, now: int): (r: seq<AuditResult>)
    ensures forall k :: 0 <= k < |r| ==> r[k].issue != REUSED_PASSWORD
    ensures forall x :: x in r <==> exists i :: 0 <= i < |logins| && x in EntryFindings(logins[i], now)
  {
    if |logins| == 0 then []
    else
      var rest := AllEntryFindings(logins[1..], now);
      assert forall i :: 1 <= i < |logins| ==> logins[i] == logins[1..][i - 1];
      assert forall x :: x in EntryFindings(logins[0], now) ==> x in EntryFindings(logins[0], now);
      var r := EntryFindings(logins[0], now) + rest;
      assert forall x :: x in rest ==> exists i :: 0 <= i < |logins| && x in EntryFindings(logins[i], now) by {
        forall x | x in rest ensures exists i :: 0 <= i < |logins| && x in EntryFindings(logins[i], now) {
          var i :| 0 <= i < |logins[1..]| && x in EntryFindings(logins[1..][i], now);
          assert x in EntryFindings(logins[i + 1], now);
        }
      }
      r
  }

  // ── Reuse ──────────────────────────────────────────────────────────────────

  /** The non-blank passwords, each once, in order of first occurrence. */
  function DistinctPasswords(logins: seq<Login>): (pws: seq<string>)
    ensures forall pw :: pw in pws <==> exists i :: 0 <= i < |logins| && Password(logins[i]) == pw && !IsBlank(pw)
    ensures forall i, j :: 0 <= i < j < |pws| ==> pws[i] != pws[j]
    decreases |logins|
  {
    if |logins| == 0 then []
    else
      var n := |logins| - 1;
      var prior := DistinctPasswords(logins[..n]);
      assert forall i :: 0 <= i < n ==> logins[..n][i] == logins[i];
      var pw := Password(logins[n]);
      if IsBlank(pw) || pw in prior then prior else prior + [pw]
  }

  /** The titles of the entries using `pw`, in entry order: `passwordToTitles.get(pw)`. */
  function TitlesFor(logins: seq<Login>, pw: string): (titles: seq<string>)
    ensures forall t :: t in titles <==> exists i :: 0 <= i < |logins| && Password(logins[i]) == pw && logins[i].title == t
    decreases |logins|
  {
    if |logins| == 0 then []
    else
      var n := |logins| - 1;
      var prior := TitlesFor(logins[..n], pw);
      assert forall i :: 0 <= i < n ==> logins[..n][i] == logins[i];
      if Password(logins[n]) == pw then prior + [logins[n].title] else prior
  }

  /** At least two entries share `pw` exactly when its title list has two elements. */
  lemma {:induction false} TitlesForShared(logins: seq<Login>, pw: string)
    ensures |TitlesFor(logins, pw)| >= 2 <==>
              exists i, j :: 0 <= i < j < |logins| && Password(logins[i]) == pw && Password(logins[j]) == pw
    decreases |logins|
  {
    if |logins| > 0 {
      var n := |logins| - 1;
      var init := logins[..n];
      TitlesForShared(init, pw);
      assert forall i :: 0 <= i < n ==> init[i] == logins[i];
      if Password(logins[n]) == pw {
        if |TitlesFor(init, pw)| >= 1 {
          var t := TitlesFor(init, pw)[0];
          assert t in TitlesFor(init, pw);
          var i :| 0 <= i < n && Password(init[i]) == pw && init[i].title == t;
          assert Password(logins[i]) == pw && Password(logins[n]) == pw;
        } else {
          forall i | 0 <= i < n
            ensures Password(logins[i]) == pw ==> init[i].title in TitlesFor(init, pw)
          {
          }
        }
      } else {
        forall i, j | 0 <= i < j < |logins| && Password(logins[i]) == pw && Password(logins[j]) == pw
          ensures j < n
        {
        }
      }
    }
  }

  /** The index of the first entry with title `t` (`logins.stream().filter(...).findFirst()`). */
  function FirstWithTitle(logins: seq<Login>, t: string): (r: Option<nat>)
    ensures r.None? <==> forall i :: 0 <= i < |logins| ==> logins[i].title != t
    ensures r.Some? ==> r.value < |logins| && logins[r.value].title == t
    ensures r.Some? ==> forall j :: 0 <= j < r.value ==> logins[j].title != t
  {
    if |logins| == 0 then None
    else if logins[0].title == t then Some(0)
    else
      match FirstWithTitle(logins[1..], t)
      case None =>
        assert forall i :: 1 <= i < |logins| ==> logins[i] == logins[1..][i - 1];
        None
      case Some(k) =>
        assert logins[k + 1] == logins[1..][k];
        assert forall j :: 1 <= j < k + 1 ==> logins[j] == logins[1..][j - 1];
        Some(k + 1)
  }

  /** The titles a sequence of findings names. */
  function TitlesOf(rs: seq<AuditResult>): set<string> {
    set r | r in rs :: r.title
  }

  /** The elements of a sequence of titles. */
  function Elems(ts: seq<string>): set<string> {
    set t | t in ts
  }

  /** No title is named twice. */
  predicate DistinctTitles(rs: seq<AuditResult>) {
    forall a, b :: 0 <= a < b < |rs| ==> rs[a].title != rs[b].title
  }

  /** Every finding is a reuse finding carrying the id of the first entry with its title. */
  predicate ReuseShaped(logins: seq<Login>, rs: seq<AuditResult>) {
    forall k :: 0 <= k < |rs| ==>
      && rs[k].issue == REUSED_PASSWORD
      && FirstWithTitle(logins, rs[k].title).Some?
      && rs[k].entryId == logins[FirstWithTitle(logins, rs[k].title).value].id
  }

  predicate TitleOfSome(logins: seq<Login>, t: string) {
    exists i :: 0 <= i < |logins| && logins[i].title == t
  }

  /** Joining two runs of reuse findings with no title in common. */
  lemma Join(logins: seq<Login>, a: seq<AuditResult>, b: seq<AuditResult>)
    requires DistinctTitles(a) && ReuseShaped(logins, a)
    requires DistinctTitles(b) && ReuseShaped(logins, b)
    requires TitlesOf(a) !! TitlesOf(b)
    ensures TitlesOf(a + b) == TitlesOf(a) + TitlesOf(b)
    ensures DistinctTitles(a + b) && ReuseShaped(logins, a + b)
  {
    var ab := a + b;
    assert forall k :: 0 <= k < |a| ==> ab[k] == a[k];
    assert forall k :: |a| <= k < |ab| ==> ab[k] == b[k - |a|];
    assert forall r :: r in ab <==> r in a || r in b;
    forall i, j | 0 <= i < j < |ab| ensures ab[i].title != ab[j].title {
      if i < |a| && |a| <= j {
        assert ab[i].title in TitlesOf(a) && ab[j].title in TitlesOf(b);
      }
    }
  }

  /** The inner loop: for each title not yet flagged, flag it and report the first entry with
      that title. */
  function FlagTitles(logins: seq<Login>, titles: seq<string>, flagged: set<string>)
    : (r: (seq<AuditResult>, set<string>))
    requires forall k :: 0 <= k < |titles| ==> TitleOfSome(logins, titles[k])
    ensures r.1 == flagged + Elems(titles)
    ensures TitlesOf(r.0) == Elems(titles) - flagged
    ensures DistinctTitles(r.0) && ReuseShaped(logins, r.0)
    decreases |titles|
  {
    if |titles| == 0 then ([], flagged)
    else
      var t := titles[0];
      assert titles == [t] + titles[1..];
      assert Elems(titles) == {t} + Elems(titles[1..]);
      if t in flagged then FlagTitles(logins, titles[1..], flagged)
      else
        assert TitleOfSome(logins, t);
        var first := FirstWithTitle(logins, t).value;
        var (rest, f) := FlagTitles(logins, titles[1..], flagged + {t});
        var head := [AuditResult(logins[first].id, t, REUSED_PASSWORD)];
        assert TitlesOf(head) == {t};
        Join(logins, head, rest);
        (head + rest, f)
  }

  /** The outer loop over passwords: passwords used by at least two entries have their
      titles flagged. */
  function FlagAll(logins: seq<Login>, pws: seq<string>, flagged: set<string>)
    : (r: (seq<AuditResult>, set<string>))
    ensures TitlesOf(r.0) == SharedTitles(logins, pws) - flagged
    ensures r.1 == flagged + SharedTitles(logins, pws)
    ensures DistinctTitles(r.0) && ReuseShaped(logins, r.0)
    decreases |pws|
  {
    if |pws| == 0 then ([], flagged)
    else
      var titles := TitlesFor(logins, pws[0]);
      if |titles| >= 2 then
        assert forall k :: 0 <= k < |titles| ==> titles[k] in titles;
        var (out1, f1) := FlagTitles(logins, titles, flagged);
        var (out2, f2) := FlagAll(logins, pws[1..], f1);
        Join(logins, out1, out2);
        (out1 + out2, f2)
      else
        FlagAll(logins, pws[1..], flagged)
  }

  /** The titles of entries whose password is among `pws` and is used by two or more
      entries. */
  function SharedTitles(logins: seq<Login>, pws: seq<string>): (ts: set<string>)
    decreases |pws|
  {
    if |pws| == 0 then {}
    else
      var titles := TitlesFor(logins, pws[0]);
      (if |titles| >= 2 then Elems(titles) else {}) + SharedTitles(logins, pws[1..])
  }

  /** The reference definition: an entry's title is reported for reuse exactly when its
      password is not blank and another entry has the same password. */
  ghost function ReusedTitles(logins: seq<Login>): set<string> {
    set i | 0 <= i < |logins| && !IsBlank(Password(logins[i])) &&
            (exists j :: 0 <= j < |logins| && j != i && Password(logins[j]) == Password(logins[i]))
        :: logins[i].title
  }

  lemma {:induction false} SharedTitlesMembers(logins: seq<Login>, pws: seq<string>, t: string)
    ensures t in SharedTitles(logins, pws) <==>
              exists p :: 0 <= p < |pws| && |TitlesFor(logins, pws[p])| >= 2 && t in TitlesFor(logins, pws[p])
    decreases |pws|
  {
    if |pws| > 0 {
      SharedTitlesMembers(logins, pws[1..], t);
      var titles := TitlesFor(logins, pws[0]);
      if exists p :: 0 <= p < |pws| && |TitlesFor(logins, pws[p])| >= 2 && t in TitlesFor(logins, pws[p]) {
        var p :| 0 <= p < |pws| && |TitlesFor(logins, pws[p])| >= 2 && t in TitlesFor(logins, pws[p]);
        if p > 0 { assert pws[1..][p - 1] == pws[p]; }
      }
      if exists p :: 0 <= p < |pws[1..]| && |TitlesFor(logins, pws[1..][p])| >= 2 && t in TitlesFor(logins, pws[1..][p]) {
        var p :| 0 <= p < |pws[1..]| && |TitlesFor(logins, pws[1..][p])| >= 2 && t in TitlesFor(logins, pws[1..][p]);
        assert pws[p + 1] == pws[1..][p];
      }
    }
  }

  /** Over the distinct passwords, the shared titles are exactly the reference set. */
  lemma SharedTitlesAreReused(logins: seq<Login>, t: string)
    ensures t in SharedTitles(logins, DistinctPasswords(logins)) <==> t in ReusedTitles(logins)
  {
    var pws := DistinctPasswords(logins);
    SharedTitlesMembers(logins, pws, t);
    if t in SharedTitles(logins, pws) {
      var p :| 0 <= p < |pws| && |TitlesFor(logins, pws[p])| >= 2 && t in TitlesFor(logins, pws[p]);
      var pw := pws[p];
      assert pw in pws;
      TitlesForShared(logins, pw);
      var a, b :| 0 <= a < b < |logins| && Password(logins[a]) == pw && Password(logins[b]) == pw;
      var i :| 0 <= i < |logins| && Password(logins[i]) == pw && logins[i].title == t;
      var j := if i == a then b else a;
      assert j != i && Password(logins[j]) == Password(logins[i]);
      assert !IsBlank(pw);
    }
    if t in ReusedTitles(logins) {
      var i :| 0 <= i < |logins| && !IsBlank(Password(logins[i])) && logins[i].title == t &&
               (exists j :: 0 <= j < |logins| && j != i && Password(logins[j]) == Password(logins[i]));
      var j :| 0 <= j < |logins| && j != i && Password(logins[j]) == Password(logins[i]);
      var pw := Password(logins[i]);
      assert pw in pws;
      var p :| 0 <= p < |pws| && pws[p] == pw;
      TitlesForShared(logins, pw);
      if i < j {
        assert 0 <= i < j < |logins| && Password(logins[i]) == pw && Password(logins[j]) == pw;
      } else {
        assert 0 <= j < i < |logins| && Password(logins[j]) == pw && Password(logins[i]) == pw;
      }
      assert t in TitlesFor(logins, pws[p]);
    }
  }

  /** `run`: the per-entry findings of every entry, then the reuse findings. */
  function Run(logins: seq<Login>, now: int): (r: seq<AuditResult>)
    ensures |AllEntryFindings(logins, now)| <= |r|
    ensures forall k :: 0 <= k < |r| ==>
              (r[k].issue == REUSED_PASSWORD <==> k >= |AllEntryFindings(logins, now)|)
  {
    AllEntryFindings(logins, now) + FlagAll(logins, DistinctPasswords(logins), {}).0
  }

  /** The first part of what `run` reports is exactly the per-entry findings of the
      entries, each by its rule. */
  lemma RunEntryPart(logins: seq<Login>, now: int)
    ensures var r := Run(logins, now);
      var n := |AllEntryFindings(logins, now)|;
      forall x :: x in r[..n] <==> exists i :: 0 <= i < |logins| && x in EntryFindings(logins[i], now)
  {
    var r := Run(logins, now);
    var per := AllEntryFindings(logins, now);
    assert r[..|per|] == per;
  }

  /** The second part of what `run` reports holds one reuse finding per title in the
      reference set, none twice, each with the id of the first entry bearing that title. */
  lemma RunReusePart(logins: seq<Login>, now: int)
    ensures var r := Run(logins, now);
      var n := |AllEntryFindings(logins, now)|;
      && TitlesOf(r[n..]) == ReusedTitles(logins)
      && DistinctTitles(r[n..])
      && (forall k :: n <= k < |r| ==> exists i :: 0 <= i < |logins| && logins[i].title == r[k].title &&
                                        r[k].entryId == logins[i].id &&
                                        forall j :: 0 <= j < i ==> logins[j].title != r[k].title)
  {
    var r := Run(logins, now);
    var n := |AllEntryFindings(logins, now)|;
    var reuse := FlagAll(logins, DistinctPasswords(logins), {}).0;
    assert r[n..] == reuse;
    forall t ensures t in TitlesOf(reuse) <==> t in ReusedTitles(logins) {
      SharedTitlesAreReused(logins, t);
    }
    forall k | n <= k < |r|
      ensures exists i :: 0 <= i < |logins| && logins[i].title == r[k].title &&
                          r[k].entryId == logins[i].id &&
                          forall j :: 0 <= j < i ==> logins[j].title != r[k].title
    {
      assert r[k] == reuse[k - n];
      var i := FirstWithTitle(logins, r[k].title).value;
    }
  }
}
