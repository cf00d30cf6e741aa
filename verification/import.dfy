/** `ImportExportService`: the KeePass CSV and Bitwarden JSON importers, over input that is
    already parsed.

    A CSV file is its sequence of rows, each row a sequence of cells (`None` standing for a
    `null` cell). A JSON document is a `Json` tree with the parts of Jackson's `JsonNode`
    the importers use: `path`, `asText`, `asInt` and `asBoolean`. The importers map rows and
    items to `EntryDto`s; `CreateAll` then runs `createEntry` on each of them in order. */
module Importer {
  import opened Wrappers
  import opened Text
  import opened Crypto
  import opened Entries
  import FieldStore
  import Vault

  // ── Jackson tree ───────────────────────────────────────────────────────────

  /** A `JsonNode`. `Missing` is the node `path` returns for an absent member. Numbers are
      integers. */
  datatype Json =
    | Missing
    | Null
    | Boolean(b: bool)
    | Number(n: int)
    | Str(s: string)
    | Array(elems: seq<Json>)
    | Object(members: map<string, Json>)

  /** `path(name)`: the member, or the missing node when there is none or this is not an
      object. */
  function Path(node: Json, name: string): (r: Json)
    ensures r != Missing ==> node.Object? && name in node.members && r == node.members[name]
    ensures node.Object? && name in node.members ==> r == node.members[name]
  {
    if node.Object? && name in node.members then node.members[name] else Missing
  }

  /** `asText(default)`: the default for a missing or null node, the text of a value node,
      and "" for a container. */
  function AsText(node: Json, def: string): (r: string)
    ensures node.Missing? || node.Null? ==> r == def
    ensures node.Array? || node.Object? ==> r == ""
  {
    match node
    case Missing => def
    case Null => def
    case Boolean(b) => if b then "true" else "false"
    case Number(n) => IntToString(n)
    case Str(s) => s
    case Array(_) => ""
    case Object(_) => ""
  }

  /** `asInt(default)`: the number cast to `int`, 1 or 0 for a boolean, a text that parses
      as a decimal int, and the default otherwise. */
  function AsInt(node: Json, def: int): (r: int)
    ensures InInt32(def) ==> InInt32(r)
    ensures node.Missing? || node.Null? || node.Array? || node.Object? ==> r == def
  {
    match node
    case Number(n) => ToInt32(n)
    case Boolean(b) => if b then 1 else 0
    case Str(s) => (match ParseInt(Trim(s)) case Ok(v) => v case Err(_) => def)
    case _ => def
  }

  /** `asBoolean(default)`: the boolean itself, a non-zero number, the texts "true" and
      "false", and the default otherwise. */
  function AsBoolean(node: Json, def: bool): (r: bool)
    ensures node.Missing? || node.Null? || node.Array? || node.Object? ==> r == def
  {
    match node
    case Boolean(b) => b
    case Number(n) => n != 0
    case Str(s) => if Trim(s) == "true" then true else if Trim(s) == "false" then false else def
    case _ => def
  }

  /** The defaults apply exactly to absent members. */
  lemma AbsentMemberDefaults(node: Json, name: string, text: string, i: int, b: bool)
    requires !(node.Object? && name in node.members)
    ensures AsText(Path(node, name), text) == text
    ensures AsInt(Path(node, name), i) == i
    ensures AsBoolean(Path(node, name), b) == b
  {
  }

  /** A text member reads back as its own text, a number member as its value when that
      fits in an `int`, and as the value's low 32 bits otherwise. */
  lemma PresentMembersRead(node: Json, name: string, def: string, i: int)
    requires node.Object? && name in node.members
    ensures node.members[name].Str? ==> AsText(Path(node, name), def) == node.members[name].s
    ensures node.members[name].Number? ==> AsInt(Path(node, name), i) == ToInt32(node.members[name].n)
    ensures node.members[name].Number? && InInt32(node.members[name].n) ==>
              AsInt(Path(node, name), i) == node.members[name].n
  {
  }

  /** A fresh `EntryDto` of the given type, title and favourite flag. */
  function NewDto(t: EntryType, title: string, favorite: bool): (d: EntryDto)
    ensures d.entryType == t && d.title == title && d.favorite == favorite
    ensures d.fields == map[] && d.tags == [] && d.categoryName == None
  {
    EntryDto(0, t, title, None, favorite, map[], [], 0, 0)
  }

  /** The images under `f` of the elements from the `n`-th on that `f` keeps, in order: the
      loop `for (x : xs) { ...; if (skip) continue; ...; createEntry(dto); count++; }`. */
  function FilterMap<A, B>(f: A -> Option<B>, xs: seq<A>, n: nat): (ys: seq<B>)
    requires n <= |xs|
    decreases |xs| - n
  {
    if n == |xs| then []
    else
      var rest := FilterMap(f, xs, n + 1);
      match f(xs[n])
      case Some(y) => [y] + rest
      case None => rest
  }

  /** The positions from `n` on whose element `f` keeps. */
  function Kept<A, B>(f: A -> Option<B>, xs: seq<A>, n: nat): set<nat> {
    set i: nat | n <= i < |xs| && f(xs[i]).Some?
  }

  /** One output per kept position, and every output is the image of a kept element. */
  lemma {:induction false} FilterMapSpec<A, B>(f: A -> Option<B>, xs: seq<A>, n: nat)
    requires n <= |xs|
    ensures |FilterMap(f, xs, n)| == |Kept(f, xs, n)|
    ensures forall y :: y in FilterMap(f, xs, n) <==> exists i :: n <= i < |xs| && f(xs[i]) == Some(y)
    decreases |xs| - n
  {
    if n == |xs| {
      assert Kept(f, xs, n) == {};
    } else {
      FilterMapSpec(f, xs, n + 1);
      if f(xs[n]).Some? {
        assert Kept(f, xs, n) == Kept(f, xs, n + 1) + {n};
        assert n !in Kept(f, xs, n + 1);
      } else {
        assert Kept(f, xs, n) == Kept(f, xs, n + 1);
      }
    }
  }

  // ── KeePass CSV ────────────────────────────────────────────────────────────

  type Row = seq<Option<string>>

  /** `safeGet(arr, idx, def)`: the trimmed cell when it exists and is not `null`, else the
      default. */
  function SafeGet(arr: Row, idx: nat, def: string): (r: string)
    ensures idx < |arr| && arr[idx].Some? ==> r == Trim(arr[idx].value)
    ensures idx >= |arr| || arr[idx].None? ==> r == def
  {
    if idx < |arr| && arr[idx].Some? then Trim(arr[idx].value) else def
  }

  /** A cell read by `safeGet` has nothing left to trim at either end. */
  lemma SafeGetTrimmed(arr: Row, idx: nat, def: string)
    requires idx < |arr| && arr[idx].Some?
    ensures var r := SafeGet(arr, idx, def);
      |r| == 0 || (!IsTrimmable(r[0]) && !IsTrimmable(r[|r| - 1]))
  {
    var t := TrimStart(arr[idx].value);
    var r := TrimEnd(t);
    if |r| > 0 {
      assert r == t[..|r|];
      assert r[0] == t[0];
    }
  }

  /** The value `setField` would store for a cell: absent when blank. */
  function Cell(arr: Row, idx: nat): Option<string> {
    var v := SafeGet(arr, idx, "");
    if IsBlank(v) then None else Some(v)
  }

  /** The KeePass column order: Account, Login Name, Password, Web Site, Comments. A row of
      fewer than three cells is skipped; any other becomes a LOGIN. */
  function KeePassRow(row: Row): (r: Option<EntryDto>)
    ensures r.Some? <==> |row| >= 3
  {
    if |row| < 3 then None
    else
      var d := NewDto(LOGIN, SafeGet(row, 0, "Untitled"), false);
      var d := SetField(d, "username", Some(SafeGet(row, 1, "")));
      var d := SetField(d, "password", Some(SafeGet(row, 2, "")));
      var d := SetField(d, "url", Some(SafeGet(row, 3, "")));
      Some(SetField(d, "notes", Some(SafeGet(row, 4, ""))))
  }

  /** An accepted row is a LOGIN titled by its first cell whose fields are exactly the
      non-blank cells among columns one to four, under their field names. */
  lemma KeePassRowFields(row: Row)
    requires |row| >= 3
    ensures var d := KeePassRow(row).value;
      && d.entryType == LOGIN && d.title == SafeGet(row, 0, "Untitled") && !d.favorite
      && d.categoryName == None && d.tags == []
      && Lookup(d.fields, "username") == Cell(row, 1)
      && Lookup(d.fields, "password") == Cell(row, 2)
      && Lookup(d.fields, "url") == Cell(row, 3)
      && Lookup(d.fields, "notes") == Cell(row, 4)
      && d.fields.Keys <= {"username", "password", "url", "notes"}
  {
    var d0 := NewDto(LOGIN, SafeGet(row, 0, "Untitled"), false);
    var d1 := SetField(d0, "username", Some(SafeGet(row, 1, "")));
    var d2 := SetField(d1, "password", Some(SafeGet(row, 2, "")));
    var d3 := SetField(d2, "url", Some(SafeGet(row, 3, "")));
    var d4 := SetField(d3, "notes", Some(SafeGet(row, 4, "")));
    assert KeePassRow(row) == Some(d4);
    SetCell(d0, "username", row, 1);
    SetCell(d1, "password", row, 2);
    SetCell(d2, "url", row, 3);
    SetCell(d3, "notes", row, 4);
  }

  /** `setField` of a cell stores what `Cell` says under its key and nothing else moves. */
  lemma SetCell(d: EntryDto, key: string, row: Row, idx: nat)
    ensures var d' := SetField(d, key, Some(SafeGet(row, idx, "")));
      && d' == d.(fields := d'.fields)
      && Lookup(d'.fields, key) == Cell(row, idx)
      && d'.fields.Keys <= d.fields.Keys + {key}
      && forall k :: k != key ==> Lookup(d'.fields, k) == Lookup(d.fields, k)
  {
  }

  /** `importKeePassCsv`'s mapping: the first row is the header and is skipped; an empty
      file yields nothing. */
  function KeePassEntries(rows: seq<Row>): (dtos: seq<EntryDto>)
    ensures |rows| <= 1 ==> dtos == []
  {
    if |rows| == 0 then [] else FilterMap(KeePassRow, rows, 1)
  }

  /** The indices of the data rows with at least three cells. */
  function LongRows(rows: seq<Row>): set<nat> {
    set i: nat | 1 <= i < |rows| && |rows[i]| >= 3
  }

  /** The number of imported entries is the number of data rows with at least three cells,
      and each comes from such a row. */
  lemma KeePassEntriesSpec(rows: seq<Row>)
    ensures |KeePassEntries(rows)| == |LongRows(rows)|
    ensures forall d :: d in KeePassEntries(rows) <==>
              exists i :: 1 <= i < |rows| && |rows[i]| >= 3 && d == KeePassRow(rows[i]).value
  {
    if |rows| > 0 {
      FilterMapSpec(KeePassRow, rows, 1);
      assert Kept(KeePassRow, rows, 1) == LongRows(rows);
    } else {
      assert LongRows(rows) == {};
    }
  }

  // ── Bitwarden JSON ─────────────────────────────────────────────────────────

  /** The entry one Bitwarden item becomes: type 1 (the default) is a LOGIN with username,
      password and the first uri; type 2 a NOTE whose body is the notes; any other type is
      skipped. */
  function BitwardenItem(item: Json): (r: Option<EntryDto>)
    ensures r.Some? <==> AsInt(Path(item, "type"), 1) in {1, 2}
    ensures r.Some? ==> r.value.title == AsText(Path(item, "name"), "Untitled")
    ensures r.Some? ==> r.value.favorite == AsBoolean(Path(item, "favorite"), false)
    ensures r.Some? ==> r.value.categoryName == None && r.value.tags == []
  {
    var title := AsText(Path(item, "name"), "Untitled");
    var favorite := AsBoolean(Path(item, "favorite"), false);
    var t := AsInt(Path(item, "type"), 1);
    if t == 1 then
      var login := Path(item, "login");
      var d := NewDto(LOGIN, title, favorite);
      var d := SetField(d, "username", Some(AsText(Path(login, "username"), "")));
      var d := SetField(d, "password", Some(AsText(Path(login, "password"), "")));
      var uris := Path(login, "uris");
      if uris.Array? && |uris.elems| > 0 then
        Some(SetField(d, "url", Some(AsText(Path(uris.elems[0], "uri"), ""))))
      else
        Some(d)
    else if t == 2 then
      Some(SetField(NewDto(NOTE, title, favorite), "body", Some(AsText(Path(item, "notes"), ""))))
    else
      None
  }

  /** The value `setField` keeps for a JSON text. */
  function KeptText(text: string): Option<string> {
    if IsBlank(text) then None else Some(text)
  }

  /** What a login item keeps: its username and password, and the url of the first uri when
      `uris` is a non-empty array; nothing else. */
  lemma BitwardenLogin(item: Json)
    requires AsInt(Path(item, "type"), 1) == 1
    ensures var d := BitwardenItem(item).value;
      var login := Path(item, "login");
      var uris := Path(login, "uris");
      && d.entryType == LOGIN
      && Lookup(d.fields, "username") == KeptText(AsText(Path(login, "username"), ""))
      && Lookup(d.fields, "password") == KeptText(AsText(Path(login, "password"), ""))
      && Lookup(d.fields, "url") ==
           (if uris.Array? && |uris.elems| > 0 then KeptText(AsText(Path(uris.elems[0], "uri"), "")) else None)
      && d.fields.Keys <= {"username", "password", "url"}
  {
  }

  /** A note item keeps its notes as `body` and nothing else. */
  lemma BitwardenNote(item: Json)
    requires AsInt(Path(item, "type"), 1) == 2
    ensures var d := BitwardenItem(item).value;
      && d.entryType == NOTE
      && Lookup(d.fields, "body") == KeptText(AsText(Path(item, "notes"), ""))
      && d.fields.Keys <= {"body"}
  {
  }

  /** An item without a `type` member is a login; an item with type 3 or 4 (card,
      identity) is skipped; a type beyond the `int` range is cut to its low 32 bits, so
      2^32 + 2 is a note. */
  lemma BitwardenTypes(item: Json)
    ensures !(item.Object? && "type" in item.members) ==> BitwardenItem(item).value.entryType == LOGIN
    ensures Path(item, "type") in {Number(3), Number(4)} ==> BitwardenItem(item).None?
    ensures Path(item, "type") == Number(0x1_0000_0002) ==> BitwardenItem(item).value.entryType == NOTE
  {
    if Path(item, "type") == Number(0x1_0000_0002) {
      assert ToInt32(0x1_0000_0002) == 2;
      assert AsInt(Path(item, "type"), 1) == 2;
    }
  }

  /** `importBitwarden`'s mapping: a root whose `items` is not an array is rejected before
      any entry is made; otherwise each item of type 1 or 2 yields one entry. */
  function BitwardenEntries(root: Json): (r: Result<seq<EntryDto>>)
    ensures r.Err? <==> !Path(root, "items").Array?
    ensures r.Err? ==> r.error == IllegalArgument("Not a valid Bitwarden export")
  {
    var items := Path(root, "items");
    if !items.Array? then Err(IllegalArgument("Not a valid Bitwarden export"))
    else Ok(FilterMap(BitwardenItem, items.elems, 0))
  }

  /** The indices of the items of type 1 or 2. */
  function KeptItems(items: seq<Json>): set<nat> {
    set i: nat | 0 <= i < |items| && AsInt(Path(items[i], "type"), 1) in {1, 2}
  }

  /** One entry per item of type 1 or 2, and each entry comes from such an item. */
  lemma BitwardenEntriesSpec(root: Json)
    requires Path(root, "items").Array?
    ensures var items := Path(root, "items").elems;
      && |BitwardenEntries(root).value| == |KeptItems(items)|
      && forall d :: d in BitwardenEntries(root).value <==>
           exists i :: 0 <= i < |items| && BitwardenItem(items[i]) == Some(d)
  {
    var items := Path(root, "items").elems;
    FilterMapSpec(BitwardenItem, items, 0);
    assert Kept(BitwardenItem, items, 0) == KeptItems(items);
  }

  // ── Creating the entries ───────────────────────────────────────────────────

  /** The `n` integers from `lo` on. */
  function Range(lo: int, n: nat): (r: set<int>)
    ensures forall x :: x in r <==> lo <= x < lo + n
    ensures |r| == n
  {
    if n == 0 then {} else Range(lo, n - 1) + {lo + n - 1}
  }

  /** An entry row carries the type, title and favourite flag of the dto it was made from. */
  predicate Created(e: Vault.Entry, d: EntryDto) {
    e.entryType == d.entryType && e.title == d.title && e.favorite == d.favorite
  }

  /** The field rows of entry `id` are exactly the dto's non-blank fields, each sealed
      under `key` with the IV `ivs` drew for its name. */
  ghost predicate SealedFrom(p: Primitives, t: FieldStore.FieldTable, id: int, d: EntryDto, key: Key, ivs: string -> Iv) {
    && Sound(p)
    && (forall name :: (id, name) in t <==> name in FieldStore.NonBlank(d.fields))
    && (forall name :: (id, name) in t ==> t[(id, name)] == EncryptString(p, d.fields[name], key, ivs(name)))
  }

  /** The field rows of every entry outside `lo .. lo + n - 1` are as they were. */
  ghost predicate FieldsKept(t: FieldStore.FieldTable, t1: FieldStore.FieldTable, lo: int, n: nat) {
    forall k: (int, string) :: !(lo <= k.0 < lo + n) ==> (k in t1 <==> k in t) && (k in t ==> t1[k] == t[k])
  }

  /** An entry whose rows were sealed from a dto reads back the dto's non-blank fields. */
  lemma SealedFromReads(p: Primitives, t: FieldStore.FieldTable, id: int, d: EntryDto, key: Key, ivs: string -> Iv)
    requires Sound(p) && SealedFrom(p, t, id, d, key, ivs)
    ensures FieldStore.GetFields(p, t, id, key) == Ok(FieldStore.NonBlank(d.fields))
  {
    var rows := FieldStore.RowsOf(t, id);
    forall name | name in rows
      ensures DecryptString(p, rows[name], key) == Ok(d.fields[name])
    {
      DecryptStringEncryptString(p, d.fields[name], key, ivs(name));
    }
    var r := FieldStore.GetFields(p, t, id, key);
    assert r.Ok?;
    assert r.value == FieldStore.NonBlank(d.fields);
  }

  /** One `createEntry`: the vault gains exactly the next id, holding the dto's row and its
      non-blank fields sealed under `ivs`, and keeps every other row and every other entry's
      fields. */
  ghost predicate Appended(p: Primitives, v: Vault.Vault, v1: Vault.Vault, d: EntryDto, key: Key, ivs: string -> Iv) {
    && Vault.Valid(v1)
    && v1.nextEntryId == v.nextEntryId + 1
    && (forall id :: id in v1.entries <==> id in v.entries || id == v.nextEntryId)
    && (forall id :: id in v.entries ==> v1.entries[id] == v.entries[id])
    && v.nextEntryId in v1.entries && Created(v1.entries[v.nextEntryId], d)
    && SealedFrom(p, v1.fields, v.nextEntryId, d, key, ivs)
    && FieldsKept(v.fields, v1.fields, v.nextEntryId, 1)
  }

  lemma CreateEntryAppends(p: Primitives, v: Vault.Vault, d: EntryDto, key: Key, now: int, ivs: string -> Iv)
    requires Sound(p) && Vault.Valid(v)
    ensures Appended(p, v, Vault.CreateEntry(p, v, d, key, now, ivs).1, d, key, ivs)
    ensures FieldStore.GetFields(p, Vault.CreateEntry(p, v, d, key, now, ivs).1.fields, v.nextEntryId, key) ==
            Ok(FieldStore.NonBlank(d.fields))
  {
    FieldStore.GetAfterSet(p, v.fields, v.nextEntryId, d.fields, key, ivs);
  }

  /** `vaultService.createEntry(dto, vaultKey)` as called by an importer. */
  method CreateOne(p: Primitives, v: Vault.Vault, d: EntryDto, key: Key, now: int, ivs: string -> Iv)
    returns (v1: Vault.Vault)
    requires Sound(p) && Vault.Valid(v)
    ensures v1.nextEntryId == v.nextEntryId + 1
    ensures Appended(p, v, v1, d, key, ivs)
    ensures FieldStore.GetFields(p, v1.fields, v.nextEntryId, key) == Ok(FieldStore.NonBlank(d.fields))
  {
    CreateEntryAppends(p, v, d, key, now, ivs);
    v1 := Vault.CreateEntry(p, v, d, key, now, ivs).1;
    SealedFromReads(p, v1.fields, v.nextEntryId, d, key, ivs);
  }

  /** `createEntry` for each dto in order. The new entries take the ids from
      `v.nextEntryId` on, one per dto, and the count the importers return is the number of
      entries the vault gained. The `k`-th dto's fields are sealed under the IVs `ivs(k)`. */
  method CreateAll(p: Primitives, v: Vault.Vault, dtos: seq<EntryDto>, key: Key, now: int, ivs: nat -> string -> Iv)
    returns (v': Vault.Vault)
    requires Sound(p) && Vault.Valid(v)
    ensures EntriesGrown(v, v', dtos, |dtos|)
    ensures |dtos| == 0 ==> v' == v
    ensures |v'.entries| == |v.entries| + |dtos|
    ensures SealedRange(p, v'.fields, v.nextEntryId, dtos, |dtos|, key, ivs)
    ensures ReadsBack(p, v'.fields, v.nextEntryId, dtos, key)
    ensures FieldsKept(v.fields, v'.fields, v.nextEntryId, |dtos|)
  {
    v' := CreateRange(p, v, dtos, key, now, ivs);
    EntriesGrownAll(v, v', dtos);
    SealedRangeReads(p, v'.fields, v.nextEntryId, dtos, key, ivs);
  }

  /** The loop of `CreateAll`: `createEntry` on each dto in order. */
  method CreateRange(p: Primitives, v: Vault.Vault, dtos: seq<EntryDto>, key: Key, now: int, ivs: nat -> string -> Iv)
    returns (v': Vault.Vault)
    requires Sound(p) && Vault.Valid(v)
    ensures Grown(p, v, v', dtos, |dtos|, key, ivs)
    ensures |dtos| == 0 ==> v' == v
  {
    v' := v;
    var k := 0;
    while k < |dtos|
      invariant 0 <= k <= |dtos|
      invariant k == 0 ==> v' == v
      invariant Grown(p, v, v', dtos, k, key, ivs)
    {
      v' := CreateNext(p, v, v', dtos, k, key, now, ivs);
      k := k + 1;
    }
  }

  lemma EntriesGrownAll(v: Vault.Vault, v': Vault.Vault, dtos: seq<EntryDto>)
    requires Vault.Valid(v) && EntriesGrown(v, v', dtos, |dtos|)
    ensures Vault.Valid(v')
    ensures v'.nextEntryId == v.nextEntryId + |dtos|
    ensures forall id :: id in v'.entries <==> id in v.entries || v.nextEntryId <= id < v.nextEntryId + |dtos|
    ensures forall id :: id in v.entries ==> v'.entries[id] == v.entries[id]
    ensures forall id :: v.nextEntryId <= id < v.nextEntryId + |dtos| ==>
              id in v'.entries && Created(v'.entries[id], dtos[id - v.nextEntryId])
    ensures |v'.entries| == |v.entries| + |dtos|
  {
    GrownBy(v.entries, v'.entries, v.nextEntryId, |dtos|);
  }

  /** `createEntry` for the `n`-th dto, extending what has been grown by one. */
  method CreateNext(p: Primitives, v: Vault.Vault, v': Vault.Vault, dtos: seq<EntryDto>, n: nat,
                    key: Key, now: int, ivs: nat -> string -> Iv)
    returns (v1: Vault.Vault)
    requires Sound(p) && Vault.Valid(v) && n < |dtos| && Grown(p, v, v', dtos, n, key, ivs)
    ensures Grown(p, v, v1, dtos, n + 1, key, ivs)
  {
    v1 := CreateOne(p, v', dtos[n], key, now, ivs(n));
    GrownStep(p, v, v', v1, dtos, n, key, ivs);
  }

  /** After the first `n` dtos are created: the vault gained exactly their entries under the
      ids from `v.nextEntryId` on, sealed their fields, and kept everything else. */
  ghost predicate Grown(p: Primitives, v: Vault.Vault, v': Vault.Vault, dtos: seq<EntryDto>, n: nat,
                        key: Key, ivs: nat -> string -> Iv) {
    && EntriesGrown(v, v', dtos, n)
    && SealedRange(p, v'.fields, v.nextEntryId, dtos, n, key, ivs)
    && FieldsKept(v.fields, v'.fields, v.nextEntryId, n)
  }

  /** The entry rows of `Grown`. */
  ghost predicate EntriesGrown(v: Vault.Vault, v': Vault.Vault, dtos: seq<EntryDto>, n: nat) {
    && n <= |dtos|
    && Vault.Valid(v') && v'.nextEntryId == v.nextEntryId + n
    && (forall id :: id in v'.entries <==> id in v.entries || v.nextEntryId <= id < v.nextEntryId + n)
    && (forall id :: id in v.entries ==> v'.entries[id] == v.entries[id])
    && (forall id :: v.nextEntryId <= id < v.nextEntryId + n ==>
          id in v'.entries && Created(v'.entries[id], dtos[id - v.nextEntryId]))
  }

  /** Creating the next dto extends what has been grown by one. */
  lemma GrownStep(p: Primitives, v: Vault.Vault, v': Vault.Vault, v1: Vault.Vault, dtos: seq<EntryDto>, n: nat,
                  key: Key, ivs: nat -> string -> Iv)
    requires n < |dtos| && Vault.Valid(v) && Grown(p, v, v', dtos, n, key, ivs)
    requires Appended(p, v', v1, dtos[n], key, ivs(n))
    ensures Grown(p, v, v1, dtos, n + 1, key, ivs)
  {
    EntriesGrownStep(v, v', v1, dtos, n, p, key, ivs(n));
    SealedRangeStep(p, v'.fields, v1.fields, v.nextEntryId, dtos, n, key, ivs);
    FieldsKeptStep(v.fields, v'.fields, v1.fields, v.nextEntryId, n);
  }

  lemma EntriesGrownStep(v: Vault.Vault, v': Vault.Vault, v1: Vault.Vault, dtos: seq<EntryDto>, n: nat,
                         p: Primitives, key: Key, ivs: string -> Iv)
    requires n < |dtos| && Vault.Valid(v) && EntriesGrown(v, v', dtos, n)
    requires Appended(p, v', v1, dtos[n], key, ivs)
    ensures EntriesGrown(v, v1, dtos, n + 1)
  {
  }

  /** The first `n` dtos' fields are sealed under the ids from `lo` on, the `k`-th one under
      the IVs `ivs(k)`. */
  ghost predicate SealedRange(p: Primitives, t: FieldStore.FieldTable, lo: int, dtos: seq<EntryDto>, n: nat,
                              key: Key, ivs: nat -> string -> Iv) {
    n <= |dtos| && forall k :: 0 <= k < n ==> SealedFrom(p, t, lo + k, dtos[k], key, ivs(k))
  }

  /** Sealing one more dto under the next id, touching no other entry's rows, extends the
      sealed range. */
  lemma SealedRangeStep(p: Primitives, t: FieldStore.FieldTable, t1: FieldStore.FieldTable, lo: int,
                        dtos: seq<EntryDto>, n: nat, key: Key, ivs: nat -> string -> Iv)
    requires n < |dtos| && SealedRange(p, t, lo, dtos, n, key, ivs)
    requires SealedFrom(p, t1, lo + n, dtos[n], key, ivs(n)) && FieldsKept(t, t1, lo + n, 1)
    ensures SealedRange(p, t1, lo, dtos, n + 1, key, ivs)
  {
    forall k | 0 <= k < n ensures SealedFrom(p, t1, lo + k, dtos[k], key, ivs(k)) {
      assert SealedFrom(p, t, lo + k, dtos[k], key, ivs(k));
    }
  }

  /** Entry `lo + k` reads back the non-blank fields of the `k`-th dto, for every `k`. */
  ghost predicate ReadsBack(p: Primitives, t: FieldStore.FieldTable, lo: int, dtos: seq<EntryDto>, key: Key) {
    forall id :: lo <= id < lo + |dtos| ==>
      FieldStore.GetFields(p, t, id, key) == Ok(FieldStore.NonBlank(dtos[id - lo].fields))
  }

  /** Every entry of a fully sealed range reads back its dto's non-blank fields. */
  lemma SealedRangeReads(p: Primitives, t: FieldStore.FieldTable, lo: int, dtos: seq<EntryDto>,
                         key: Key, ivs: nat -> string -> Iv)
    requires Sound(p) && SealedRange(p, t, lo, dtos, |dtos|, key, ivs)
    ensures forall k :: 0 <= k < |dtos| ==> SealedFrom(p, t, lo + k, dtos[k], key, ivs(k))
    ensures ReadsBack(p, t, lo, dtos, key)
  {
    forall id | lo <= id < lo + |dtos|
      ensures FieldStore.GetFields(p, t, id, key) == Ok(FieldStore.NonBlank(dtos[id - lo].fields))
    {
      var k := id - lo;
      assert SealedFrom(p, t, lo + k, dtos[k], key, ivs(k));
      SealedFromReads(p, t, id, dtos[k], key, ivs(k));
    }
  }

  /** Frames compose: rows outside `lo .. lo + n - 1` and outside `lo + n` are outside the
      widened range. */
  lemma FieldsKeptStep(t0: FieldStore.FieldTable, t: FieldStore.FieldTable, t1: FieldStore.FieldTable, lo: int, n: nat)
    requires FieldsKept(t0, t, lo, n) && FieldsKept(t, t1, lo + n, 1)
    ensures FieldsKept(t0, t1, lo, n + 1)
  {
  }

  /** A map that gains the `n` keys from `lo` on, all above its old keys, grows by `n`. */
  lemma GrownBy<V>(m: map<int, V>, m': map<int, V>, lo: int, n: nat)
    requires forall id :: id in m ==> id < lo
    requires forall id :: id in m' <==> id in m || lo <= id < lo + n
    ensures |m'| == |m| + n
  {
    var added := Range(lo, n);
    assert m'.Keys == m.Keys + added;
    assert m.Keys !! added;
    assert |m.Keys + added| == |m.Keys| + |added|;
  }

  /** `importKeePassCsv`: returns the count and the vault with the entries added. */
  method ImportKeePass(p: Primitives, v: Vault.Vault, rows: seq<Row>, key: Key, now: int, ivs: nat -> string -> Iv)
    returns (count: int, v': Vault.Vault)
    requires Sound(p) && Vault.Valid(v)
    ensures Vault.Valid(v')
    ensures count == |LongRows(rows)| == |v'.entries| - |v.entries|
    ensures |rows| <= 1 ==> count == 0 && v' == v
    ensures count == |KeePassEntries(rows)| && v'.nextEntryId == v.nextEntryId + count
    ensures forall id :: id in v.entries ==> id in v'.entries && v'.entries[id] == v.entries[id]
    ensures forall id :: v.nextEntryId <= id < v.nextEntryId + count ==>
              id in v'.entries && Created(v'.entries[id], KeePassEntries(rows)[id - v.nextEntryId])
    ensures forall id :: v.nextEntryId <= id < v.nextEntryId + count ==>
              FieldStore.GetFields(p, v'.fields, id, key) == Ok(FieldStore.NonBlank(KeePassEntries(rows)[id - v.nextEntryId].fields))
  {
    var dtos := KeePassEntries(rows);
    assert |dtos| == |LongRows(rows)| by { KeePassEntriesSpec(rows); }
    v' := CreateAll(p, v, dtos, key, now, ivs);
    count := |dtos|;
  }

  /** `importBitwarden`: a malformed root fails and leaves the vault alone (the result holds
      no vault); otherwise the count and the vault with the entries added. */
  method ImportBitwarden(p: Primitives, v: Vault.Vault, root: Json, key: Key, now: int, ivs: nat -> string -> Iv)
    returns (r: Result<(int, Vault.Vault)>)
    requires Sound(p) && Vault.Valid(v)
    ensures r.Err? <==> !Path(root, "items").Array?
    ensures r.Err? ==> r.error == IllegalArgument("Not a valid Bitwarden export")
    ensures r.Ok? ==> Vault.Valid(r.value.1)
    ensures r.Ok? ==> r.value.0 == |KeptItems(Path(root, "items").elems)| == |r.value.1.entries| - |v.entries|
    ensures r.Ok? ==> r.value.0 == |BitwardenEntries(root).value| && r.value.1.nextEntryId == v.nextEntryId + r.value.0
    ensures r.Ok? ==> forall id :: id in v.entries ==> id in r.value.1.entries && r.value.1.entries[id] == v.entries[id]
    ensures r.Ok? ==> forall id :: v.nextEntryId <= id < v.nextEntryId + r.value.0 ==>
              id in r.value.1.entries && Created(r.value.1.entries[id], BitwardenEntries(root).value[id - v.nextEntryId])
    ensures r.Ok? ==> forall id :: v.nextEntryId <= id < v.nextEntryId + r.value.0 ==>
              FieldStore.GetFields(p, r.value.1.fields, id, key) ==
              Ok(FieldStore.NonBlank(BitwardenEntries(root).value[id - v.nextEntryId].fields))
  {
    var dtos := BitwardenEntries(root);
    if dtos.Err? {
      return Err(dtos.error);
    }
    assert |dtos.value| == |KeptItems(Path(root, "items").elems)| by { BitwardenEntriesSpec(root); }
    var v' := CreateAll(p, v, dtos.value, key, now, ivs);
    return Ok((|dtos.value|, v'));
  }
}
