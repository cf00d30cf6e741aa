/** `VaultService`: creating, reading and updating entries over the entry, category, tag,
    field and history tables.

    `EntryDAO`, `CategoryDAO` and `TagDAO` are plain tables here: entries by id, categories
    as a list whose position plus one is the id (`findOrCreate` looks names up exactly), and
    the tag list of each entry. Tag de-duplication (`INSERT IGNORE`) and the `ORDER BY name`
    on reading tags back are not modelled: an entry's tags are the trimmed names in the
    order given. */
module Vault {
  import opened Wrappers
  import opened Text
  import opened Crypto
  import opened Entries
  import FieldStore
  import HistoryStore

  /** An `entries` row. */
  datatype Entry = Entry(id: int, entryType: EntryType, title: string, categoryId: Option<nat>,
                         favorite: bool, createdAt: int, updatedAt: int)

  datatype Vault = Vault(
    entries: map<int, Entry>,
    nextEntryId: nat,
    categories: seq<string>,
    tags: map<int, seq<string>>,
    fields: FieldStore.FieldTable,
    history: HistoryStore.History)

  /** Entry ids lie below the next id and the history table is well formed. */
  ghost predicate Valid(v: Vault) {
    && (forall id :: id in v.entries ==> 0 <= id < v.nextEntryId && v.entries[id].id == id)
    && HistoryStore.Valid(v.history)
  }

  /** The position of the first occurrence of `x`. */
  function IndexOf(xs: seq<string>, x: string): (r: Option<nat>)
    ensures r.None? <==> x !in xs
    ensures r.Some? ==> r.value < |xs| && xs[r.value] == x
    ensures r.Some? ==> forall j :: 0 <= j < r.value ==> xs[j] != x
  {
    if |xs| == 0 then None
    else if xs[0] == x then Some(0)
    else
      match IndexOf(xs[1..], x)
      case None => None
      case Some(k) =>
        assert xs[k + 1] == xs[1..][k];
        assert forall j :: 1 <= j < k + 1 ==> xs[j] == xs[1..][j - 1];
        Some(k + 1)
  }

  /** `CategoryDAO.findOrCreate(name)`: the id of the category with that name, created at the
      end of the list when there is none. */
  function FindOrCreate(cats: seq<string>, name: string): (r: (nat, seq<string>))
    ensures 1 <= r.0 <= |r.1| && r.1[r.0 - 1] == name
    ensures name in cats ==> r.1 == cats
    ensures name !in cats ==> r.1 == cats + [name] && r.0 == |r.1|
  {
    match IndexOf(cats, name)
    case Some(i) => (i + 1, cats)
    case None => (|cats| + 1, cats + [name])
  }

  /** `resolveCategory(name)`: `null` for a `null` or blank name, otherwise the id of the
      trimmed name, creating the category if needed. */
  function ResolveCategory(cats: seq<string>, name: Option<string>): (r: (Option<nat>, seq<string>))
    ensures r.0.None? <==> name.None? || IsBlank(name.value)
    ensures r.0.None? ==> r.1 == cats
    ensures r.0.Some? ==> 1 <= r.0.value <= |r.1| && r.1[r.0.value - 1] == Trim(name.value)
    ensures r.0.Some? ==> r.1 == cats || r.1 == cats + [Trim(name.value)]
    ensures r.0.Some? && Trim(name.value) in cats ==> r.1 == cats
  {
    if name.None? || IsBlank(name.value) then (None, cats)
    else
      var (id, cats') := FindOrCreate(cats, Trim(name.value));
      (Some(id), cats')
  }

  /** Resolving the same name twice gives the same category and creates nothing the second
      time. */
  lemma ResolveCategoryIdempotent(cats: seq<string>, name: string)
    requires !IsBlank(name)
    ensures var (id1, cats1) := ResolveCategory(cats, Some(name));
      var (id2, cats2) := ResolveCategory(cats1, Some(name));
      id1 == id2 && cats2 == cats1
  {
    var (id1, cats1) := ResolveCategory(cats, Some(name));
    assert cats1[id1.value - 1] in cats1;
  }

  /** `setTagsForEntry`: each name is trimmed. */
  function TagNames(tags: seq<string>): (names: seq<string>)
    ensures |names| == |tags| && forall i :: 0 <= i < |tags| ==> names[i] == Trim(tags[i])
  {
    seq(|tags|, (i: int) requires 0 <= i < |tags| => Trim(tags[i]))
  }

  /** `createEntry`: insert the entry row stamped `now`, then its fields and tags. `ivs`
      gives the IV drawn for each field. Returns the new id. */
  function CreateEntry(p: Primitives, v: Vault, dto: EntryDto, key: Key, now: int, ivs: string -> Iv)
    : (r: (int, Vault))
    requires Sound(p) && Valid(v)
    ensures Valid(r.1)
    ensures r.0 == v.nextEntryId && r.1.nextEntryId == v.nextEntryId + 1
    ensures r.0 !in v.entries && r.1.entries.Keys == v.entries.Keys + {r.0}
    ensures r.1.entries[r.0] == Entry(r.0, dto.entryType, dto.title, ResolveCategory(v.categories, dto.categoryName).0,
                                      dto.favorite, now, now)
    ensures forall id :: id in v.entries ==> id in r.1.entries && r.1.entries[id] == v.entries[id]
    ensures r.1.history == v.history
  {
    var id := v.nextEntryId;
    var (catId, cats) := ResolveCategory(v.categories, dto.categoryName);
    (id, Vault(v.entries[id := Entry(id, dto.entryType, dto.title, catId, dto.favorite, now, now)],
               v.nextEntryId + 1,
               cats,
               v.tags[id := TagNames(dto.tags)],
               FieldStore.SetFields(p, v.fields, id, dto.fields, key, ivs),
               v.history))
  }

  /** `findById` of a category id; `null` when there is no such category. */
  function CategoryName(cats: seq<string>, id: Option<nat>): (r: Option<string>)
    ensures r.Some? <==> id.Some? && 1 <= id.value <= |cats|
    ensures r.Some? ==> r.value == cats[id.value - 1]
  {
    if id.Some? && 1 <= id.value <= |cats| then Some(cats[id.value - 1]) else None
  }

  /** `getEntry`: `null` for an unknown id; otherwise the entry with its fields decrypted
      under `key`. A field that does not decrypt makes the call fail. */
  function GetEntry(p: Primitives, v: Vault, id: int, key: Key): (r: Result<Option<EntryDto>>)
    ensures id !in v.entries ==> r == Ok(None)
    ensures id in v.entries ==> (r.Ok? <==> FieldStore.GetFields(p, v.fields, id, key).Ok?)
    ensures id in v.entries && r.Ok? ==>
              r.value.Some? && r.value.value.fields == FieldStore.GetFields(p, v.fields, id, key).value
    ensures r.Ok? && r.value.Some? ==>
              var e := v.entries[id];
              var d := r.value.value;
              && d.id == id && d.entryType == e.entryType && d.title == e.title && d.favorite == e.favorite
              && d.categoryName == CategoryName(v.categories, e.categoryId)
              && d.createdAt == e.createdAt && d.updatedAt == e.updatedAt
              && (id in v.tags ==> d.tags == v.tags[id])
  {
    if id !in v.entries then Ok(None)
    else
      var e := v.entries[id];
      var fields :- FieldStore.GetFields(p, v.fields, id, key);
      Ok(Some(EntryDto(id, e.entryType, e.title, CategoryName(v.categories, e.categoryId), e.favorite,
                       fields, Lookup(v.tags, id).GetOr([]), e.createdAt, e.updatedAt)))
  }

  /** A created entry reads back with the dto's type, title, favourite flag, trimmed tags
      and exactly its non-blank fields. */
  lemma CreateThenGet(p: Primitives, v: Vault, dto: EntryDto, key: Key, now: int, ivs: string -> Iv)
    requires Sound(p) && Valid(v)
    ensures var (id, v') := CreateEntry(p, v, dto, key, now, ivs);
      var r := GetEntry(p, v', id, key);
      && r.Ok? && r.value.Some?
      && r.value.value.fields == FieldStore.NonBlank(dto.fields)
      && r.value.value.entryType == dto.entryType && r.value.value.title == dto.title
      && r.value.value.favorite == dto.favorite
      && r.value.value.tags == TagNames(dto.tags)
  {
    FieldStore.GetAfterSet(p, v.fields, v.nextEntryId, dto.fields, key, ivs);
  }

  /** The `password` field of a field map, "" when absent. */
  function Password(fields: map<string, string>): string {
    Lookup(fields, "password").GetOr("")
  }

  /** The history rule: the old password is kept when it is not blank and the new one
      differs from it. */
  predicate PushesHistory(oldFields: map<string, string>, newFields: map<string, string>) {
    !IsBlank(Password(oldFields)) && Password(oldFields) != Password(newFields)
  }

  /** `updateEntry`. An unknown id is an `IllegalArgumentException` before anything changes.
      For a LOGIN entry the stored fields are read first (a failure there escapes, again
      before any write) and the old password goes to the history when the rule says so;
      then the entry row, the fields and the tags are replaced. `historyIv` is the IV of
      the history row; the same `now` stamps the history row and the entry. */
  function UpdateEntry(p: Primitives, v: Vault, dto: EntryDto, key: Key, now: int, ivs: string -> Iv,
                       historyIv: Iv): (r: Result<Vault>)
    requires Sound(p) && Valid(v)
    ensures dto.id !in v.entries ==> r == Err(IllegalArgument("Entry not found: " + IntToString(dto.id)))
    ensures r.Err? && dto.id in v.entries ==>
              v.entries[dto.id].entryType == LOGIN && FieldStore.GetFields(p, v.fields, dto.id, key).Err?
    ensures r.Ok? ==> Valid(r.value) && dto.id in v.entries
    ensures r.Ok? ==> r.value.entries.Keys == v.entries.Keys && r.value.nextEntryId == v.nextEntryId
    ensures r.Ok? ==> forall id :: id in v.entries && id != dto.id ==> r.value.entries[id] == v.entries[id]
    ensures r.Ok? ==> forall e :: e != dto.id ==> HistoryStore.RowsOf(r.value.history, e) == HistoryStore.RowsOf(v.history, e)
    ensures r.Ok? ==> forall k: (int, string) :: k.0 != dto.id ==>
              (k in r.value.fields <==> k in v.fields) && (k in v.fields ==> r.value.fields[k] == v.fields[k])
    ensures r.Ok? ==>
              var e := v.entries[dto.id];
              r.value.entries[dto.id] == Entry(dto.id, e.entryType, dto.title,
                                               ResolveCategory(v.categories, dto.categoryName).0,
                                               dto.favorite, e.createdAt, now)
  {
    if dto.id !in v.entries then Err(IllegalArgument("Entry not found: " + IntToString(dto.id)))
    else
      var existing := v.entries[dto.id];
      var history :-
        if existing.entryType != LOGIN then Ok(v.history)
        else
          var oldFields :- FieldStore.GetFields(p, v.fields, dto.id, key);
          if PushesHistory(oldFields, dto.fields)
          then Ok(HistoryStore.Save(p, v.history, dto.id, Password(oldFields), key, historyIv, now))
          else Ok(v.history);
      var (catId, cats) := ResolveCategory(v.categories, dto.categoryName);
      Ok(Vault(v.entries[dto.id := existing.(title := dto.title, categoryId := catId,
                                             favorite := dto.favorite, updatedAt := now)],
               v.nextEntryId,
               cats,
               v.tags[dto.id := TagNames(dto.tags)],
               FieldStore.SetFields(p, v.fields, dto.id, dto.fields, key, ivs),
               history))
  }

  /** A changed, non-blank LOGIN password is saved to the history exactly once, with the old
      value; when it is the latest change it is the newest history row. */
  lemma UpdatePushesOldPassword(p: Primitives, v: Vault, dto: EntryDto, key: Key, now: int,
                                ivs: string -> Iv, historyIv: Iv)
    requires Sound(p) && Valid(v)
    requires dto.id in v.entries && v.entries[dto.id].entryType == LOGIN
    requires FieldStore.GetFields(p, v.fields, dto.id, key).Ok?
    requires PushesHistory(FieldStore.GetFields(p, v.fields, dto.id, key).value, dto.fields)
    ensures var oldPw := Password(FieldStore.GetFields(p, v.fields, dto.id, key).value);
      var r := UpdateEntry(p, v, dto, key, now, ivs, historyIv);
      && r.Ok?
      && r.value.history == HistoryStore.Save(p, v.history, dto.id, oldPw, key, historyIv, now)
      && r.value.history.nextId == v.history.nextId + 1
    ensures var oldPw := Password(FieldStore.GetFields(p, v.fields, dto.id, key).value);
      var r := UpdateEntry(p, v, dto, key, now, ivs, historyIv);
      HistoryStore.SealedUnder(p, v.history, key) &&
      (forall x :: x in HistoryStore.RowsOf(v.history, dto.id) ==> x.changedAt <= now) ==>
        var h := HistoryStore.FindEntry(p, r.value.history, dto.id, key);
        h.Ok? && |h.value| > 0 && h.value[0].password == oldPw && h.value[0].changedAt == now
  {
    var oldPw := Password(FieldStore.GetFields(p, v.fields, dto.id, key).value);
    if HistoryStore.SealedUnder(p, v.history, key) &&
       (forall x :: x in HistoryStore.RowsOf(v.history, dto.id) ==> x.changedAt <= now) {
      HistoryStore.FindAfterSave(p, v.history, dto.id, oldPw, key, historyIv, now);
    }
  }

  /** No history write for a non-LOGIN entry, a blank old password or an unchanged one. */
  lemma UpdateWithoutHistory(p: Primitives, v: Vault, dto: EntryDto, key: Key, now: int,
                             ivs: string -> Iv, historyIv: Iv)
    requires Sound(p) && Valid(v)
    requires dto.id in v.entries
    requires v.entries[dto.id].entryType != LOGIN ||
             (FieldStore.GetFields(p, v.fields, dto.id, key).Ok? &&
              !PushesHistory(FieldStore.GetFields(p, v.fields, dto.id, key).value, dto.fields))
    ensures UpdateEntry(p, v, dto, key, now, ivs, historyIv).Ok?
    ensures UpdateEntry(p, v, dto, key, now, ivs, historyIv).value.history == v.history
  {
  }

  /** An update of an existing entry succeeds unless it is a LOGIN whose stored fields do not
      decrypt; afterwards the entry's fields and tags are exactly the dto's, and reading them
      back gives the non-blank fields. */
  lemma UpdateReplacesFields(p: Primitives, v: Vault, dto: EntryDto, key: Key, now: int,
                             ivs: string -> Iv, historyIv: Iv)
    requires Sound(p) && Valid(v)
    requires dto.id in v.entries
    requires v.entries[dto.id].entryType != LOGIN || FieldStore.GetFields(p, v.fields, dto.id, key).Ok?
    ensures UpdateEntry(p, v, dto, key, now, ivs, historyIv).Ok?
    ensures var v' := UpdateEntry(p, v, dto, key, now, ivs, historyIv).value;
      && FieldStore.GetFields(p, v'.fields, dto.id, key) == Ok(FieldStore.NonBlank(dto.fields))
      && v'.tags[dto.id] == TagNames(dto.tags)
      && GetEntry(p, v', dto.id, key).Ok?
      && GetEntry(p, v', dto.id, key).value.value.fields == FieldStore.NonBlank(dto.fields)
  {
    var r := UpdateEntry(p, v, dto, key, now, ivs, historyIv);
    assert r.Ok?;
    FieldStore.GetAfterSet(p, v.fields, dto.id, dto.fields, key, ivs);
  }
}
