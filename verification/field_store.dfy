/** `FieldDAO`: the `entry_fields` table, one encrypted value per (entry, field key), the
    pair being the table's unique key. */
module FieldStore {
  import opened Wrappers
  import opened Text
  import opened Hex
  import opened Crypto

  type EntryId = int

  /** (entry_id, field_key) to value_enc */
  type FieldTable = map<(EntryId, string), seq<byte>>

  /** The fields of a plaintext map that are stored: those whose value is not blank. */
  function NonBlank(fields: map<string, string>): (kept: map<string, string>)
    ensures forall name :: name in kept <==> name in fields && !IsBlank(fields[name])
    ensures forall name :: name in kept ==> kept[name] == fields[name]
  {
    map name | name in fields && !IsBlank(fields[name]) :: fields[name]
  }

  /** The stored rows of one entry, by field key. */
  function RowsOf(t: FieldTable, entryId: EntryId): (rows: map<string, seq<byte>>)
    ensures forall name :: name in rows <==> (entryId, name) in t
    ensures forall name :: name in rows ==> rows[name] == t[(entryId, name)]
  {
    map k | k in t && k.0 == entryId :: k.1 := t[k]
  }

  /** `setFields`: delete every row of the entry, then insert one freshly encrypted row per
      non-blank value; `ivs` supplies the random IV drawn for each field. */
  function SetFields(p: Primitives, t: FieldTable, entryId: EntryId, fields: map<string, string>,
                     key: Key, ivs: string -> Iv): (t': FieldTable)
    requires Sound(p)
    ensures forall k: (EntryId, string) :: k.0 != entryId ==> (k in t' <==> k in t)
    ensures forall k: (EntryId, string) :: k.0 != entryId && k in t ==> t'[k] == t[k]
    ensures forall name :: (entryId, name) in t' <==> name in NonBlank(fields)
    ensures forall name :: (entryId, name) in t' ==>
              t'[(entryId, name)] == EncryptString(p, fields[name], key, ivs(name))
  {
    var others := map k | k in t && k.0 != entryId :: t[k];
    var keys := set name | name in NonBlank(fields) :: (entryId, name);
    var written := map k | k in keys :: EncryptString(p, fields[k.1], key, ivs(k.1));
    others + written
  }

  /** Whether a stored value fails to decrypt under `key`. */
  predicate Unreadable(p: Primitives, rows: map<string, seq<byte>>, name: string, key: Key) {
    name in rows && DecryptString(p, rows[name], key).Err?
  }

  /** `getFields`: every stored field of the entry, decrypted. A field that does not decrypt
      makes the whole call fail with that field's exception; when fields fail for different
      reasons the one reported depends on the database's row order, and the model reports
      the short-blob one. */
  function GetFields(p: Primitives, t: FieldTable, entryId: EntryId, key: Key): (r: Result<map<string, string>>)
    ensures r.Ok? <==> forall name :: !Unreadable(p, RowsOf(t, entryId), name, key)
    ensures r.Err? ==> exists name :: Unreadable(p, RowsOf(t, entryId), name, key) &&
                                      DecryptString(p, RowsOf(t, entryId)[name], key).error == r.error
    ensures r.Ok? ==> forall name :: name in r.value <==> (entryId, name) in t
    ensures r.Ok? ==> forall name :: name in r.value ==>
                        Ok(r.value[name]) == DecryptString(p, t[(entryId, name)], key)
  {
    var rows := RowsOf(t, entryId);
    if exists name | name in rows :: Unreadable(p, rows, name, key) then
      if exists name :: name in rows && |rows[name]| <= IvLen then
        ghost var name :| name in rows && |rows[name]| <= IvLen;
        Err(IllegalArgument("Ciphertext too short"))
      else
        ghost var name :| Unreadable(p, rows, name, key);
        Err(BadTag)
    else
      Ok(map name | name in rows :: DecryptString(p, rows[name], key).value)
  }

  /** `getRawField`: the stored blob, or `None` (Java's null) when the row is absent. */
  function GetRawField(t: FieldTable, entryId: EntryId, name: string): (r: Option<seq<byte>>)
    ensures r.None? <==> (entryId, name) !in t
    ensures r.Some? ==> r.value == t[(entryId, name)]
  {
    Lookup(t, (entryId, name))
  }

  /** Every stored value decrypts under `key`. */
  ghost predicate SealedUnder(p: Primitives, t: FieldTable, key: Key) {
    forall k :: k in t ==> DecryptString(p, t[k], key).Ok?
  }

  /** Reading back what was just written returns exactly the non-blank fields. */
  lemma GetAfterSet(p: Primitives, t: FieldTable, entryId: EntryId, fields: map<string, string>,
                    key: Key, ivs: string -> Iv)
    requires Sound(p)
    ensures GetFields(p, SetFields(p, t, entryId, fields, key, ivs), entryId, key) == Ok(NonBlank(fields))
  {
    var t' := SetFields(p, t, entryId, fields, key, ivs);
    var rows := RowsOf(t', entryId);
    forall name | name in rows
      ensures DecryptString(p, rows[name], key) == Ok(fields[name])
    {
      DecryptStringEncryptString(p, fields[name], key, ivs(name));
    }
    var r := GetFields(p, t', entryId, key);
    assert r.Ok?;
    assert r.value == NonBlank(fields);
  }

  /** Writing the fields of one entry under the vault key keeps every row readable. */
  lemma SetFieldsKeepsSealed(p: Primitives, t: FieldTable, entryId: EntryId,
                             fields: map<string, string>, key: Key, ivs: string -> Iv)
    requires Sound(p)
    requires SealedUnder(p, t, key)
    ensures SealedUnder(p, SetFields(p, t, entryId, fields, key, ivs), key)
  {
    var t' := SetFields(p, t, entryId, fields, key, ivs);
    forall k | k in t' ensures DecryptString(p, t'[k], key).Ok? {
      if k.0 == entryId {
        DecryptStringEncryptString(p, fields[k.1], key, ivs(k.1));
      }
    }
  }

  /** In a table whose rows all decrypt, reading any entry succeeds. */
  lemma SealedReadable(p: Primitives, t: FieldTable, entryId: EntryId, key: Key)
    requires SealedUnder(p, t, key)
    ensures GetFields(p, t, entryId, key).Ok?
  {
  }

  /** Writing an empty map clears the entry: a later read returns no fields. */
  lemma SetEmptyClears(p: Primitives, t: FieldTable, entryId: EntryId, key: Key, ivs: string -> Iv)
    requires Sound(p)
    ensures GetFields(p, SetFields(p, t, entryId, map[], key, ivs), entryId, key) == Ok(map[])
  {
    GetAfterSet(p, t, entryId, map[], key, ivs);
    assert NonBlank(map[]) == map[];
  }
}
