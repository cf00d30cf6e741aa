/** `EntryType` and `EntryDto`: the entry kinds and the decrypted entry the service layer
    passes around. */
module Entries {
  import opened Wrappers
  import opened Text

  /** The four supported entry types. */
  datatype EntryType = LOGIN | NOTE | CARD | IDENTITY

  /** `name()` */
  function Name(t: EntryType): (s: string)
    ensures |s| > 0 && ToUpper(s) == s
  {
    match t
    case LOGIN => "LOGIN"
    case NOTE => "NOTE"
    case CARD => "CARD"
    case IDENTITY => "IDENTITY"
  }

  /** `EntryType.from(name)`: `valueOf(name.toUpperCase())`; an unknown name is an
      `IllegalArgumentException`. */
  function From(s: string): (r: Result<EntryType>)
    ensures r.Ok? <==> exists t :: Name(t) == ToUpper(s)
    ensures r.Ok? ==> Name(r.value) == ToUpper(s)
    ensures r.Err? ==> r.error.IllegalArgument?
  {
    var u := ToUpper(s);
    if u == "LOGIN" then assert Name(LOGIN) == u; Ok(LOGIN)
    else if u == "NOTE" then assert Name(NOTE) == u; Ok(NOTE)
    else if u == "CARD" then assert Name(CARD) == u; Ok(CARD)
    else if u == "IDENTITY" then assert Name(IDENTITY) == u; Ok(IDENTITY)
    else Err(IllegalArgument("No enum constant com.passwordmanager.model.EntryType." + u))
  }

  /** Every type is read back from its own name, and from its name in any letter case. */
  lemma FromName(t: EntryType, s: string)
    requires ToUpper(s) == Name(t)
    ensures From(Name(t)) == Ok(t)
    ensures From(s) == Ok(t)
  {
  }

  /** The four names are distinct, so `From` tells all four types apart. */
  lemma NamesDistinct(a: EntryType, b: EntryType)
    ensures Name(a) == Name(b) <==> a == b
  {
  }

  lemma FromLowerCase()
    ensures From("login") == Ok(LOGIN) && From("Note") == Ok(NOTE)
    ensures From("secret").Err?
  {
    assert ToUpper("login") == "LOGIN";
    assert ToUpper("Note") == "NOTE";
    assert ToUpper("secret") == "SECRET";
  }

  /** `EntryDto`. The field map is a `LinkedHashMap`; its iteration order is not modelled.
      The category name is `null` when the entry has no category. */
  datatype EntryDto = EntryDto(
    id: int,
    entryType: EntryType,
    title: string,
    categoryName: Option<string>,
    favorite: bool,
    fields: map<string, string>,
    tags: seq<string>,
    createdAt: int,
    updatedAt: int)

  /** `getField(key)`: the value, or "" when the key is absent. */
  function GetField(d: EntryDto, key: string): (v: string)
    ensures key in d.fields ==> v == d.fields[key]
    ensures key !in d.fields ==> v == ""
  {
    Lookup(d.fields, key).GetOr("")
  }

  /** `setField(key, value)`: a `null` or blank value removes the key, anything else is
      stored. */
  function SetField(d: EntryDto, key: string, value: Option<string>): (d': EntryDto)
    ensures d' == d.(fields := d'.fields)
    ensures value.None? || IsBlank(value.value) ==> key !in d'.fields && GetField(d', key) == ""
    ensures value.Some? && !IsBlank(value.value) ==> GetField(d', key) == value.value
    ensures forall k :: k != key ==> (k in d'.fields <==> k in d.fields)
    ensures forall k :: k != key && k in d.fields ==> d'.fields[k] == d.fields[k]
  {
    if value.None? || IsBlank(value.value) then d.(fields := d.fields - {key})
    else d.(fields := d.fields[key := value.value])
  }

  /** No stored field value is blank. */
  predicate NoBlankFields(fields: map<string, string>) {
    forall k :: k in fields ==> !IsBlank(fields[k])
  }

  /** `setField` keeps the no-blank invariant. */
  lemma SetFieldKeepsNoBlank(d: EntryDto, key: string, value: Option<string>)
    requires NoBlankFields(d.fields)
    ensures NoBlankFields(SetField(d, key, value).fields)
  {
  }

  /** Applies `setField` for each (key, value) pair in order. */
  function SetFields(d: EntryDto, updates: seq<(string, Option<string>)>): (d': EntryDto)
    decreases |updates|
  {
    if |updates| == 0 then d
    else SetFields(SetField(d, updates[0].0, updates[0].1), updates[1..])
  }

  /** A field map built only through `setField` never holds a blank value. */
  lemma {:induction false} SetFieldsNoBlank(d: EntryDto, updates: seq<(string, Option<string>)>)
    requires NoBlankFields(d.fields)
    ensures NoBlankFields(SetFields(d, updates).fields)
    decreases |updates|
  {
    if |updates| > 0 {
      SetFieldKeepsNoBlank(d, updates[0].0, updates[0].1);
      SetFieldsNoBlank(SetField(d, updates[0].0, updates[0].1), updates[1..]);
    }
  }
}
