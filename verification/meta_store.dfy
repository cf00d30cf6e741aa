/** `MetaDAO`: the `vault_meta` table as a map from key name to text value. Key names are
    compared exactly (the database collation's case folding is outside the model). */
module MetaStore {
  import opened Wrappers

  type Meta = map<string, string>

  /** `get`: the stored value, or `None` (Java's null) for an absent key. */
  function Get(m: Meta, key: string): (r: Option<string>)
    ensures r.None? <==> key !in m
    ensures r.Some? ==> r.value == m[key]
  {
    Lookup(m, key)
  }

  /** `set`: `INSERT ... ON DUPLICATE KEY UPDATE`, an upsert. */
  function Set(m: Meta, key: string, value: string): (m': Meta)
    ensures Get(m', key) == Some(value)
    ensures forall k :: k != key ==> Get(m', k) == Get(m, k)
    ensures m'.Keys == m.Keys + {key}
  {
    m[key := value]
  }

  /** `exists`: whether `get` finds a value, which is whether the table has a row for the
      key. */
  predicate Exists(m: Meta, key: string)
    ensures Exists(m, key) <==> key in m
  {
    Get(m, key).Some?
  }

  /** `exists(k)` holds exactly when `get(k)` is not null, and a key exists once set. */
  lemma ExistsAfterSet(m: Meta, key: string, value: string, other: string)
    ensures Exists(Set(m, key, value), key)
    ensures other != key ==> (Exists(Set(m, key, value), other) <==> Exists(m, other))
  {
  }

  /** Setting a key twice keeps the later value, and setting two different keys commutes. */
  lemma SetLastWins(m: Meta, k1: string, v1: string, k2: string, v2: string)
    ensures Set(Set(m, k1, v1), k1, v2) == Set(m, k1, v2)
    ensures k1 != k2 ==> Set(Set(m, k1, v1), k2, v2) == Set(Set(m, k2, v2), k1, v1)
  {
  }
}
