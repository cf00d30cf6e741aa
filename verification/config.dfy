/** `ConfigLoader`: typed reads over the loaded `config.properties`. Locating and reading the
    file is outside the model; `Load` stands for a successful `init`. */
module Config {
  import opened Wrappers
  import opened Text

  datatype Loader = Loader(initialized: bool, props: map<string, string>)

  /** The loader before `init` has run. */
  const Fresh: Loader := Loader(false, map[])

  /** `init` after the properties file was read into `props`. */
  function Load(props: map<string, string>): (c: Loader)
    ensures forall key :: Get(c, key) == Ok(Lookup(props, key))
    ensures forall key, default :: GetOr(c, key, default) == Ok(Lookup(props, key).GetOr(default))
  {
    Loader(true, props)
  }

  const NotInitialized: string := "ConfigLoader not initialized – call ConfigLoader.init() first"

  /** `get(key)`: the property, or `None` (Java's null) when absent. */
  function Get(c: Loader, key: string): (r: Result<Option<string>>)
    ensures !c.initialized <==> r.Err?
    ensures r.Err? ==> r.error == IllegalState(NotInitialized)
    ensures r.Ok? ==> (r.value.Some? <==> key in c.props)
    ensures r.Ok? && r.value.Some? ==> r.value.value == c.props[key]
  {
    if !c.initialized then Err(IllegalState(NotInitialized)) else Ok(Lookup(c.props, key))
  }

  /** `get(key, defaultValue)` */
  function GetOr(c: Loader, key: string, default: string): (r: Result<string>)
    ensures !c.initialized <==> r.Err?
    ensures r.Err? ==> r.error.IllegalState?
    ensures r.Ok? && key !in c.props ==> r.value == default
    ensures r.Ok? && key in c.props ==> r.value == c.props[key]
  {
    var v :- Get(c, key);
    Ok(v.GetOr(default))
  }

  /** `getInt(key, defaultValue)`: the trimmed value parsed as a decimal `int`; an absent
      key, a non-numeric value or one outside the `int` range yields the default. */
  function GetInt(c: Loader, key: string, default: int): (r: Result<int>)
    ensures !c.initialized <==> r.Err?
    ensures r.Err? ==> r.error.IllegalState?
    ensures r.Ok? && key !in c.props ==> r.value == default
    ensures r.Ok? && key in c.props && ParseInt(Trim(c.props[key])).Err? ==> r.value == default
    ensures r.Ok? && key in c.props && ParseInt(Trim(c.props[key])).Ok? ==>
              r.value == ParseInt(Trim(c.props[key])).value
  {
    var v :- Get(c, key);
    match v
    case None => Ok(default)
    case Some(text) =>
      match ParseInt(Trim(text))
      case Ok(n) => Ok(n)
      case Err(_) => Ok(default)
  }

  /** Every read before `init` fails with `IllegalStateException`. */
  lemma ReadsBeforeInitFail(key: string, default: string, n: int)
    ensures Get(Fresh, key).Err? && GetOr(Fresh, key, default).Err? && GetInt(Fresh, key, n).Err?
  {
  }

  /** A number written with surrounding blanks is read back as that number. */
  lemma GetIntTrims(props: map<string, string>, key: string, pad: string, n: int, default: int)
    requires InInt32(n)
    requires AllTrimmable(pad)
    requires key in props && props[key] == pad + IntToString(n) + pad
    ensures GetInt(Load(props), key, default) == Ok(n)
  {
    var s := IntToString(n);
    assert |s| > 0 && !IsTrimmable(s[0]) && !IsTrimmable(s[|s| - 1]) by {
      if n < 0 {
        assert s[|s| - 1] == NatToDigits(-n)[|NatToDigits(-n)| - 1];
      }
    }
    TrimPadded(pad, s, pad);
    ParseIntRoundTrip(n);
  }

  /** A value that is not a number gives the default rather than an exception. */
  lemma GetIntMalformedDefaults(props: map<string, string>, key: string, default: int)
    requires key in props && props[key] == "12ab"
    ensures GetInt(Load(props), key, default) == Ok(default)
  {
    assert Trim("12ab") == "12ab" by {
      TrimPadded("", "12ab", "");
      assert "" + "12ab" + "" == "12ab";
    }
    assert !AllDigits("12ab") by { assert !IsDigit("12ab"[2]); }
    assert ParseInt("12ab").Err?;
    var c := Load(props);
    assert Get(c, key) == Ok(Some("12ab"));
  }
}
