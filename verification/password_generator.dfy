/** `PasswordGenerator`: random passwords over selected character classes, and the strength
    score.

    `SecureRandom` is the stream `rng`: the n-th call `rng.nextInt(bound)` returns
    `rng(n) % bound`. Character classification is ASCII (see `Text`). */
module PasswordGenerator {
  import opened Wrappers
  import opened Text

  const Upper: string := "ABCDEFGHIJKLMNOPQRSTUVWXYZ"
  const Lower: string := "abcdefghijklmnopqrstuvwxyz"
  const Digits: string := "0123456789"
  const Symbols: string := "!@#$%^&*()-_=+[]{}|;:,.<>?"

  predicate IsSymbol(c: char) {
    c in Symbols
  }

  /** The four check boxes of the generator. */
  datatype Classes = Classes(upper: bool, lower: bool, digits: bool, symbols: bool)

  /** How many classes are selected. */
  function Selected(k: Classes): (n: nat)
    ensures n <= 4
  {
    (if k.upper then 1 else 0) + (if k.lower then 1 else 0) +
    (if k.digits then 1 else 0) + (if k.symbols then 1 else 0)
  }

  /** The alphabet: the selected classes in the order upper, lower, digits, symbols, or the
      lower-case letters when none is selected. */
  function Pool(k: Classes): (pool: string)
    ensures |pool| > 0
    ensures Selected(k) == 0 ==> pool == Lower
    ensures forall c :: c in pool <==>
              if Selected(k) == 0 then c in Lower
              else (k.upper && c in Upper) || (k.lower && c in Lower) ||
                   (k.digits && c in Digits) || (k.symbols && c in Symbols)
  {
    var pool := (if k.upper then Upper else []) + (if k.lower then Lower else []) +
                (if k.digits then Digits else []) + (if k.symbols then Symbols else []);
    if |pool| == 0 then Lower else pool
  }

  /** Whether a character belongs to a selected class (the lower-case fallback counting as
      selected when nothing is). */
  predicate InPool(k: Classes, c: char) {
    c in Pool(k)
  }

  lemma ClassMembers()
    ensures forall i :: 0 <= i < 26 ==> IsAsciiUpper(Upper[i]) && IsAsciiLower(Lower[i])
    ensures forall i :: 0 <= i < 10 ==> IsDigit(Digits[i])
  {
  }

  /** Each selected class has a character in `s`. */
  predicate Represented(k: Classes, s: string) {
    && (k.upper ==> exists i :: 0 <= i < |s| && s[i] in Upper)
    && (k.lower ==> exists i :: 0 <= i < |s| && s[i] in Lower)
    && (k.digits ==> exists i :: 0 <= i < |s| && s[i] in Digits)
    && (k.symbols ==> exists i :: 0 <= i < |s| && s[i] in Symbols)
  }

  /** One character per selected class, drawn from `rng` starting at draw `n`. Returns the
      characters and the next draw index. */
  function Mandatory(k: Classes, rng: nat -> nat, n: nat): (r: (string, nat))
    ensures |r.0| == Selected(k) && r.1 == n + Selected(k)
    ensures Represented(k, r.0)
    ensures forall i :: 0 <= i < |r.0| ==> InPool(k, r.0[i])
  {
    var u := if k.upper then [Upper[rng(n) % 26]] else [];
    var n1 := n + |u|;
    var l := if k.lower then [Lower[rng(n1) % 26]] else [];
    var n2 := n1 + |l|;
    var d := if k.digits then [Digits[rng(n2) % 10]] else [];
    var n3 := n2 + |d|;
    var s := if k.symbols then [Symbols[rng(n3) % |Symbols|]] else [];
    var out := u + l + d + s;
    assert k.upper ==> out[0] == u[0];
    assert k.lower ==> out[|u|] == l[0];
    assert k.digits ==> out[|u| + |l|] == d[0];
    assert k.symbols ==> out[|u| + |l| + |d|] == s[0];
    (out, n3 + |s|)
  }

  /** Fisher–Yates over a sequence: for i from the end down to 1, swap position i with
      position `rng(n) % (i + 1)`. */
  method Shuffle(chars: string, rng: nat -> nat, n: nat) returns (out: string)
    ensures |out| == |chars|
    ensures multiset(out) == multiset(chars)
  {
    out := chars;
    var i := |out| - 1;
    var draw := n;
    while i > 0
      invariant i < |out| == |chars|
      invariant multiset(out) == multiset(chars)
    {
      var j := rng(draw) % (i + 1);
      draw := draw + 1;
      var tmp := out[i];
      out := out[i := out[j]][j := tmp];
      i := i - 1;
    }
  }

  /** Pads `pw` with characters drawn from `pool` until it is `length` long. */
  method Pad(pw: string, length: int, pool: string, rng: nat -> nat, n: nat) returns (out: string, next: nat)
    requires |pool| > 0
    ensures |out| == if length < |pw| then |pw| else length
    ensures out[..|pw|] == pw
    ensures forall i :: |pw| <= i < |out| ==> out[i] in pool
  {
    out := pw;
    next := n;
    while |out| < length
      invariant |pw| <= |out| <= (if length < |pw| then |pw| else length)
      invariant out[..|pw|] == pw
      invariant forall i :: |pw| <= i < |out| ==> out[i] in pool
      decreases length - |out|
    {
      out := out + [pool[rng(next) % |pool|]];
      next := next + 1;
    }
  }

  /** `generate(length, ...)`. A length below one is an `IllegalArgumentException`. The
      result has one character of each selected class, is padded from the pool up to
      `length`, and is then shuffled. */
  method Generate(length: int, k: Classes, rng: nat -> nat) returns (r: Result<string>)
    ensures length < 1 <==> r.Err?
    ensures r.Err? ==> r.error == IllegalArgument("Length must be ≥ 1")
    ensures r.Ok? ==> |r.value| == if length < Selected(k) then Selected(k) else length
    ensures r.Ok? ==> forall i :: 0 <= i < |r.value| ==> InPool(k, r.value[i])
    ensures r.Ok? && Selected(k) == 0 ==> forall i :: 0 <= i < |r.value| ==> r.value[i] in Lower
    ensures r.Ok? ==> Represented(k, r.value)
  {
    if length < 1 {
      return Err(IllegalArgument("Length must be ≥ 1"));
    }
    var (first, draw) := Mandatory(k, rng, 0);
    var pw, next := Pad(first, length, Pool(k), rng, draw);
    var shuffled := Shuffle(pw, rng, next);
    ShuffleKeeps(k, first, pw, shuffled);
    return Ok(shuffled);
  }

  /** A permutation of a padded sequence keeps the pool membership of every character and a
      character of each class represented in the unpadded prefix. */
  lemma ShuffleKeeps(k: Classes, first: string, a: string, b: string)
    requires multiset(a) == multiset(b)
    requires |first| <= |a| && a[..|first|] == first
    requires Represented(k, first)
    requires forall i :: 0 <= i < |first| ==> InPool(k, first[i])
    requires forall i :: |first| <= i < |a| ==> a[i] in Pool(k)
    ensures forall i :: 0 <= i < |b| ==> InPool(k, b[i])
    ensures Represented(k, b)
  {
    forall c ensures c in a <==> c in b {
      assert c in a <==> c in multiset(a);
      assert c in b <==> c in multiset(b);
    }
    forall i | 0 <= i < |a| ensures InPool(k, a[i]) {
      if i < |first| {
        assert a[i] == first[i];
      }
    }
    forall i | 0 <= i < |b| ensures InPool(k, b[i]) {
      assert b[i] in a;
    }
    forall i | 0 <= i < |first| ensures first[i] in b {
      assert first[i] == a[i];
    }
    assert Represented(k, b) by {
      if k.upper {
        var i :| 0 <= i < |first| && first[i] in Upper;
        var j :| 0 <= j < |b| && b[j] == first[i];
      }
      if k.lower {
        var i :| 0 <= i < |first| && first[i] in Lower;
        var j :| 0 <= j < |b| && b[j] == first[i];
      }
      if k.digits {
        var i :| 0 <= i < |first| && first[i] in Digits;
        var j :| 0 <= j < |b| && b[j] == first[i];
      }
      if k.symbols {
        var i :| 0 <= i < |first| && first[i] in Symbols;
        var j :| 0 <= j < |b| && b[j] == first[i];
      }
    }
  }

  // ── Strength ────────────────────────────────────────────────────────────────

  predicate HasUpper(s: string) {
    exists i | 0 <= i < |s| :: IsAsciiUpper(s[i])
  }

  predicate HasDigit(s: string) {
    exists i | 0 <= i < |s| :: IsDigit(s[i])
  }

  predicate HasSymbol(s: string) {
    exists i | 0 <= i < |s| :: IsSymbol(s[i])
  }

  /** The five criteria of the score, before the cap; the length is `String.length`, in
      UTF-16 units. */
  function Criteria(s: string): (n: nat)
    ensures n <= 5
  {
    (if Utf16Length(s) >= 8 then 1 else 0) + (if Utf16Length(s) >= 14 then 1 else 0) +
    (if HasUpper(s) then 1 else 0) + (if HasDigit(s) then 1 else 0) + (if HasSymbol(s) then 1 else 0)
  }

  /** `strength(password)`: 0 for `null` or "", else the number of criteria met, capped
      at 4. */
  function Strength(password: Option<string>): (score: nat)
    ensures score <= 4
    ensures password.None? || password.value == "" ==> score == 0
  {
    match password
    case None => 0
    case Some(s) =>
      if |s| == 0 then 0
      else
        var n := Criteria(s);
        if n < 4 then n else 4
  }

  /** Lower-case letters earn nothing: a password of lower-case letters scores by length
      alone. */
  lemma LowerCaseEarnsNothing(s: string)
    requires forall i :: 0 <= i < |s| ==> IsAsciiLower(s[i])
    ensures Strength(Some(s)) == (if |s| >= 8 then 1 else 0) + (if |s| >= 14 then 1 else 0)
  {
    assert InBmp(s);
    Utf16Bmp(s);
    assert !HasUpper(s) && !HasDigit(s);
    assert !HasSymbol(s) by {
      forall i | 0 <= i < |s| ensures !IsSymbol(s[i]) {
        assert !IsAsciiLower(Symbols[0]);
        assert forall j :: 0 <= j < |Symbols| ==> !IsAsciiLower(Symbols[j]);
      }
    }
  }

  /** Adding characters never lowers the score. */
  lemma StrengthMonotone(s: string, t: string)
    ensures Strength(Some(s)) <= Strength(Some(s + t))
  {
    var st := s + t;
    Utf16Append(s, t);
    if HasUpper(s) { var i :| 0 <= i < |s| && IsAsciiUpper(s[i]); assert st[i] == s[i]; }
    if HasDigit(s) { var i :| 0 <= i < |s| && IsDigit(s[i]); assert st[i] == s[i]; }
    if HasSymbol(s) { var i :| 0 <= i < |s| && IsSymbol(s[i]); assert st[i] == s[i]; }
  }

  /** The length counts UTF-16 units: four emoji and one capital are nine units, so the
      length criterion holds along with the upper-case one. */
  lemma StrengthCountsUnits()
    ensures Strength(Some("\U{1F600}\U{1F600}\U{1F600}\U{1F600}A")) == 2
  {
    var s := "\U{1F600}\U{1F600}\U{1F600}\U{1F600}A";
    SurrogatesCountTwice();
    assert IsAsciiUpper(s[4]);
    assert !HasDigit(s) by {
      forall i | 0 <= i < |s| ensures !IsDigit(s[i]) {
        assert s[i] == '\U{1F600}' || s[i] == 'A';
      }
    }
    assert !HasSymbol(s) by {
      forall i | 0 <= i < |s| ensures !IsSymbol(s[i]) {
        assert s[i] == '\U{1F600}' || s[i] == 'A';
        assert 'A' !in Symbols && '\U{1F600}' !in Symbols;
      }
    }
  }

  /** A generated password of length at least eight with upper case, digits and symbols
      selected scores the maximum. */
  lemma GeneratedIsStrong(k: Classes, pw: string)
    requires k.upper && k.digits && k.symbols
    requires |pw| >= 8 && Represented(k, pw)
    ensures Strength(Some(pw)) == 4
  {
    ClassMembers();
    var a :| 0 <= a < |pw| && pw[a] in Upper;
    var b :| 0 <= b < |pw| && pw[b] in Digits;
    var c :| 0 <= c < |pw| && pw[c] in Symbols;
    assert IsAsciiUpper(pw[a]);
    assert IsDigit(pw[b]);
    assert IsSymbol(pw[c]);
  }
}
