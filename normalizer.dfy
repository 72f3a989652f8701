/**
 * Cell normalization: a cell becomes an optional string with the
 * surrounding whitespace removed, and a missing or blank cell becomes None.
 */
module Normalizer {
  import opened Wrappers

  /** The characters Python's `str.isspace` accepts, which `str.strip()` removes. */
  predicate IsSpace(c: char)
  {
    var n := c as int;
    (0x09 <= n <= 0x0D) || (0x1C <= n <= 0x20) || n == 0x85 || n == 0xA0 || n == 0x1680
    || (0x2000 <= n <= 0x200A) || n == 0x2028 || n == 0x2029 || n == 0x202F
    || n == 0x205F || n == 0x3000
  }

  predicate AllSpace(s: string)
  {
    forall i :: 0 <= i < |s| ==> IsSpace(s[i])
  }

  /** Neither starts nor ends with whitespace. */
  predicate Trimmed(s: string)
  {
    |s| > 0 ==> !IsSpace(s[0]) && !IsSpace(s[|s| - 1])
  }

  /** `t` is `s` with some whitespace removed from each end. */
  ghost predicate StripsTo(s: string, t: string)
  {
    exists i, j :: 0 <= i <= j <= |s| && s[i..j] == t && AllSpace(s[..i]) && AllSpace(s[j..])
  }

  /** Python's `s.lstrip()`. */
  function TrimStart(s: string): (r: string)
    ensures |r| <= |s| && r == s[|s| - |r|..]
    ensures AllSpace(s[..|s| - |r|])
    ensures |r| > 0 ==> !IsSpace(r[0])
  {
    if |s| > 0 && IsSpace(s[0]) then TrimStart(s[1..]) else s
  }

  /** Python's `s.rstrip()`. */
  function TrimEnd(s: string): (r: string)
    ensures |r| <= |s| && r == s[..|r|]
    ensures AllSpace(s[|r|..])
    ensures |r| > 0 ==> !IsSpace(r[|r| - 1])
  {
    if |s| > 0 && IsSpace(s[|s| - 1]) then TrimEnd(s[..|s| - 1]) else s
  }

  /** Python's `s.strip()`: the part of `s` left once whitespace is removed from both ends. */
  function Strip(s: string): (r: string)
    ensures Trimmed(r)
    ensures StripsTo(s, r)
    ensures r == [] <==> AllSpace(s)
  {
    StripFacts(s);
    TrimEnd(TrimStart(s))
  }

  lemma StripFacts(s: string)
    ensures var r := TrimEnd(TrimStart(s));
      Trimmed(r) && StripsTo(s, r) && (r == [] <==> AllSpace(s))
  {
    var t := TrimStart(s);
    var r := TrimEnd(t);
    var i := |s| - |t|;
    StripsToWitness(s, t, r);
    if r == [] {
      assert t[|r|..] == t;
      assert s[i..] == t;
      AllSpaceJoin(s, i);
    } else {
      assert r[0] == t[0] == s[i];
      assert !IsSpace(s[i]);
    }
  }

  lemma StripsToWitness(s: string, t: string, r: string)
    requires t == TrimStart(s) && r == TrimEnd(t)
    ensures StripsTo(s, r)
  {
    var i := |s| - |t|;
    var j := i + |r|;
    assert s[i..] == t;
    assert s[i..j] == r;
    assert s[j..] == t[|r|..];
  }

  lemma AllSpaceJoin(s: string, i: int)
    requires 0 <= i <= |s| && AllSpace(s[..i]) && AllSpace(s[i..])
    ensures AllSpace(s)
  {
    forall k | 0 <= k < |s| ensures IsSpace(s[k]) {
      if k >= i { assert s[k] == s[i..][k - i]; } else { assert s[k] == s[..i][k]; }
    }
  }

  /** Python truthiness of an `Optional[str]`: present and non-empty. */
  predicate Truthy(x: Option<string>)
  {
    x.Some? && x.value != ""
  }

  /**
   * `normalize`: the cell's text with surrounding whitespace removed, or
   * None when the cell is missing or holds only whitespace.
   */
  function Normalize(x: Option<string>): (r: Option<string>)
    ensures r == None <==> x == None || AllSpace(x.value)
    ensures r.Some? ==> Truthy(r) && Trimmed(r.value) && StripsTo(x.value, r.value)
  {
    match x
    case None => None
    case Some(s) =>
      var t := Strip(s);
      if t == [] then None else Some(t)
  }

  /** Normalizing a normalized value changes nothing. */
  lemma NormalizeIdempotent(x: Option<string>)
    ensures Normalize(Normalize(x)) == Normalize(x)
  {
    var r := Normalize(x);
    if r.Some? {
      var t := r.value;
      assert TrimStart(t) == t;
      assert TrimEnd(t) == t;
    }
  }
}
