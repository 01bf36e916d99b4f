/** The url clean-up that the dashboard applies before every write: JavaScript's
    `String.prototype.trim` followed by adding `https://` when the url names
    neither `http://` nor `https://` (app/dashboard/page.tsx, add and update). */
module UrlFormat {

  /** The characters `trim` removes: ECMAScript WhiteSpace (tab, vertical tab,
      form feed, space, no-break space, byte order mark and the other Unicode
      space separators) and LineTerminator (line feed, carriage return, line
      and paragraph separators). */
  predicate IsSpace(c: char) {
    || c == '\t' || c == '\n' || c == '\U{000B}' || c == '\U{000C}' || c == '\r'
    || c == ' ' || c == '\U{00A0}' || c == '\U{1680}'
    || ('\U{2000}' <= c <= '\U{200A}')
    || c == '\U{2028}' || c == '\U{2029}' || c == '\U{202F}' || c == '\U{205F}'
    || c == '\U{3000}' || c == '\U{FEFF}'
  }

  /** Every character of `s` is a space. */
  predicate AllSpace(s: string) {
    forall i :: 0 <= i < |s| ==> IsSpace(s[i])
  }

  /** Neither end of `s` is a space: what `trim` returns. */
  predicate Trimmed(s: string) {
    s == [] || (!IsSpace(s[0]) && !IsSpace(s[|s| - 1]))
  }

  /** `s` without its leading spaces. */
  function TrimStart(s: string): (r: string)
    ensures |r| <= |s| && r == s[|s| - |r|..]
    ensures AllSpace(s[..|s| - |r|])
    ensures r == [] || !IsSpace(r[0])
  {
    if s != [] && IsSpace(s[0]) then
      var r := TrimStart(s[1..]);
      assert s[..|s| - |r|] == [s[0]] + s[1..][..|s| - 1 - |r|];
      AllSpaceJoin([s[0]], s[1..][..|s| - 1 - |r|]);
      r
    else s
  }

  /** `s` without its trailing spaces. */
  function TrimEnd(s: string): (r: string)
    ensures |r| <= |s| && r == s[..|r|]
    ensures AllSpace(s[|r|..])
    ensures r == [] || !IsSpace(r[|r| - 1])
  {
    if s != [] && IsSpace(s[|s| - 1]) then
      var r := TrimEnd(s[..|s| - 1]);
      assert s[|r|..] == s[..|s| - 1][|r|..] + [s[|s| - 1]];
      AllSpaceJoin(s[..|s| - 1][|r|..], [s[|s| - 1]]);
      r
    else s
  }

  /** `s.trim()`: the slice of `s` left once spaces are cut from both ends. */
  function Trim(s: string): (r: string)
    ensures Trimmed(r)
    ensures |r| <= |s|
    ensures Trimmed(s) ==> r == s
    ensures r == [] <==> AllSpace(s)
  {
    TrimBothEnds(s);
    TrimEmptyIffAllSpace(s);
    TrimEnd(TrimStart(s))
  }

  /** `trim` removes spaces only at the two ends: its result is the slice of
      `s` starting at some `i`, with nothing but spaces before and after it. */
  lemma TrimIsInfix(s: string) returns (i: nat)
    ensures i + |Trim(s)| <= |s|
    ensures Trim(s) == s[i..i + |Trim(s)|]
    ensures AllSpace(s[..i]) && AllSpace(s[i + |Trim(s)|..])
  {
    var t := TrimStart(s);
    var r := TrimEnd(t);
    assert Trim(s) == r;
    i := |s| - |t|;
    SuffixSlices(s, i, |r|);
  }

  /** Slicing a suffix of `s` is slicing `s` itself, shifted. */
  lemma SuffixSlices(s: string, i: nat, n: nat)
    requires i + n <= |s|
    ensures s[i..][..n] == s[i..i + n] && s[i..][n..] == s[i + n..]
  {
  }

  /** Cutting the leading and then the trailing spaces leaves neither. */
  lemma TrimBothEnds(s: string)
    ensures Trimmed(TrimEnd(TrimStart(s)))
    ensures Trimmed(s) ==> TrimEnd(TrimStart(s)) == s && TrimStart(s) == s
  {
    var t := TrimStart(s);
    var r := TrimEnd(t);
    if r != [] {
      assert r[0] == t[0];
    }
  }

  /** Nothing is left exactly when every character is a space. */
  lemma TrimEmptyIffAllSpace(s: string)
    ensures TrimEnd(TrimStart(s)) == [] <==> AllSpace(s)
  {
    var t := TrimStart(s);
    var k := |s| - |t|;
    if TrimEnd(t) == [] {
      assert t[0..] == t;
      assert s == s[..k] + t;
      AllSpaceJoin(s[..k], t);
    }
    if t != [] {
      assert s[k] == t[0] && !IsSpace(s[k]);
    }
  }

  /** Two runs of spaces joined are a run of spaces. */
  lemma AllSpaceJoin(a: string, b: string)
    requires AllSpace(a) && AllSpace(b)
    ensures AllSpace(a + b)
  {
    forall i | 0 <= i < |a + b| ensures IsSpace((a + b)[i]) {
      if i < |a| {
        assert (a + b)[i] == a[i];
      } else {
        assert (a + b)[i] == b[i - |a|];
      }
    }
  }

  /** `s.startsWith(p)`. */
  predicate StartsWith(s: string, p: string) {
    |p| <= |s| && s[..|p|] == p
  }

  /** The url already names one of the two schemes the dashboard accepts. */
  predicate HasScheme(s: string) {
    StartsWith(s, "http://") || StartsWith(s, "https://")
  }

  /** The url the dashboard stores for the typed `s` (page.tsx lines 75-80 for
      an added bookmark, 117-124 for an edited one): `s` trimmed, with `https://`
      put in front unless it already starts with `http://` or `https://`. */
  function NormalizeUrl(s: string): (r: string)
    ensures HasScheme(r) && Trimmed(r)
    ensures HasScheme(Trim(s)) ==> r == Trim(s)
    ensures !HasScheme(Trim(s)) ==> r == "https://" + Trim(s)
  {
    var t := Trim(s);
    if HasScheme(t) then t
    else
      SchemeAdded(t);
      "https://" + t
  }

  /** Putting `https://` in front of a trimmed string gives a trimmed url
      with a scheme. */
  lemma SchemeAdded(t: string)
    requires Trimmed(t)
    ensures HasScheme("https://" + t) && Trimmed("https://" + t)
  {
    var r := "https://" + t;
    assert r[..8] == "https://";
    assert r[0] == 'h';
    assert r[|r| - 1] == if t == [] then '/' else t[|t| - 1];
  }

  /** Normalising a url twice gives the same result as once. */
  lemma {:induction false} NormalizeUrlIdempotent(s: string)
    ensures NormalizeUrl(NormalizeUrl(s)) == NormalizeUrl(s)
  {
    var r := NormalizeUrl(s);
    assert Trim(r) == r;
  }

  /** A url that was all spaces passes the add form's emptiness check (which
      looks at the untrimmed text) and is stored as the bare scheme. */
  lemma {:induction false} BlankUrlBecomesBareScheme(s: string)
    requires AllSpace(s)
    ensures NormalizeUrl(s) == "https://"
  {
    assert Trim(s) == [];
    assert !StartsWith([], "http://") && !StartsWith([], "https://");
  }

  /** A trimmed url that does not start with `h` gains the `https://` scheme. */
  lemma NoSchemeGainsHttps(t: string)
    requires Trimmed(t) && t != [] && t[0] != 'h'
    ensures NormalizeUrl(t) == "https://" + t
  {
    assert !HasScheme(t) by {
      if |t| >= 7 {
        assert t[..7][0] == t[0];
      }
      if |t| >= 8 {
        assert t[..8][0] == t[0];
      }
    }
  }

  /** A bare host gains the `https://` scheme. */
  lemma BareHostGainsScheme()
    ensures NormalizeUrl("example.com") == "https://example.com"
  {
    var bare := "example.com";
    assert Trimmed(bare) by { assert bare[0] == 'e' && bare[|bare| - 1] == 'm'; }
    NoSchemeGainsHttps(bare);
    ExampleUrlSpelledOut();
  }

  /** The two literals joined spell the expected url. */
  lemma ExampleUrlSpelledOut()
    ensures "https://" + "example.com" == "https://example.com"
  {
  }

  /** An `http://` url is kept as it is. */
  lemma HttpUrlKept()
    ensures NormalizeUrl("http://x") == "http://x"
  {
    var plain := "http://x";
    assert Trimmed(plain);
    assert plain[..7] == "http://";
  }
}
