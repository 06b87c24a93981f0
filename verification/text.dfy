/**
 The string operations the station scraper relies on, written out with the
 meaning Python gives them: `str.strip()`, the `in` operator on strings,
 `str.index` of a character and `str.replace(pattern, "")`.
 */
module Text {
  import opened Wrappers

  /** True for exactly the characters Python's `str.isspace` accepts, which
      are the ones `str.strip()` with no argument removes. */
  predicate IsSpace(c: char) {
    || ('\t' <= c <= '\r')
    || ('\U{1C}' <= c <= '\U{1F}')
    || c == ' '
    || c == '\U{85}'
    || c == '\U{A0}'
    || c == '\U{1680}'
    || ('\U{2000}' <= c <= '\U{200A}')
    || c == '\U{2028}'
    || c == '\U{2029}'
    || c == '\U{202F}'
    || c == '\U{205F}'
    || c == '\U{3000}'
  }

  /** Every character of `s` from `lo` up to `hi` is whitespace. */
  predicate SpaceBetween(s: string, lo: int, hi: int)
    requires 0 <= lo <= hi <= |s|
  {
    forall k :: lo <= k < hi ==> IsSpace(s[k])
  }

  /** The position of the first non-whitespace character of `s` at or
      after `from`, or `|s|` when there is none. */
  function SkipSpaces(s: string, from: nat): (i: nat)
    requires from <= |s|
    ensures from <= i <= |s|
    ensures SpaceBetween(s, from, i)
    ensures i < |s| ==> !IsSpace(s[i])
    decreases |s| - from
  {
    if from < |s| && IsSpace(s[from]) then SkipSpaces(s, from + 1) else from
  }

  /** The end of `s[lo..hi]` once its trailing whitespace is gone. */
  function SkipSpacesBack(s: string, lo: nat, hi: nat): (j: nat)
    requires lo <= hi <= |s|
    ensures lo <= j <= hi
    ensures SpaceBetween(s, j, hi)
    ensures j > lo ==> !IsSpace(s[j - 1])
    decreases hi
  {
    if lo < hi && IsSpace(s[hi - 1]) then SkipSpacesBack(s, lo, hi - 1) else hi
  }

  /** Python's `s.strip()`: the slice of `s` left once the whitespace at both
      ends is gone; it neither starts nor ends with whitespace, and only
      whitespace was cut. */
  function Strip(s: string): (r: string)
    ensures |r| <= |s|
    ensures exists i :: 0 <= i <= |s| - |r| && r == s[i..i + |r|]
                       && SpaceBetween(s, 0, i) && SpaceBetween(s, i + |r|, |s|)
    ensures r == [] || (!IsSpace(r[0]) && !IsSpace(r[|r| - 1]))
  {
    var i := SkipSpaces(s, 0);
    var j := SkipSpacesBack(s, i, |s|);
    var r := s[i..j];
    assert r == s[i..i + |r|];
    assert r != [] ==> r[0] == s[i] && r[|r| - 1] == s[j - 1];
    r
  }

  /** Stripping a string that already has no whitespace at either end
      leaves it unchanged, so `Strip` is idempotent. */
  lemma StripIdempotent(s: string)
    ensures Strip(Strip(s)) == Strip(s)
  {
    var r := Strip(s);
    assert SkipSpaces(r, 0) == 0;
    assert SkipSpacesBack(r, 0, |r|) == |r|;
    assert r[0..|r|] == r;
  }

  /** `pat` is a prefix of `s`. */
  predicate StartsWith(s: string, pat: string) {
    |pat| <= |s| && s[..|pat|] == pat
  }

  /** Python's `pat in s` for two strings, as a left-to-right scan: `pat`
      starts at the front of `s` or somewhere in its tail. */
  predicate Contains(s: string, pat: string)
    decreases |s|
  {
    StartsWith(s, pat) || (|s| > 0 && Contains(s[1..], pat))
  }

  /** The scan finds `pat` exactly when it occurs at some position of `s`. */
  lemma {:induction false} ContainsIffOccurs(s: string, pat: string)
    ensures Contains(s, pat) <==> exists i :: 0 <= i <= |s| && StartsWith(s[i..], pat)
    decreases |s|
  {
    assert s[0..] == s;
    if |s| > 0 {
      ContainsIffOccurs(s[1..], pat);
      forall i | 0 <= i <= |s[1..]| ensures s[1..][i..] == s[i + 1..] { }
      if exists i :: 0 <= i <= |s| && StartsWith(s[i..], pat) {
        var i :| 0 <= i <= |s| && StartsWith(s[i..], pat);
        if i > 0 { assert StartsWith(s[1..][i - 1..], pat); }
      }
    }
  }

  /** The empty string occurs in every string. */
  lemma EmptyOccursEverywhere(s: string)
    ensures Contains(s, "")
  {
  }

  /** Python's `s.index(c)` when `c in s`: the position of the first `c`.
      `None` exactly when `c` does not occur. */
  function IndexOf(s: string, c: char): (r: Option<nat>)
    ensures r.None? <==> c !in s
    ensures r.Some? ==> r.value < |s| && s[r.value] == c && c !in s[..r.value]
    decreases |s|
  {
    if |s| == 0 then None
    else if s[0] == c then Some(0)
    else match IndexOf(s[1..], c)
      case None => None
      case Some(i) => Some(i + 1)
  }

  /** Python's `s.replace(pat, "")` for a non-empty `pat`: occurrences are
      found left to right, and the scan resumes after each one removed, so
      occurrences never overlap. */
  function RemoveAll(s: string, pat: string): (r: string)
    requires pat != []
    ensures |r| <= |s|
    decreases |s|
  {
    if s == [] then []
    else if StartsWith(s, pat) then RemoveAll(s[|pat|..], pat)
    else [s[0]] + RemoveAll(s[1..], pat)
  }

  /** A string in which `pat` does not occur is left untouched. */
  lemma {:induction false} RemoveAllAbsent(s: string, pat: string)
    requires pat != [] && !Contains(s, pat)
    ensures RemoveAll(s, pat) == s
    decreases |s|
  {
    if s != [] {
      RemoveAllAbsent(s[1..], pat);
      assert s == [s[0]] + s[1..];
    }
  }

  /** A leading copy of `pat` is removed. */
  lemma RemoveAllLeading(pat: string, t: string)
    requires pat != []
    ensures RemoveAll(pat + t, pat) == RemoveAll(t, pat)
  {
    assert (pat + t)[..|pat|] == pat;
    assert (pat + t)[|pat|..] == t;
  }

  /** A prefix `p` in which no occurrence of `pat` starts passes through. */
  lemma {:induction false} RemoveAllKeepsClearPrefix(p: string, t: string, pat: string)
    requires pat != []
    requires forall i :: 0 <= i < |p| ==> !StartsWith((p + t)[i..], pat)
    ensures RemoveAll(p + t, pat) == p + RemoveAll(t, pat)
    decreases |p|
  {
    if p != [] {
      var s := p + t;
      assert s[0..] == s;
      assert !StartsWith(s, pat);
      assert s[1..] == p[1..] + t;
      forall i | 0 <= i < |p[1..]|
        ensures !StartsWith((p[1..] + t)[i..], pat)
      {
        assert (p[1..] + t)[i..] == s[i + 1..];
      }
      RemoveAllKeepsClearPrefix(p[1..], t, pat);
      assert RemoveAll(s, pat) == [p[0]] + RemoveAll(p[1..] + t, pat);
      assert p + RemoveAll(t, pat) == [p[0]] + (p[1..] + RemoveAll(t, pat));
    } else {
      assert p + t == t;
    }
  }

  /** No proper prefix of `pat` is also a suffix of it, so two occurrences
      of `pat` can never overlap. */
  predicate BorderFree(pat: string) {
    forall k :: 0 < k < |pat| ==> pat[..k] != pat[|pat| - k..]
  }

  /** The pieces of `s` glued back together with `sep` between them. */
  function Join(pieces: seq<string>, sep: string): string
    decreases |pieces|
  {
    if |pieces| == 0 then []
    else if |pieces| == 1 then pieces[0]
    else pieces[0] + sep + Join(pieces[1..], sep)
  }

  /** The pieces glued back together with nothing between them. */
  function Concat(pieces: seq<string>): string
    decreases |pieces|
  {
    if |pieces| == 0 then [] else pieces[0] + Concat(pieces[1..])
  }

  /** An occurrence of `pat` that starts inside `p` and runs into a
      following copy of `pat` would make a suffix of `pat` equal to a prefix
      of it. */
  lemma OverlapIsBorder(p: string, pat: string, rest: string, i: nat)
    requires i < |p| < i + |pat|
    requires BorderFree(pat)
    ensures !StartsWith((p + pat + rest)[i..], pat)
  {
    var s := p + pat + rest;
    var k := |p| - i;
    var m := |pat| - k;
    var w := s[i..][..|pat|];
    assert w[k..] == pat[..m] by {
      forall q | 0 <= q < m ensures w[k..][q] == pat[..m][q] {
        assert w[k..][q] == s[|p| + q];
      }
    }
    assert pat[..m] != pat[|pat| - m..];
  }

  /** Before a copy of a border-free `pat`, a piece that does not contain
      `pat` cannot start an occurrence either. */
  lemma NoOccurrenceStartsInPiece(p: string, pat: string, rest: string)
    requires pat != [] && BorderFree(pat) && !Contains(p, pat)
    ensures forall i :: 0 <= i < |p| ==> !StartsWith((p + pat + rest)[i..], pat)
  {
    var s := p + pat + rest;
    ContainsIffOccurs(p, pat);
    forall i | 0 <= i < |p|
      ensures !StartsWith(s[i..], pat)
    {
      if i + |pat| <= |p| {
        assert s[i..][..|pat|] == p[i..][..|pat|];
        assert !StartsWith(p[i..], pat);
      } else {
        OverlapIsBorder(p, pat, rest, i);
      }
    }
  }

  /** What removing a border-free `pat` means: when `s` is the pieces glued
      with `pat` and no piece contains `pat`, the result is the pieces
      glued with nothing. */
  lemma {:induction false} RemoveAllJoin(pieces: seq<string>, pat: string)
    requires pat != [] && BorderFree(pat)
    requires forall k :: 0 <= k < |pieces| ==> !Contains(pieces[k], pat)
    ensures RemoveAll(Join(pieces, pat), pat) == Concat(pieces)
    decreases |pieces|
  {
    if |pieces| == 0 {
    } else if |pieces| == 1 {
      RemoveAllAbsent(pieces[0], pat);
      assert Concat(pieces) == pieces[0] + Concat(pieces[1..]);
    } else {
      var p, rest := pieces[0], Join(pieces[1..], pat);
      NoOccurrenceStartsInPiece(p, pat, rest);
      assert p + pat + rest == p + (pat + rest);
      RemoveAllKeepsClearPrefix(p, pat + rest, pat);
      RemoveAllLeading(pat, rest);
      RemoveAllJoin(pieces[1..], pat);
    }
  }
}
