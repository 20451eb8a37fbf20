/** The JavaScript string operations the handlers rely on: `trim` and the
    first occurrence of a separator, as `split(sep)[0]` and `split(sep)[1]`
    use it. */
module Text {
  import opened Models

  /** The characters `String.prototype.trim` removes: ECMAScript WhiteSpace
      (tab, vertical tab, form feed, space, no-break space, byte-order mark
      and the Unicode space separators) and LineTerminator. */
  predicate IsJsWhitespace(c: char)
  {
    || c == '\t' || c == '\n' || c == '\U{000B}' || c == '\U{000C}' || c == '\r' || c == ' '
    || c == '\U{00A0}' || c == '\U{1680}' || ('\U{2000}' <= c <= '\U{200A}')
    || c == '\U{2028}' || c == '\U{2029}' || c == '\U{202F}' || c == '\U{205F}'
    || c == '\U{3000}' || c == '\U{FEFF}'
  }

  predicate AllWhitespace(s: string)
  {
    forall i :: 0 <= i < |s| ==> IsJsWhitespace(s[i])
  }

  function TrimStart(s: string): string
  {
    if s != [] && IsJsWhitespace(s[0]) then TrimStart(s[1..]) else s
  }

  function TrimEnd(s: string): string
  {
    if s != [] && IsJsWhitespace(s[|s| - 1]) then TrimEnd(s[..|s| - 1]) else s
  }

  /** `s.trim()`. */
  function Trim(s: string): string
  {
    TrimEnd(TrimStart(s))
  }

  /** `TrimStart` drops a leading run of whitespace and nothing else. */
  lemma {:induction false} TrimStartSpec(s: string) returns (k: nat)
    ensures k <= |s| && TrimStart(s) == s[k..] && AllWhitespace(s[..k])
    ensures TrimStart(s) == [] || !IsJsWhitespace(TrimStart(s)[0])
  {
    if s != [] && IsJsWhitespace(s[0]) {
      var rest := TrimStartSpec(s[1..]);
      k := rest + 1;
      assert s[1..][rest..] == s[k..];
      var cut := s[..k];
      forall m | 0 <= m < |cut| ensures IsJsWhitespace(cut[m]) {
        if m > 0 {
          assert cut[m] == s[1..][..rest][m - 1];
        }
      }
    } else {
      k := 0;
      assert s[0..] == s;
    }
  }

  /** `TrimEnd` drops a trailing run of whitespace and nothing else. */
  lemma {:induction false} TrimEndSpec(s: string) returns (k: nat)
    ensures k <= |s| && TrimEnd(s) == s[..k] && AllWhitespace(s[k..])
    ensures TrimEnd(s) == [] || !IsJsWhitespace(TrimEnd(s)[|TrimEnd(s)| - 1])
  {
    if s != [] && IsJsWhitespace(s[|s| - 1]) {
      var init := s[..|s| - 1];
      k := TrimEndSpec(init);
      assert init[..k] == s[..k];
      var cut := s[k..];
      forall m | 0 <= m < |cut| ensures IsJsWhitespace(cut[m]) {
        if m < |init| - k {
          assert cut[m] == init[k..][m];
        }
      }
    } else {
      k := |s|;
      assert s[..|s|] == s;
    }
  }

  /** The trimmed string is a slice of the original with only whitespace cut
      from either end. */
  lemma TrimSlice(s: string) returns (i: nat, j: nat)
    ensures i <= j <= |s| && Trim(s) == s[i..j] && AllWhitespace(s[..i]) && AllWhitespace(s[j..])
  {
    var t := TrimStart(s);
    i := TrimStartSpec(s);
    var k := TrimEndSpec(t);
    j := i + k;
    assert s[j..] == t[k..];
  }

  /** The trimmed string neither starts nor ends with whitespace, and is
      empty exactly when the original is all whitespace. */
  lemma TrimSpec(s: string)
    ensures Trim(s) == [] || (!IsJsWhitespace(Trim(s)[0]) && !IsJsWhitespace(Trim(s)[|Trim(s)| - 1]))
    ensures Trim(s) == [] <==> AllWhitespace(s)
  {
    var t := TrimStart(s);
    var _ := TrimStartSpec(s);
    var _ := TrimEndSpec(t);
    var i, j := TrimSlice(s);
    if Trim(s) != [] {
      assert Trim(s)[0] == t[0];
      assert s[i] == Trim(s)[0];
    } else {
      forall m | 0 <= m < |s| ensures IsJsWhitespace(s[m]) {
        if m < i {
          assert s[m] == s[..i][m];
        } else {
          assert s[m] == s[j..][m - j];
        }
      }
    }
  }

  /** A string without surrounding whitespace is its own trim. */
  lemma TrimUntouched(s: string)
    requires s == [] || (!IsJsWhitespace(s[0]) && !IsJsWhitespace(s[|s| - 1]))
    ensures Trim(s) == s
  {
  }

  /** Trimming twice is trimming once. */
  lemma TrimIdempotent(s: string)
    ensures Trim(Trim(s)) == Trim(s)
  {
    TrimSpec(s);
    TrimUntouched(Trim(s));
  }

  /** `pat` occurs in `s` at position `i`. */
  predicate MatchAt(s: string, pat: string, i: nat)
  {
    i + |pat| <= |s| && s[i..i + |pat|] == pat
  }

  function IndexFrom(s: string, pat: string, from: nat): (r: Option<nat>)
    requires from <= |s|
    ensures r.Some? ==> from <= r.value && MatchAt(s, pat, r.value)
    ensures r.Some? ==> forall j :: from <= j < r.value ==> !MatchAt(s, pat, j)
    ensures r.None? <==> forall j :: from <= j <= |s| ==> !MatchAt(s, pat, j)
    decreases |s| - from
  {
    if MatchAt(s, pat, from) then Some(from)
    else if from == |s| then None
    else IndexFrom(s, pat, from + 1)
  }

  /** `s.indexOf(pat)`: the first position where `pat` occurs, if any. */
  function IndexOf(s: string, pat: string): Option<nat>
  {
    IndexFrom(s, pat, 0)
  }

  /** Appending text after the first occurrence does not move it. */
  lemma IndexOfExtend(s: string, t: string, pat: string)
    requires IndexOf(s, pat).Some?
    ensures IndexOf(s + t, pat) == IndexOf(s, pat)
  {
    var i := IndexOf(s, pat).value;
    assert (s + t)[i..i + |pat|] == s[i..i + |pat|];
    assert MatchAt(s + t, pat, i);
    forall j | 0 <= j < i ensures !MatchAt(s + t, pat, j) {
      assert !MatchAt(s, pat, j);
      assert (s + t)[j..j + |pat|] == s[j..j + |pat|];
    }
    var r := IndexOf(s + t, pat);
    assert !(r.value < i) && !(r.value > i);
  }

  /** A single character that `s` does not contain occurs in `s + [c] + t`
      first right after `s`. */
  lemma IndexOfFirstChar(s: string, c: char, t: string)
    requires c !in s
    ensures IndexOf(s + [c] + t, [c]) == Some(|s|)
  {
    var u := s + [c] + t;
    assert u[|s|..|s| + 1] == [c];
    assert MatchAt(u, [c], |s|);
    forall j | 0 <= j < |s| ensures !MatchAt(u, [c], j) {
      assert u[j..j + 1] == [s[j]] && s[j] != c;
    }
    var r := IndexOf(u, [c]);
    assert !(r.value < |s|) && !(r.value > |s|);
  }

  /** The text before the first occurrence of `sep`, or all of `s` when it
      has none: `s.split(sep)[0]`. */
  function Before(s: string, sep: string): (r: string)
    ensures |r| <= |s| && r == s[..|r|]
    ensures forall j :: 0 <= j < |r| ==> !MatchAt(s, sep, j)
    ensures IndexOf(s, sep).Some? ==> MatchAt(s, sep, |r|)
    ensures IndexOf(s, sep).None? ==> r == s
  {
    match IndexOf(s, sep)
    case None => s
    case Some(i) => s[..i]
  }
}
