/** Python's argument-less `str.rstrip`, `str.lstrip` and `str.strip`, over an
    explicit whitespace predicate. */
module Whitespace {

  /** The characters for which Python's `str.isspace` holds: the ASCII controls
      TAB..CR and FS..US, SPACE, NEL, NO-BREAK SPACE, and the Unicode space
      separators and line/paragraph separators. */
  predicate IsWhitespace(c: char) {
    || ('\t' <= c <= '\r')
    || ('\U{1C}' <= c <= '\U{1F}')
    || c == ' '
    || c == '\U{85}'
    || c == '\U{A0}'
    || c == '\U{1680}'
    || ('\U{2000}' <= c <= '\U{200A}')
    || c == '\U{2028}'
    || c == '\U{2029}'
    || c == '\U{202F}'
    || c == '\U{205F}'
    || c == '\U{3000}'
  }

  /** Every character of s at positions lo..hi-1 is whitespace. */
  predicate WhitespaceBetween(s: string, lo: int, hi: int)
    requires 0 <= lo && hi <= |s|
  {
    forall i :: lo <= i < hi ==> IsWhitespace(s[i])
  }

  /** r occurs in s at position k, and s holds only whitespace before and
      after that occurrence. */
  predicate FramedByWhitespace(s: string, k: int, r: string) {
    && 0 <= k <= |s| - |r| && r == s[k..k + |r|]
    && WhitespaceBetween(s, 0, k) && WhitespaceBetween(s, k + |r|, |s|)
  }

  predicate NoTrailingWhitespace(s: string) {
    s == [] || !IsWhitespace(s[|s| - 1])
  }

  predicate NoLeadingWhitespace(s: string) {
    s == [] || !IsWhitespace(s[0])
  }

  /** `s.rstrip()`: a prefix of `s` with no trailing whitespace, and what was
      cut off is all whitespace. */
  function RStrip(s: string): (r: string)
    ensures |r| <= |s| && r == s[..|r|]
    ensures NoTrailingWhitespace(r)
    ensures WhitespaceBetween(s, |r|, |s|)
    decreases |s|
  {
    if s != [] && IsWhitespace(s[|s| - 1]) then
      var r := RStrip(s[..|s| - 1]);
      assert WhitespaceBetween(s[..|s| - 1], |r|, |s| - 1);
      r
    else
      s
  }

  /** `s.lstrip()`: a suffix of `s` with no leading whitespace, and what was
      cut off is all whitespace. */
  function LStrip(s: string): (r: string)
    ensures |r| <= |s| && r == s[|s| - |r|..]
    ensures NoLeadingWhitespace(r)
    ensures WhitespaceBetween(s, 0, |s| - |r|)
    decreases |s|
  {
    if s != [] && IsWhitespace(s[0]) then
      var r := LStrip(s[1..]);
      assert s[1..][|s| - 1 - |r|..] == s[|s| - |r|..];
      assert WhitespaceBetween(s, 0, |s| - |r|) by {
        forall i | 0 < i < |s| - |r| ensures IsWhitespace(s[i]) {
          assert s[i] == s[1..][i - 1];
        }
      }
      r
    else
      s
  }

  /** `s.strip()`: a slice of `s` with no whitespace at either end, and what
      was cut off on both sides is all whitespace. */
  function Strip(s: string): (r: string)
    ensures |r| <= |s|
    ensures NoLeadingWhitespace(r) && NoTrailingWhitespace(r)
    ensures exists k :: FramedByWhitespace(s, k, r)
  {
    StripSlice(s);
    LStrip(RStrip(s))
  }

  /** The left strip of the right strip is a slice of s with only whitespace
      around it. */
  lemma StripSlice(s: string)
    ensures FramedByWhitespace(s, |RStrip(s)| - |LStrip(RStrip(s))|, LStrip(RStrip(s)))
  {
    var p := RStrip(s);
    var r := LStrip(p);
    var k := |p| - |r|;
    assert k + |r| == |p|;
    assert r == p[k..];
    InsidePrefix(s, p, k);
  }

  /** A prefix p of s agrees with s on every position below |p|. */
  lemma InsidePrefix(s: string, p: string, k: nat)
    requires |p| <= |s| && p == s[..|p|] && k <= |p|
    ensures p[k..] == s[k..|p|]
    ensures WhitespaceBetween(p, 0, k) ==> WhitespaceBetween(s, 0, k)
  {
    if WhitespaceBetween(p, 0, k) {
      forall i | 0 <= i < k ensures IsWhitespace(s[i]) {
        assert s[i] == p[i];
      }
    }
  }

  /** RStrip's contract determines its result: a prefix without trailing
      whitespace followed only by whitespace is exactly what RStrip returns. */
  lemma {:induction false} RStripUnique(s: string, p: string)
    requires |p| <= |s| && p == s[..|p|]
    requires NoTrailingWhitespace(p)
    requires WhitespaceBetween(s, |p|, |s|)
    ensures RStrip(s) == p
    decreases |s|
  {
    if |s| > |p| {
      var s' := s[..|s| - 1];
      assert p == s'[..|p|];
      assert WhitespaceBetween(s', |p|, |s'|);
      RStripUnique(s', p);
    } else if s != [] {
      assert s == p;
    }
  }

  lemma {:induction false} LStripUnique(s: string, q: string)
    requires |q| <= |s| && q == s[|s| - |q|..]
    requires NoLeadingWhitespace(q)
    requires WhitespaceBetween(s, 0, |s| - |q|)
    ensures LStrip(s) == q
    decreases |s|
  {
    if |s| > |q| {
      var s' := s[1..];
      assert q == s'[|s'| - |q|..];
      assert WhitespaceBetween(s', 0, |s'| - |q|);
      LStripUnique(s', q);
    } else if s != [] {
      assert s == q;
    }
  }

  /** Strip's contract determines its result: a slice without whitespace at
      either end, with only whitespace around it, is exactly what Strip returns. */
  lemma StripUnique(s: string, k: nat, q: string)
    requires FramedByWhitespace(s, k, q)
    requires NoLeadingWhitespace(q) && NoTrailingWhitespace(q)
    ensures Strip(s) == q
  {
    if q == [] {
      assert WhitespaceBetween(s, 0, |s|) by {
        forall i | 0 <= i < |s| ensures IsWhitespace(s[i]) {
          assert i < k || k + |q| <= i;
        }
      }
      RStripUnique(s, []);
    } else {
      var p := s[..k + |q|];
      assert p[|p| - 1] == q[|q| - 1];
      RStripUnique(s, p);
      assert q == p[|p| - |q|..];
      assert WhitespaceBetween(p, 0, k) by {
        forall i | 0 <= i < k ensures IsWhitespace(p[i]) {
          assert p[i] == s[i];
        }
      }
      LStripUnique(p, q);
    }
  }

  /** Appending text that starts with a non-whitespace character commutes
      with the left strip. */
  lemma LStripAppend(p: string, e: string)
    requires e != [] && !IsWhitespace(e[0])
    ensures LStrip(p + e) == LStrip(p) + e
  {
    var l := LStrip(p);
    assert l + e == (p + e)[|p| - |l|..];
    assert WhitespaceBetween(p + e, 0, |p| - |l|) by {
      forall i | 0 <= i < |p| - |l| ensures IsWhitespace((p + e)[i]) {
        assert (p + e)[i] == p[i];
      }
    }
    assert (l + e)[0] == if l == [] then e[0] else l[0];
    LStripUnique(p + e, l + e);
  }

  /** Stripping is idempotent, and text already free of surrounding whitespace
      is left as it is. */
  lemma StripOfStripped(s: string)
    requires NoLeadingWhitespace(s) && NoTrailingWhitespace(s)
    ensures Strip(s) == s
  {
    RStripUnique(s, s);
    LStripUnique(s, s);
  }

  lemma StripIdempotent(s: string)
    ensures Strip(Strip(s)) == Strip(s)
  {
    StripOfStripped(Strip(s));
  }

  /** A string ending in a non-whitespace character loses only its leading
      whitespace under Strip. */
  lemma StripKeepsLastNonWhitespace(s: string)
    requires s != [] && !IsWhitespace(s[|s| - 1])
    ensures Strip(s) == LStrip(s)
    ensures Strip(s) != [] && Strip(s)[|Strip(s)| - 1] == s[|s| - 1]
  {
    RStripUnique(s, s);
    assert Strip(s) == LStrip(s);
    LStripKeepsLast(s);
  }

  lemma LStripKeepsLast(s: string)
    requires s != [] && !IsWhitespace(s[|s| - 1])
    ensures LStrip(s) != [] && LStrip(s)[|LStrip(s)| - 1] == s[|s| - 1]
  {
    var r := LStrip(s);
    assert !WhitespaceBetween(s, 0, |s|);
    assert r[|r| - 1] == s[|s| - |r|..][|r| - 1];
  }

}
