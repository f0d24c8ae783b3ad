/**
  The three string operations `get_rephrase` relies on: lowercasing
  (`str.lower`), edge-whitespace stripping (`str.strip`) and substring
  containment (`key in phrase`). Case mapping and whitespace are the ASCII
  parts of Python's Unicode tables.
 */
module Text {

  /** Python's `str.isspace` on ASCII: HT, LF, VT, FF, CR, the four
      information separators 0x1C-0x1F, and the space itself. */
  predicate IsSpace(c: char)
    ensures IsSpace(c) ==> c <= ' ' && !IsUpper(c)
  {
    ('\t' <= c <= '\r') || ('\U{1C}' <= c <= '\U{1F}') || c == ' '
  }

  predicate IsUpper(c: char) {
    'A' <= c <= 'Z'
  }

  predicate AllSpace(s: string) {
    forall i :: 0 <= i < |s| ==> IsSpace(s[i])
  }

  /** ASCII lowercasing of one character; every other character is kept. */
  function LowerChar(c: char): (d: char)
    ensures !IsUpper(d)
    ensures IsUpper(c) ==> d as int == c as int + 32
    ensures !IsUpper(c) ==> d == c
  {
    if IsUpper(c) then (c as int + 32) as char else c
  }

  /** `str.lower`: maps every character through LowerChar. */
  function Lower(s: string): (r: string)
    ensures |r| == |s|
    ensures forall i :: 0 <= i < |s| ==> r[i] == LowerChar(s[i])
  {
    seq(|s|, i requires 0 <= i < |s| => LowerChar(s[i]))
  }

  /** Drops leading whitespace: the result is a suffix of `s`, everything
      dropped is whitespace, and the result does not start with whitespace. */
  function StripLeft(s: string): (r: string)
    ensures |r| <= |s| && r == s[|s| - |r|..]
    ensures forall i :: 0 <= i < |s| - |r| ==> IsSpace(s[i])
    ensures r == [] || !IsSpace(r[0])
    decreases |s|
  {
    if |s| > 0 && IsSpace(s[0]) then StripLeft(s[1..]) else s
  }

  /** Drops trailing whitespace: the result is a prefix of `s`, everything
      dropped is whitespace, and the result does not end with whitespace. */
  function StripRight(s: string): (r: string)
    ensures |r| <= |s| && r == s[..|r|]
    ensures forall i :: |r| <= i < |s| ==> IsSpace(s[i])
    ensures r == [] || !IsSpace(r[|r| - 1])
    decreases |s|
  {
    if |s| > 0 && IsSpace(s[|s| - 1]) then StripRight(s[..|s| - 1]) else s
  }

  /** `str.strip()` with no argument. */
  function Strip(s: string): (r: string)
    ensures |r| <= |s|
    ensures r == [] || (!IsSpace(r[0]) && !IsSpace(r[|r| - 1]))
  {
    var sl := StripLeft(s);
    var m := StripRight(sl);
    assert m != [] ==> m[0] == sl[0];
    m
  }

  /** `s` begins with `p`. */
  predicate StartsWith(s: string, p: string) {
    |p| <= |s| && s[..|p|] == p
  }

  /** `p` occupies `s[i..i + |p|]`. */
  predicate OccursAt(p: string, s: string, i: int) {
    0 <= i && i + |p| <= |s| && s[i..i + |p|] == p
  }

  /** Python's `p in s` on strings, as a left-to-right scan: `p` starts at
      the current position, or occurs further right. The empty string
      occurs in every string. */
  predicate IsSubstring(p: string, s: string)
    ensures IsSubstring(p, s) ==> |p| <= |s|
    ensures p == [] ==> IsSubstring(p, s)
    decreases |s|
  {
    StartsWith(s, p) || (|s| > 0 && IsSubstring(p, s[1..]))
  }

  /** The scan finds `p` exactly when `p` occurs at some position of `s`. */
  lemma {:induction false} IsSubstringIff(p: string, s: string)
    ensures IsSubstring(p, s) <==> exists i :: OccursAt(p, s, i)
    decreases |s|
  {
    if StartsWith(s, p) {
      assert OccursAt(p, s, 0);
    } else if |s| > 0 {
      IsSubstringIff(p, s[1..]);
      forall i | OccursAt(p, s[1..], i)
        ensures OccursAt(p, s, i + 1)
      {
        assert s[1..][i..i + |p|] == s[i + 1..i + 1 + |p|];
      }
      forall i | OccursAt(p, s, i)
        ensures i > 0 && OccursAt(p, s[1..], i - 1)
      {
        assert s[1..][i - 1..i - 1 + |p|] == s[i..i + |p|];
      }
    } else {
      assert forall i :: !OccursAt(p, s, i);
    }
  }

  /** An occurrence at a known position makes `p` a substring of `s`. */
  lemma SubstringWitness(p: string, s: string, i: int)
    requires OccursAt(p, s, i)
    ensures IsSubstring(p, s)
  {
    IsSubstringIff(p, s);
  }

  /** Every character of a substring occurs in the enclosing string, so a
      key holding a character the input lacks is not a substring of it. */
  lemma SubstringChars(p: string, s: string, k: int)
    requires 0 <= k < |p|
    ensures IsSubstring(p, s) ==> p[k] in s
  {
    if IsSubstring(p, s) {
      IsSubstringIff(p, s);
      var i :| OccursAt(p, s, i);
      assert s[i + k] == s[i..i + |p|][k];
    }
  }

  /** Lowercasing never creates or removes whitespace. */
  lemma LowerCharSpace(c: char)
    ensures IsSpace(LowerChar(c)) <==> IsSpace(c)
  {
  }

  lemma {:induction false} LowerIdempotent(s: string)
    ensures Lower(Lower(s)) == Lower(s)
  {
    assert forall i :: 0 <= i < |s| ==> Lower(Lower(s))[i] == Lower(s)[i];
  }

  /** Lowercasing distributes over concatenation. */
  lemma LowerAppend(a: string, b: string)
    ensures Lower(a + b) == Lower(a) + Lower(b)
  {
    assert forall i :: 0 <= i < |a + b| ==> Lower(a + b)[i] == (Lower(a) + Lower(b))[i];
  }

  lemma LowerAllSpace(w: string)
    requires AllSpace(w)
    ensures Lower(w) == w
  {
    assert forall i :: 0 <= i < |w| ==> Lower(w)[i] == w[i];
  }

  lemma {:induction false} StripLeftAllSpace(w: string)
    requires AllSpace(w)
    ensures StripLeft(w) == []
    decreases |w|
  {
    if |w| > 0 {
      StripLeftAllSpace(w[1..]);
    }
  }

  /** Leading whitespace in front of `t` is dropped by StripLeft. */
  lemma {:induction false} StripLeftPadded(w: string, t: string)
    requires AllSpace(w)
    ensures StripLeft(w + t) == StripLeft(t)
    decreases |w|
  {
    if |w| > 0 {
      assert (w + t)[1..] == w[1..] + t;
      StripLeftPadded(w[1..], t);
    } else {
      assert w + t == t;
    }
  }

  /** Trailing whitespace after `t` is dropped by StripRight. */
  lemma {:induction false} StripRightPadded(t: string, w: string)
    requires AllSpace(w)
    ensures StripRight(t + w) == StripRight(t)
    decreases |w|
  {
    if |w| > 0 {
      assert (t + w)[..|t + w| - 1] == t + w[..|w| - 1];
      StripRightPadded(t, w[..|w| - 1]);
    } else {
      assert t + w == t;
    }
  }

  /** Once a non-space character leads `t`, StripLeft keeps whatever follows. */
  lemma {:induction false} StripLeftAppend(t: string, w: string)
    requires StripLeft(t) != []
    ensures StripLeft(t + w) == StripLeft(t) + w
    decreases |t|
  {
    if |t| > 0 && IsSpace(t[0]) {
      assert (t + w)[1..] == t[1..] + w;
      StripLeftAppend(t[1..], w);
    }
  }

  /** `str.strip` ignores any whitespace added at either end. */
  lemma StripPadded(w1: string, t: string, w2: string)
    requires AllSpace(w1) && AllSpace(w2)
    ensures Strip(w1 + t + w2) == Strip(t)
  {
    assert w1 + t + w2 == w1 + (t + w2);
    StripLeftPadded(w1, t + w2);
    if StripLeft(t) == [] {
      assert AllSpace(t);
      assert AllSpace(t + w2);
      StripLeftAllSpace(t + w2);
    } else {
      StripLeftAppend(t, w2);
      StripRightPadded(StripLeft(t), w2);
    }
  }

  /** A string whose ends are not whitespace is left alone by `str.strip`. */
  lemma StripEdgesFixed(t: string)
    requires t == [] || (!IsSpace(t[0]) && !IsSpace(t[|t| - 1]))
    ensures Strip(t) == t
  {
  }

  lemma StripLeftSplit(s: string)
    ensures s == s[..|s| - |StripLeft(s)|] + StripLeft(s)
    ensures AllSpace(s[..|s| - |StripLeft(s)|])
  {
    var a := s[..|s| - |StripLeft(s)|];
    assert forall i :: 0 <= i < |a| ==> a[i] == s[i];
  }

  lemma StripRightSplit(s: string)
    ensures s == StripRight(s) + s[|StripRight(s)|..]
    ensures AllSpace(s[|StripRight(s)|..])
  {
    var b := s[|StripRight(s)|..];
    assert forall j :: 0 <= j < |b| ==> b[j] == s[|StripRight(s)| + j];
  }

  lemma ConcatAssoc(a: string, m: string, b: string)
    ensures a + (m + b) == a + m + b
  {
  }

  /** `str.strip` splits `s` into leading whitespace, the result, and
      trailing whitespace. */
  lemma StripParts(s: string) returns (a: string, b: string)
    ensures s == a + Strip(s) + b
    ensures AllSpace(a) && AllSpace(b)
  {
    var sl := StripLeft(s);
    var m := StripRight(sl);
    a := s[..|s| - |sl|];
    b := sl[|m|..];
    StripLeftSplit(s);
    StripRightSplit(sl);
    ConcatAssoc(a, m, b);
  }

  /** Stripping an already stripped string changes nothing. */
  lemma StripIdempotent(s: string)
    ensures Strip(Strip(s)) == Strip(s)
  {
    StripEdgesFixed(Strip(s));
  }

  /** Lowercasing leaves whitespace padding alone. */
  lemma LowerPadded(a: string, m: string, b: string)
    requires AllSpace(a) && AllSpace(b)
    ensures Lower(a + m + b) == a + Lower(m) + b
  {
    LowerAppend(a + m, b);
    LowerAppend(a, m);
    LowerAllSpace(a);
    LowerAllSpace(b);
  }

  /** Lowercasing keeps a string free of whitespace at either end. */
  lemma LowerKeepsEdges(m: string)
    requires m == [] || (!IsSpace(m[0]) && !IsSpace(m[|m| - 1]))
    ensures Strip(Lower(m)) == Lower(m)
  {
    if m != [] {
      LowerCharSpace(m[0]);
      LowerCharSpace(m[|m| - 1]);
    }
    StripEdgesFixed(Lower(m));
  }

  /** Lowercasing and stripping commute, as no whitespace is upper case. */
  lemma LowerStripCommute(s: string)
    ensures Lower(Strip(s)) == Strip(Lower(s))
  {
    var a, b := StripParts(s);
    var m := Strip(s);
    LowerPadded(a, m, b);
    StripPadded(a, Lower(m), b);
    LowerKeepsEdges(m);
  }
}
