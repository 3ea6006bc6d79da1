/** String operations the phrase matcher relies on: Python's `str.lower()`,
    `str.strip()` and the substring test `p in t`, restricted to ASCII. */
module Text {

  /** ASCII subset of the characters Python's `str.isspace()` accepts:
      space, tab, line feed, vertical tab, form feed, carriage return and
      the four information separators 0x1C..0x1F. */
  predicate IsSpace(c: char) {
    c == ' ' || (9 <= c as int <= 13) || (28 <= c as int <= 31)
  }

  predicate AllSpace(s: string) {
    forall i :: 0 <= i < |s| ==> IsSpace(s[i])
  }

  /** Lower-cases one character; only 'A'..'Z' change. */
  function LowerChar(c: char): (r: char)
    ensures IsSpace(r) <==> IsSpace(c)
    ensures 'A' <= c <= 'Z' ==> r as int == c as int + 32
    ensures !('A' <= c <= 'Z') ==> r == c
    ensures !('A' <= r <= 'Z')
  {
    if 'A' <= c <= 'Z' then (c as int + 32) as char else c
  }

  /** `s.lower()`, character by character: same length, no upper-case letter
      left, every other character unchanged. */
  function Lower(s: string): (r: string)
    ensures |r| == |s|
    ensures forall i :: 0 <= i < |r| ==> !('A' <= r[i] <= 'Z')
    ensures forall i :: 0 <= i < |s| && !('A' <= s[i] <= 'Z') ==> r[i] == s[i]
    ensures forall i :: 0 <= i < |s| && 'A' <= s[i] <= 'Z' ==> r[i] as int == s[i] as int + 32
  {
    seq(|s|, i requires 0 <= i < |s| => LowerChar(s[i]))
  }

  /** `s.lstrip()`: drop leading whitespace. */
  function StripLeft(s: string): (r: string)
    ensures |r| <= |s| && r == s[|s| - |r|..]
    ensures AllSpace(s[..|s| - |r|])
    ensures r != [] ==> !IsSpace(r[0])
  {
    if s != [] && IsSpace(s[0]) then
      var r := StripLeft(s[1..]);
      assert forall i :: 1 <= i < |s| - |r| ==> s[i] == s[1..][i - 1];
      r
    else
      s
  }

  /** `s.rstrip()`: drop trailing whitespace. */
  function StripRight(s: string): (r: string)
    ensures |r| <= |s| && r == s[..|r|]
    ensures AllSpace(s[|r|..])
    ensures r != [] ==> !IsSpace(r[|r| - 1])
  {
    if s != [] && IsSpace(s[|s| - 1]) then
      var r := StripRight(s[..|s| - 1]);
      assert s[..|s| - 1][|r|..] == s[|r|..|s| - 1];
      assert s[|r|..] == s[|r|..|s| - 1] + [s[|s| - 1]];
      r
    else
      s
  }

  /** `s.strip()`: a contiguous piece of `s` with only whitespace cut on
      either side, neither starting nor ending with whitespace. */
  function Strip(s: string): (r: string)
    ensures |r| <= |s|
    ensures OccursAt(s, r, |s| - |StripLeft(s)|)
    ensures AllSpace(s[..|s| - |StripLeft(s)|])
    ensures AllSpace(s[|s| - |StripLeft(s)| + |r|..])
    ensures r != [] ==> !IsSpace(r[0]) && !IsSpace(r[|r| - 1])
  {
    var l := StripLeft(s);
    var r := StripRight(l);
    TrimmedSlice(s, l, r);
    r
  }

  /** A prefix `r` of a suffix `l` of `s` sits at position |s| - |l| of `s`,
      and what follows it in `s` is what follows it in `l`. */
  lemma TrimmedSlice(s: string, l: string, r: string)
    requires |l| <= |s| && l == s[|s| - |l|..]
    requires |r| <= |l| && r == l[..|r|] && AllSpace(l[|r|..])
    ensures OccursAt(s, r, |s| - |l|)
    ensures AllSpace(s[|s| - |l| + |r|..])
  {
    var k := |s| - |l|;
    assert s[k..k + |r|] == l[..|r|];
    assert s[k + |r|..] == l[|r|..];
  }

  /** `p` starts at position `i` of `t`. */
  predicate OccursAt(t: string, p: string, i: int) {
    0 <= i <= |t| - |p| && t[i..i + |p|] == p
  }

  /** Python's `p in t` for strings, scanning `t` from the left. The empty
      string occurs in every string (so a blank phrase matches anything), and
      nothing longer than `t` occurs in it; `ContainsIffOccurs` gives the full
      characterisation. */
  predicate Contains(t: string, p: string): (r: bool)
    ensures p == [] ==> r
    ensures r ==> |p| <= |t|
    decreases |t|
  {
    (|p| <= |t| && t[..|p|] == p) || (t != [] && Contains(t[1..], p))
  }

  /** The scanning test agrees with the positional definition of a substring. */
  lemma {:induction false} ContainsIffOccurs(t: string, p: string)
    ensures Contains(t, p) <==> exists i :: OccursAt(t, p, i)
    decreases |t|
  {
    if |p| <= |t| && t[..|p|] == p {
      assert OccursAt(t, p, 0);
    } else if t != [] {
      ContainsIffOccurs(t[1..], p);
      if Contains(t[1..], p) {
        var i :| OccursAt(t[1..], p, i);
        OccursShift(t, p, i);
      }
      if exists i :: OccursAt(t, p, i) {
        var i :| OccursAt(t, p, i) && i > 0;
        OccursShift(t, p, i - 1);
      }
    }
  }

  /** An occurrence in the tail of `t` is an occurrence in `t` one further on. */
  lemma OccursShift(t: string, p: string, i: nat)
    requires t != []
    ensures OccursAt(t[1..], p, i) <==> OccursAt(t, p, i + 1)
  {
    if i + 1 <= |t| - |p| {
      assert t[1..][i..i + |p|] == t[i + 1..i + 1 + |p|];
    }
  }

  /** A string occurs in anything built around it. */
  lemma ContainsInfix(u: string, p: string, v: string)
    ensures Contains(u + p + v, p)
  {
    assert (u + p + v)[|u|..|u| + |p|] == p;
    assert OccursAt(u + p + v, p, |u|);
    ContainsIffOccurs(u + p + v, p);
  }

  /** Lower-casing works piece by piece. */
  lemma LowerAppend(a: string, b: string)
    ensures Lower(a + b) == Lower(a) + Lower(b)
  {
    forall i | 0 <= i < |a| + |b|
      ensures Lower(a + b)[i] == (Lower(a) + Lower(b))[i]
    {
      if i < |a| {
        assert (a + b)[i] == a[i];
      } else {
        assert (a + b)[i] == b[i - |a|];
      }
    }
  }

  /** Lower-casing keeps every whitespace character where it is, so it commutes
      with stripping. */
  lemma {:induction false} StripLeftLower(s: string)
    ensures StripLeft(Lower(s)) == Lower(StripLeft(s))
    decreases |s|
  {
    if s != [] && IsSpace(s[0]) {
      assert Lower(s)[1..] == Lower(s[1..]);
      StripLeftLower(s[1..]);
    }
  }

  lemma {:induction false} StripRightLower(s: string)
    ensures StripRight(Lower(s)) == Lower(StripRight(s))
    decreases |s|
  {
    if s != [] && IsSpace(s[|s| - 1]) {
      assert Lower(s)[..|s| - 1] == Lower(s[..|s| - 1]);
      StripRightLower(s[..|s| - 1]);
    }
  }

  lemma StripLower(s: string)
    ensures Strip(Lower(s)) == Lower(Strip(s))
  {
    StripLeftLower(s);
    StripRightLower(StripLeft(s));
  }

  /** Whitespace in front of a string is invisible to lstrip. */
  lemma {:induction false} StripLeftSkipsSpace(w: string, s: string)
    requires AllSpace(w)
    ensures StripLeft(w + s) == StripLeft(s)
    decreases |w|
  {
    if w != [] {
      assert (w + s)[1..] == w[1..] + s;
      StripLeftSkipsSpace(w[1..], s);
    } else {
      assert w + s == s;
    }
  }

  /** Whitespace after a string is invisible to rstrip. */
  lemma {:induction false} StripRightSkipsSpace(s: string, w: string)
    requires AllSpace(w)
    ensures StripRight(s + w) == StripRight(s)
    decreases |w|
  {
    if w != [] {
      assert (s + w)[..|s + w| - 1] == s + w[..|w| - 1];
      StripRightSkipsSpace(s, w[..|w| - 1]);
    } else {
      assert s + w == s;
    }
  }

  /** lstrip of a string followed by whitespace: either everything was
      whitespace, or the trailing whitespace survives untouched. */
  lemma {:induction false} StripLeftThenSpace(s: string, w: string)
    requires AllSpace(w)
    ensures StripLeft(s + w) == (if StripLeft(s) == [] then [] else StripLeft(s) + w)
    decreases |s|
  {
    if s == [] {
      assert s + w == w;
      StripLeftSkipsSpace(w, []);
      assert w + [] == w;
    } else if IsSpace(s[0]) {
      assert (s + w)[1..] == s[1..] + w;
      StripLeftThenSpace(s[1..], w);
    } else {
      assert (s + w)[0] == s[0];
    }
  }

  /** `strip()` ignores any whitespace around a string. */
  lemma StripIgnoresSurroundingSpace(w1: string, s: string, w2: string)
    requires AllSpace(w1) && AllSpace(w2)
    ensures Strip(w1 + s + w2) == Strip(s)
  {
    var x := w1 + s + w2;
    assert x == w1 + (s + w2);
    StripLeftSkipsSpace(w1, s + w2);
    StripLeftThenSpace(s, w2);
    var l := StripLeft(s);
    if l == [] {
      assert StripLeft(x) == [];
    } else {
      assert StripLeft(x) == l + w2;
      StripRightSkipsSpace(l, w2);
    }
    assert StripRight(StripLeft(x)) == StripRight(l);
  }
}
