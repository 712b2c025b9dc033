/** Removing white space from both ends of a string. Python has two notions
    of white space here: `str.strip()` (used by Django's `CharField`
    cleaning) removes what `str.isspace()` accepts, while `int()` on an
    ASCII string skips only what C's `isspace()` accepts in the "C"
    locale. */
module Text {

  /** Python's `str.isspace()` on the ASCII range: tab, line feed, vertical
      tab, form feed, carriage return, the four information separators
      U+001C..U+001F, and the space. */
  predicate IsSpace(c: char)
  {
    ('\t' <= c <= '\r') || ('\U{001C}' <= c <= '\U{001F}') || c == ' '
  }

  /** C's `isspace()` in the "C" locale (CPython's `Py_ISSPACE`): tab, line
      feed, vertical tab, form feed, carriage return and the space, but not
      the information separators. */
  predicate IsCSpace(c: char)
  {
    ('\t' <= c <= '\r') || c == ' '
  }

  /** Which of the two notions of white space a strip removes. */
  datatype WhiteSpace = StrSpace | CSpace

  predicate IsWhite(w: WhiteSpace, c: char)
  {
    match w
    case StrSpace => IsSpace(c)
    case CSpace => IsCSpace(c)
  }

  /** `s` without its leading white space of kind `w`. */
  function StripStart(s: string, w: WhiteSpace): (r: string)
    ensures |r| <= |s| && r == s[|s| - |r|..]
    ensures forall k :: 0 <= k < |s| - |r| ==> IsWhite(w, s[k])
    ensures |r| > 0 ==> !IsWhite(w, r[0])
  {
    if |s| > 0 && IsWhite(w, s[0]) then StripStart(s[1..], w) else s
  }

  /** `s` without its trailing white space of kind `w`. */
  function StripEnd(s: string, w: WhiteSpace): (r: string)
    ensures |r| <= |s| && r == s[..|r|]
    ensures forall k :: |r| <= k < |s| ==> IsWhite(w, s[k])
    ensures |r| > 0 ==> !IsWhite(w, r[|r| - 1])
  {
    if |s| > 0 && IsWhite(w, s[|s| - 1]) then StripEnd(s[..|s| - 1], w) else s
  }

  /** `s` with white space of kind `w` removed from both ends. */
  function StripBy(s: string, w: WhiteSpace): (r: string)
    ensures |r| <= |s|
    ensures |r| > 0 ==> !IsWhite(w, r[0]) && !IsWhite(w, r[|r| - 1])
    ensures (|s| == 0 || (!IsWhite(w, s[0]) && !IsWhite(w, s[|s| - 1]))) ==> r == s
  {
    StripEnd(StripStart(s, w), w)
  }

  /** `s.strip()`. */
  function Strip(s: string): (r: string)
    ensures |r| <= |s|
    ensures |r| > 0 ==> !IsSpace(r[0]) && !IsSpace(r[|r| - 1])
    ensures (|s| == 0 || (!IsSpace(s[0]) && !IsSpace(s[|s| - 1]))) ==> r == s
  {
    StripBy(s, StrSpace)
  }

  /** Stripping only removes white space: a string with a character that is
      not white space of kind `w` strips to a non-empty string, and one made
      only of such white space strips to "". */
  lemma {:induction false} StripEmptyIffBlank(s: string, w: WhiteSpace)
    ensures |StripBy(s, w)| == 0 <==> forall k :: 0 <= k < |s| ==> IsWhite(w, s[k])
  {
    var a := StripStart(s, w);
    if |a| > 0 {
      assert !IsWhite(w, s[|s| - |a|]);
    }
  }

  /** Where the stripped text starts: stripping keeps a contiguous piece
      of the input, from this offset on. */
  function StripOffset(s: string, w: WhiteSpace): (i: nat)
    ensures i + |StripBy(s, w)| <= |s|
    ensures StripBy(s, w) == s[i..i + |StripBy(s, w)|]
  {
    |s| - |StripStart(s, w)|
  }

  /** Stripping only cuts white space off the ends: the input is the white
      space cut at the front, the stripped text, and the white space cut at
      the back. */
  lemma {:induction false} StripParts(s: string, w: WhiteSpace) returns (a: string, c: string)
    ensures s == a + StripBy(s, w) + c
    ensures forall k :: 0 <= k < |a| ==> IsWhite(w, a[k])
    ensures forall k :: 0 <= k < |c| ==> IsWhite(w, c[k])
  {
    a := StartCut(s, w);
    c := EndCut(StripStart(s, w), w);
    ConcatAssoc(a, StripBy(s, w), c);
  }

  /** The white space the front strip cuts off. */
  lemma {:induction false} StartCut(s: string, w: WhiteSpace) returns (a: string)
    ensures s == a + StripStart(s, w)
    ensures forall k :: 0 <= k < |a| ==> IsWhite(w, a[k])
  {
    var r := StripStart(s, w);
    a := s[..|s| - |r|];
    assert s == a + r;
  }

  /** The white space the back strip cuts off. */
  lemma {:induction false} EndCut(r: string, w: WhiteSpace) returns (c: string)
    ensures r == StripEnd(r, w) + c
    ensures forall k :: 0 <= k < |c| ==> IsWhite(w, c[k])
  {
    var t := StripEnd(r, w);
    c := r[|t|..];
    assert r == t + c;
  }

  /** Concatenation is associative. */
  lemma ConcatAssoc(x: string, y: string, z: string)
    ensures x + (y + z) == x + y + z
  {
  }

  /** The front strip stops at the first character that is not white space:
      if `x[..j]` is white space and `x[j]` is not (or `j` is the end), then
      stripping the front leaves `x[j..]`. */
  lemma {:induction false} StartStopsAt(x: string, w: WhiteSpace, j: int)
    requires 0 <= j <= |x|
    requires forall k :: 0 <= k < j ==> IsWhite(w, x[k])
    requires j < |x| ==> !IsWhite(w, x[j])
    ensures StripStart(x, w) == x[j..]
  {
    var r := StripStart(x, w);
    var j' := |x| - |r|;
    if j' < |x| {
      assert r[0] == x[j'];
    }
  }

  /** The back strip stops at the last character that is not white space. */
  lemma {:induction false} EndStopsAt(y: string, w: WhiteSpace, m: int)
    requires 0 <= m <= |y|
    requires forall k :: m <= k < |y| ==> IsWhite(w, y[k])
    requires m > 0 ==> !IsWhite(w, y[m - 1])
    ensures StripEnd(y, w) == y[..m]
  {
    var t := StripEnd(y, w);
    if |t| > 0 {
      assert t[|t| - 1] == y[|t| - 1];
    }
  }

  /** Leading white space does not change the stripped text. */
  lemma {:induction false} StripDropsPrefix(a: string, x: string, w: WhiteSpace)
    requires forall k :: 0 <= k < |a| ==> IsWhite(w, a[k])
    ensures StripBy(a + x, w) == StripBy(x, w)
  {
    StartDropsPrefix(a, x, w);
  }

  /** The front strip of `a + x` cuts white space `a` along with the white
      space at the start of `x`. */
  lemma {:induction false} StartDropsPrefix(a: string, x: string, w: WhiteSpace)
    requires forall k :: 0 <= k < |a| ==> IsWhite(w, a[k])
    ensures StripStart(a + x, w) == StripStart(x, w)
  {
    var r := StripStart(x, w);
    var i := |x| - |r|;
    assert i < |x| ==> x[i] == r[0];
    WhiteThenStop(a, x, w, i);
    StartStopsAt(a + x, w, |a| + i);
    DropAfterPrefix(a, x, i);
  }

  /** White space `a` followed by text whose first `i` characters are white
      space and whose next one is not stops the front strip at `|a| + i`. */
  lemma {:induction false} WhiteThenStop(a: string, x: string, w: WhiteSpace, i: int)
    requires 0 <= i <= |x|
    requires forall k :: 0 <= k < |a| ==> IsWhite(w, a[k])
    requires forall k :: 0 <= k < i ==> IsWhite(w, x[k])
    requires i < |x| ==> !IsWhite(w, x[i])
    ensures forall k :: 0 <= k < |a| + i ==> IsWhite(w, (a + x)[k])
    ensures |a| + i < |a + x| ==> !IsWhite(w, (a + x)[|a| + i])
  {
    assert forall k :: 0 <= k < |a| ==> (a + x)[k] == a[k];
    assert forall k :: |a| <= k < |a + x| ==> (a + x)[k] == x[k - |a|];
  }

  /** Dropping past a prefix drops within the rest. */
  lemma DropAfterPrefix(a: string, x: string, i: int)
    requires 0 <= i <= |x|
    ensures (a + x)[|a| + i..] == x[i..]
  {
    assert forall k :: 0 <= k < |x| - i ==> (a + x)[|a| + i..][k] == x[i..][k];
  }

  /** Dropping within `x` keeps what follows `x`. */
  lemma DropBeforeSuffix(x: string, c: string, j: int)
    requires 0 <= j <= |x|
    ensures (x + c)[j..] == x[j..] + c
  {
    assert forall k :: 0 <= k < |x| + |c| - j ==> (x + c)[j..][k] == (x[j..] + c)[k];
  }

  /** Nor does trailing white space. */
  lemma {:induction false} StripDropsSuffix(x: string, c: string, w: WhiteSpace)
    requires forall k :: 0 <= k < |c| ==> IsWhite(w, c[k])
    ensures StripBy(x + c, w) == StripBy(x, w)
  {
    var r := StripStart(x, w);
    if |r| == 0 {
      StartOfBlank(x, c, w);
    } else {
      StartKeepsSuffix(x, c, w);
      EndDropsSuffix(r, c, w);
    }
  }

  /** White space followed by white space is stripped away entirely. */
  lemma {:induction false} StartOfBlank(x: string, c: string, w: WhiteSpace)
    requires forall k :: 0 <= k < |c| ==> IsWhite(w, c[k])
    requires |StripStart(x, w)| == 0
    ensures StripStart(x + c, w) == []
  {
    assert forall k :: 0 <= k < |x| ==> (x + c)[k] == x[k];
    assert forall k :: |x| <= k < |x + c| ==> (x + c)[k] == c[k - |x|];
    StartStopsAt(x + c, w, |x + c|);
  }

  /** Once the front strip stops inside `x`, text appended to `x` stays. */
  lemma {:induction false} StartKeepsSuffix(x: string, c: string, w: WhiteSpace)
    requires |StripStart(x, w)| > 0
    ensures StripStart(x + c, w) == StripStart(x, w) + c
  {
    var r := StripStart(x, w);
    var j := |x| - |r|;
    assert forall k :: 0 <= k < |x| ==> (x + c)[k] == x[k];
    StartStopsAt(x + c, w, j);
    DropBeforeSuffix(x, c, j);
  }

  /** The back strip of `r + c` cuts white space `c` along with the white
      space at the end of `r`. */
  lemma {:induction false} EndDropsSuffix(r: string, c: string, w: WhiteSpace)
    requires forall k :: 0 <= k < |c| ==> IsWhite(w, c[k])
    ensures StripEnd(r + c, w) == StripEnd(r, w)
  {
    var t := StripEnd(r, w);
    assert forall k :: |r| <= k < |r + c| ==> (r + c)[k] == c[k - |r|];
    EndStopsAt(r + c, w, |t|);
    assert (r + c)[..|t|] == t;
  }

  /** Text padded with white space on both sides strips back to itself
      when it neither starts nor ends with white space. */
  lemma {:induction false} StripPadded(a: string, m: string, c: string, w: WhiteSpace)
    requires forall k :: 0 <= k < |a| ==> IsWhite(w, a[k])
    requires forall k :: 0 <= k < |c| ==> IsWhite(w, c[k])
    requires |m| > 0 && !IsWhite(w, m[0]) && !IsWhite(w, m[|m| - 1])
    ensures StripBy(a + m + c, w) == m
  {
    var x := m + c;
    assert a + m + c == a + x;
    StripDropsPrefix(a, x, w);
    StripDropsSuffix(m, c, w);
    assert StripBy(m, w) == m;
  }
}
