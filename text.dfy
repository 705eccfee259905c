/**
 * The pieces of Go's `strings` package that the filter predicates use:
 * `Index`, `Split` (with a non-empty separator) and `TrimSpace`, together with
 * `Join`, the inverse of `Split`.
 */
module Text {

  /** A separator string: Go's `strings.Split` treats the empty separator specially, and the view never passes one. */
  type Separator = s: string | |s| > 0 witness "/"

  /** `sep` occurs in `s` at index `i`. */
  predicate OccursAt(s: string, sep: string, i: nat) {
    i + |sep| <= |s| && s[i..i + |sep|] == sep
  }

  ghost predicate Contains(s: string, sep: string) {
    exists i: nat :: OccursAt(s, sep, i)
  }

  /** Occurrences in `s[1..]` are the occurrences in `s` shifted by one. */
  lemma OccursAtTail(s: string, sep: string, i: nat)
    requires |s| > 0
    ensures OccursAt(s[1..], sep, i) <==> OccursAt(s, sep, i + 1)
  {
    if i + 1 + |sep| <= |s| {
      assert s[1..][i..i + |sep|] == s[i + 1..i + 1 + |sep|];
    }
  }

  /** An occurrence inside a prefix is an occurrence in the whole string. */
  lemma OccursAtPrefix(s: string, sep: string, n: nat, i: nat)
    requires n <= |s|
    ensures OccursAt(s[..n], sep, i) ==> OccursAt(s, sep, i)
  {
    if i + |sep| <= n {
      assert s[..n][i..i + |sep|] == s[i..i + |sep|];
    }
  }

  /** An occurrence inside a suffix is an occurrence in the whole string, further right. */
  lemma OccursAtSuffix(s: string, sep: string, n: nat, i: nat)
    requires n <= |s|
    ensures OccursAt(s[n..], sep, i) ==> OccursAt(s, sep, n + i)
  {
    if i + |sep| <= |s| - n {
      assert s[n..][i..i + |sep|] == s[n + i..n + i + |sep|];
    }
  }

  /** Go's `strings.Index`: the first index at which `sep` occurs in `s`, or -1. */
  function Index(s: string, sep: Separator): (r: int)
    ensures -1 <= r < |s|
    ensures r < 0 ==> r == -1 && !Contains(s, sep)
    ensures r >= 0 ==> OccursAt(s, sep, r) && forall i: nat :: i < r ==> !OccursAt(s, sep, i)
    decreases |s|
  {
    if |s| < |sep| then
      -1
    else if s[..|sep|] == sep then
      0
    else
      var j := Index(s[1..], sep);
      IndexStep(s, sep, j);
      if j < 0 then -1 else j + 1
  }

  /** A search that fails at index 0 and finds `j` in `s[1..]` finds `j + 1` in `s`. */
  lemma IndexStep(s: string, sep: Separator, j: int)
    requires |s| >= |sep| && s[..|sep|] != sep
    requires j < 0 ==> !Contains(s[1..], sep)
    requires j >= 0 ==> OccursAt(s[1..], sep, j) && forall i: nat :: i < j ==> !OccursAt(s[1..], sep, i)
    ensures j < 0 ==> !Contains(s, sep)
    ensures j >= 0 ==> OccursAt(s, sep, j + 1) && forall i: nat :: i < j + 1 ==> !OccursAt(s, sep, i)
  {
    assert !OccursAt(s, sep, 0);
    forall i: nat | 0 < i
      ensures OccursAt(s, sep, i) <==> OccursAt(s[1..], sep, i - 1)
    {
      OccursAtTail(s, sep, i - 1);
    }
  }

  /**
   * Go's `strings.Split` for a non-empty separator: the pieces of `s` between the
   * occurrences of `sep`, found left to right. There is always at least one piece,
   * no piece contains the separator, and no piece is longer than `s`; when `s`
   * contains the separator there are at least two pieces, each strictly shorter than `s`.
   */
  function Split(s: string, sep: Separator): (r: seq<string>)
    ensures |r| >= 1
    ensures !Contains(s, sep) ==> r == [s]
    ensures Contains(s, sep) ==> |r| >= 2
    ensures forall k :: 0 <= k < |r| ==> |r[k]| <= |s|
    ensures Contains(s, sep) ==> forall k :: 0 <= k < |r| ==> |r[k]| < |s|
    ensures forall k :: 0 <= k < |r| ==> !Contains(r[k], sep)
    decreases |s|
  {
    var i := Index(s, sep);
    if i < 0 then
      [s]
    else
      FirstPieceHasNoSeparator(s, sep, i);
      [s[..i]] + Split(s[i + |sep|..], sep)
  }

  lemma FirstPieceHasNoSeparator(s: string, sep: Separator, i: nat)
    requires i <= |s|
    requires forall j: nat :: j < i ==> !OccursAt(s, sep, j)
    ensures !Contains(s[..i], sep)
  {
    forall j: nat ensures !OccursAt(s[..i], sep, j) {
      OccursAtPrefix(s, sep, i, j);
    }
  }

  /** Go's `strings.Join`: the pieces with the separator between consecutive ones. */
  function Join(parts: seq<string>, sep: string): string {
    if |parts| == 0 then ""
    else if |parts| == 1 then parts[0]
    else parts[0] + sep + Join(parts[1..], sep)
  }

  /** Joining the pieces of a split with the same separator gives back the original string. */
  lemma {:induction false} JoinSplit(s: string, sep: Separator)
    ensures Join(Split(s, sep), sep) == s
    decreases |s|
  {
    var i := Index(s, sep);
    if i >= 0 {
      var rest := s[i + |sep|..];
      var tail := Split(rest, sep);
      JoinSplit(rest, sep);
      assert Split(s, sep) == [s[..i]] + tail;
      JoinCons(s[..i], tail, sep);
      assert s == s[..i] + sep + rest;
    }
  }

  lemma JoinCons(a: string, t: seq<string>, sep: string)
    requires |t| >= 1
    ensures Join([a] + t, sep) == a + sep + Join(t, sep)
  {
    assert ([a] + t)[1..] == t;
  }

  /** Go's `unicode.IsSpace`: the Latin-1 spaces and the other Unicode White_Space characters. */
  predicate IsSpace(c: char) {
    c == '\t' || c == '\n' || c == '\U{B}' || c == '\U{C}' || c == '\r' || c == ' '
    || c == '\U{85}' || c == '\U{A0}' || c == '\U{1680}'
    || ('\U{2000}' <= c <= '\U{200A}')
    || c == '\U{2028}' || c == '\U{2029}' || c == '\U{202F}' || c == '\U{205F}' || c == '\U{3000}'
  }

  predicate AllSpace(s: string) {
    forall k :: 0 <= k < |s| ==> IsSpace(s[k])
  }

  /** Drops the leading white space: what is left is a suffix that starts with a non-space. */
  function TrimLeft(s: string): (r: string)
    ensures |r| <= |s| && r == s[|s| - |r|..]
    ensures AllSpace(s[..|s| - |r|])
    ensures r == [] || !IsSpace(r[0])
  {
    if |s| > 0 && IsSpace(s[0]) then
      var r := TrimLeft(s[1..]);
      assert s[..|s| - |r|] == [s[0]] + s[1..][..|s| - 1 - |r|];
      r
    else
      s
  }

  /** Drops the trailing white space: what is left is a prefix that ends with a non-space. */
  function TrimRight(s: string): (r: string)
    ensures |r| <= |s| && r == s[..|r|]
    ensures AllSpace(s[|r|..])
    ensures r == [] || !IsSpace(r[|r| - 1])
  {
    if |s| > 0 && IsSpace(s[|s| - 1]) then
      var r := TrimRight(s[..|s| - 1]);
      assert s[|r|..] == s[..|s| - 1][|r|..] + [s[|s| - 1]];
      r
    else
      s
  }

  /** Go's `strings.TrimSpace`: leading and trailing white space removed; it neither starts nor ends with white space. */
  function TrimSpace(s: string): (r: string)
    ensures |r| <= |s|
    ensures r == [] || (!IsSpace(r[0]) && !IsSpace(r[|r| - 1]))
  {
    TrimRight(TrimLeft(s))
  }

  /** `TrimSpace` keeps an infix of its input and removes only white space around it. */
  lemma TrimSpaceIsInfix(s: string)
    ensures exists i, j :: 0 <= i <= j <= |s| && TrimSpace(s) == s[i..j] && AllSpace(s[..i]) && AllSpace(s[j..])
  {
    var l := TrimLeft(s);
    var r := TrimRight(l);
    var i := |s| - |l|;
    var j := i + |r|;
    assert r == s[i..j] by { assert l == s[i..]; }
    assert AllSpace(s[..i]);
    assert AllSpace(s[j..]) by { assert s[j..] == l[|r|..]; }
  }

  /** Leading white space makes no difference to `TrimLeft`. */
  lemma {:induction false} TrimLeftSkipsSpace(lead: string, s: string)
    requires AllSpace(lead)
    ensures TrimLeft(lead + s) == TrimLeft(s)
    decreases |lead|
  {
    if |lead| > 0 {
      assert (lead + s)[0] == lead[0];
      assert (lead + s)[1..] == lead[1..] + s;
      TrimLeftSkipsSpace(lead[1..], s);
      calc {
        TrimLeft(lead + s);
        TrimLeft((lead + s)[1..]);
        TrimLeft(lead[1..] + s);
      }
    } else {
      assert lead + s == s;
    }
  }

  /** Trailing white space makes no difference to `TrimRight`. */
  lemma {:induction false} TrimRightSkipsSpace(s: string, trail: string)
    requires AllSpace(trail)
    ensures TrimRight(s + trail) == TrimRight(s)
    decreases |trail|
  {
    if |trail| > 0 {
      var t := trail[..|trail| - 1];
      assert (s + trail)[|s + trail| - 1] == trail[|trail| - 1];
      assert (s + trail)[..|s + trail| - 1] == s + t;
      TrimRightSkipsSpace(s, t);
      calc {
        TrimRight(s + trail);
        TrimRight((s + trail)[..|s + trail| - 1]);
        TrimRight(s + t);
      }
    } else {
      assert s + trail == s;
    }
  }

  /** Padding a string with white space on either side does not change its trimmed form. */
  lemma TrimSpacePadded(lead: string, s: string, trail: string)
    requires AllSpace(lead) && AllSpace(trail)
    ensures TrimSpace(lead + s + trail) == TrimSpace(s)
  {
    var l := TrimLeft(s);
    var n := |s| - |l|;
    assert lead + s + trail == (lead + s[..n]) + (l + trail);
    assert AllSpace(lead + s[..n]);
    TrimLeftSkipsSpace(lead + s[..n], l + trail);
    assert TrimLeft(lead + s + trail) == TrimLeft(l + trail);
    if l == [] {
      assert TrimLeft(trail) == [] by { TrimLeftSkipsSpace(trail, []); assert trail + [] == trail; }
    } else {
      assert TrimLeft(l + trail) == l + trail;
    }
    TrimRightSkipsSpace(l, trail);
  }

  /** Trimming twice is trimming once. */
  lemma TrimSpaceIdempotent(s: string)
    ensures TrimSpace(TrimSpace(s)) == TrimSpace(s)
  {
    var t := TrimSpace(s);
    TrimSpacePadded([], t, []);
    assert t == [] + t + [];
    if t != [] {
      assert TrimLeft(t) == t;
    }
  }
}
