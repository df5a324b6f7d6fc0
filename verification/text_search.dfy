/**
 Substring search and splitting on a separator, as the program uses them from Go's
 `strings` package: `strings.Index` (leftmost occurrence, -1 when absent) and
 `strings.Split` with a non-empty separator.
 */
module TextSearch {
  import opened Options

  /** `p` occurs in `s` starting at position `i`. */
  predicate PrefixAt(s: string, p: string, i: int) {
    0 <= i && i + |p| <= |s| && s[i..i + |p|] == p
  }

  /** `i` is the leftmost position at which `p` occurs in `s`. */
  ghost predicate FirstOccurrence(s: string, p: string, i: int) {
    PrefixAt(s, p, i) && forall j :: 0 <= j < i ==> !PrefixAt(s, p, j)
  }

  ghost predicate Occurs(s: string, p: string) {
    exists i :: PrefixAt(s, p, i)
  }

  /** Leftmost occurrence of `p` in `s` at or after position `k`. */
  function IndexFrom(s: string, p: string, k: nat): (r: Option<nat>)
    ensures r.Some? ==> k <= r.value && PrefixAt(s, p, r.value)
    ensures r.Some? ==> forall j :: k <= j < r.value ==> !PrefixAt(s, p, j)
    ensures r.None? ==> forall j :: k <= j ==> !PrefixAt(s, p, j)
    decreases |s| - k
  {
    if k + |p| > |s| then None
    else if s[k..k + |p|] == p then Some(k)
    else IndexFrom(s, p, k + 1)
  }

  /** Go's `strings.Index(s, p)`, with None standing for -1. */
  function IndexOf(s: string, p: string): (r: Option<nat>)
    ensures r.Some? ==> FirstOccurrence(s, p, r.value)
    ensures r.None? ==> !Occurs(s, p)
  {
    IndexFrom(s, p, 0)
  }

  /** A text has at most one leftmost occurrence of a pattern, and `IndexOf` finds it. */
  lemma IndexOfFinds(s: string, p: string, i: nat)
    requires FirstOccurrence(s, p, i)
    ensures IndexOf(s, p) == Some(i)
  {
  }

  /** The inverse of `Split`: the parts glued back together with `sep` between them. */
  function Join(parts: seq<string>, sep: string): string
  {
    if |parts| == 0 then ""
    else if |parts| == 1 then parts[0]
    else parts[0] + sep + Join(parts[1..], sep)
  }

  /**
   Go's `strings.Split(s, sep)` for a non-empty separator: n leftmost,
   non-overlapping occurrences give n + 1 parts, part 0 being the text before
   the first occurrence.
   */
  function Split(s: string, sep: string): (parts: seq<string>)
    requires |sep| > 0
    ensures |parts| >= 1
    decreases |s|
  {
    match IndexOf(s, sep)
    case None => [s]
    case Some(i) => [s[..i]] + Split(s[i + |sep|..], sep)
  }

  /** Splitting loses nothing: joining the parts with the separator restores the text. */
  lemma {:induction false} JoinSplit(s: string, sep: string)
    requires |sep| > 0
    ensures Join(Split(s, sep), sep) == s
    decreases |s|
  {
    match IndexOf(s, sep)
    case None =>
    case Some(i) =>
      var rest := s[i + |sep|..];
      JoinSplit(rest, sep);
      SplitUnfold(s, sep, i);
      assert s[i..i + |sep|] == sep;
      assert s == s[..i] + s[i..i + |sep|] + rest;
      assert ([s[..i]] + Split(rest, sep))[1..] == Split(rest, sep);
  }

  /** No part of a split contains the separator. */
  lemma {:induction false} SplitPartsAvoidSeparator(s: string, sep: string)
    requires |sep| > 0
    ensures forall k, j :: 0 <= k < |Split(s, sep)| ==> !PrefixAt(Split(s, sep)[k], sep, j)
    decreases |s|
  {
    match IndexOf(s, sep)
    case None =>
    case Some(i) =>
      var rest := s[i + |sep|..];
      SplitPartsAvoidSeparator(rest, sep);
      SplitUnfold(s, sep, i);
      PiecesBeforeFirst(s, sep, i);
  }

  /** A match inside a slice is a match in the whole string, shifted by the slice's start. */
  lemma PrefixAtWithin(s: string, lo: nat, hi: nat, p: string, j: int)
    requires lo <= hi <= |s|
    ensures PrefixAt(s[lo..hi], p, j) <==> 0 <= j && lo + j + |p| <= hi && PrefixAt(s, p, lo + j)
  {
    if 0 <= j && lo + j + |p| <= hi {
      var u := s[lo..hi][j..j + |p|];
      var v := s[lo + j..lo + j + |p|];
      forall m | 0 <= m < |p| ensures u[m] == v[m] {
        assert u[m] == s[lo + j + m];
      }
      assert u == v;
    }
  }

  /** The text before the leftmost occurrence of `p` holds no occurrence of `p`. */
  lemma PiecesBeforeFirst(s: string, p: string, i: nat)
    requires |p| > 0
    requires FirstOccurrence(s, p, i)
    ensures forall j :: !PrefixAt(s[..i], p, j)
  {
    forall j ensures !PrefixAt(s[..i], p, j) {
      assert s[0..i] == s[..i];
      PrefixAtWithin(s, 0, i, p, j);
    }
  }

  /** Occurrences of a one-character pattern are exactly the positions holding that character. */
  lemma CharSearch(s: string, c: char)
    ensures forall j :: PrefixAt(s, [c], j) <==> 0 <= j < |s| && s[j] == c
  {
    forall j ensures PrefixAt(s, [c], j) <==> 0 <= j < |s| && s[j] == c {
      if 0 <= j < |s| {
        assert s[j..j + 1] == [s[j]];
      }
    }
  }

  /** A leftmost occurrence stays leftmost when text is appended. */
  lemma FirstOccurrenceExtends(a: string, t: string, p: string, i: nat)
    requires FirstOccurrence(a, p, i)
    ensures FirstOccurrence(a + t, p, i)
  {
    assert (a + t)[0..|a|] == a;
    PrefixAtWithin(a + t, 0, |a|, p, i);
    forall j | 0 <= j < i ensures !PrefixAt(a + t, p, j) {
      PrefixAtWithin(a + t, 0, |a|, p, j);
    }
  }

  /**
   For a one-character separator, splitting `a + sep + b` splits `a` and `b`
   independently: the separator between them always ends a part.
   */
  lemma {:induction false} SplitAtSeparatorChar(a: string, c: char, b: string)
    ensures Split(a + [c] + b, [c]) == Split(a, [c]) + Split(b, [c])
    decreases |a|
  {
    var first := IndexOf(a, [c]);
    if first.None? {
      SplitAfterSeparatorFreeText(a, c, b);
      SplitWithoutOccurrence(a, [c]);
    } else {
      var i := first.value;
      var head, tail := a[..i], a[i + 1..];
      SplitPastEarlierSeparator(a, c, b, i);
      SplitAtSeparatorChar(tail, c, b);
      SplitUnfold(a, [c], i);
      var x, y := Split(tail, [c]), Split(b, [c]);
      assert Split(a + [c] + b, [c]) == [head] + (x + y);
      assert Split(a, [c]) == [head] + x;
      assert [head] + (x + y) == ([head] + x) + y;
    }
  }

  lemma SplitPastEarlierSeparator(a: string, c: char, b: string, i: nat)
    requires IndexOf(a, [c]) == Some(i)
    ensures i < |a|
    ensures Split(a + [c] + b, [c]) == [a[..i]] + Split(a[i + 1..] + [c] + b, [c])
  {
    var s := a + [c] + b;
    FirstOccurrenceExtends(a, [c] + b, [c], i);
    assert a + ([c] + b) == s;
    IndexOfFinds(s, [c], i);
    assert s[..i] == a[..i];
    assert s[i + 1..] == a[i + 1..] + [c] + b;
    SplitUnfold(s, [c], i);
  }

  lemma SplitAfterSeparatorFreeText(a: string, c: char, b: string)
    requires IndexOf(a, [c]).None?
    ensures Split(a + [c] + b, [c]) == [a] + Split(b, [c])
  {
    var s := a + [c] + b;
    SeparatorAfterText(a, c, b);
    assert s[..|a|] == a;
    assert s[|a| + 1..] == b;
    SplitUnfold(s, [c], |a|);
  }

  /** When `a` has no separator character, the one placed after it is the leftmost. */
  lemma SeparatorAfterText(a: string, c: char, b: string)
    requires IndexOf(a, [c]).None?
    ensures IndexOf(a + [c] + b, [c]) == Some(|a|)
  {
    var s := a + [c] + b;
    CharSearch(a, c);
    CharSearch(s, c);
    forall j | 0 <= j < |a| ensures !PrefixAt(s, [c], j) {
      assert s[j] == a[j];
    }
    IndexOfFinds(s, [c], |a|);
  }

  lemma SplitUnfold(s: string, sep: string, i: nat)
    requires |sep| > 0
    requires IndexOf(s, sep) == Some(i)
    ensures i + |sep| <= |s|
    ensures Split(s, sep) == [s[..i]] + Split(s[i + |sep|..], sep)
  {
    assert PrefixAt(s, sep, i);
  }

  /** Text holding no separator is a single part. */
  lemma SplitWithoutOccurrence(s: string, sep: string)
    requires |sep| > 0
    requires !Occurs(s, sep)
    ensures Split(s, sep) == [s]
  {
  }

  /**
   Text cut at the first occurrence of the separator: the text before it is
   the first part, and the rest is split on.
   */
  lemma SplitAtFirst(a: string, sep: string, b: string)
    requires |sep| > 0
    requires FirstOccurrence(a + sep + b, sep, |a|)
    ensures Split(a + sep + b, sep) == [a] + Split(b, sep)
  {
    var s := a + sep + b;
    IndexOfFinds(s, sep, |a|);
    assert s[..|a|] == a;
    assert s[|a| + |sep|..] == b;
  }
}
