/** The pieces of Rust's `str` API the catalogue builder relies on:
    `trim`, `split` on a separator, `starts_with`, `replace` of one
    character by nothing, and the ordering of `String` keys. */
module Strings {
  import opened Wrappers

  // ---------------------------------------------------------------------
  // trim
  // ---------------------------------------------------------------------

  /** The Unicode White_Space property, which `char::is_whitespace` (and so
      `str::trim`) tests. */
  predicate IsWhitespace(c: char) {
    ('\U{0009}' <= c <= '\U{000D}') || c == ' ' || c == '\U{0085}' || c == '\U{00A0}'
    || c == '\U{1680}' || ('\U{2000}' <= c <= '\U{200A}') || c == '\U{2028}'
    || c == '\U{2029}' || c == '\U{202F}' || c == '\U{205F}' || c == '\U{3000}'
  }

  /** Every character of `s` from index `lo` up to `hi` is whitespace. */
  predicate WhitespaceBetween(s: string, lo: int, hi: int) {
    forall m :: lo <= m < hi && 0 <= m < |s| ==> IsWhitespace(s[m])
  }

  /** `str::trim_start`: drops the leading whitespace and nothing else. */
  function TrimStart(s: string): (r: string)
    ensures |r| <= |s| && r == s[|s| - |r|..]
    ensures WhitespaceBetween(s, 0, |s| - |r|)
    ensures r == [] || !IsWhitespace(r[0])
  {
    if s != [] && IsWhitespace(s[0]) then TrimStart(s[1..]) else s
  }

  /** `str::trim_end`: drops the trailing whitespace and nothing else. */
  function TrimEnd(s: string): (r: string)
    ensures |r| <= |s| && r == s[..|r|]
    ensures WhitespaceBetween(s, |r|, |s|)
    ensures r == [] || !IsWhitespace(r[|r| - 1])
  {
    if s != [] && IsWhitespace(s[|s| - 1]) then TrimEnd(s[..|s| - 1]) else s
  }

  /** `t` is what trimming `s` must give: the slice `s[i..i + |t|]` with only
      whitespace around it and no whitespace at either of its ends. */
  predicate IsTrimmingOf(t: string, s: string, i: nat) {
    i + |t| <= |s| && t == s[i..i + |t|]
    && WhitespaceBetween(s, 0, i) && WhitespaceBetween(s, i + |t|, |s|)
    && (t == [] || (!IsWhitespace(t[0]) && !IsWhitespace(t[|t| - 1])))
  }

  /** `str::trim`. */
  function Trim(s: string): (r: string)
    ensures IsTrimmingOf(r, s, |s| - |TrimStart(s)|)
  {
    TrimIsTrimming(s);
    TrimEnd(TrimStart(s))
  }

  lemma TrimIsTrimming(s: string)
    ensures IsTrimmingOf(TrimEnd(TrimStart(s)), s, |s| - |TrimStart(s)|)
  {
    var front := TrimStart(s);
    TrimmingOfSuffix(s, |s| - |front|, front, TrimEnd(front));
  }

  /** Trimming the end of a suffix `front == s[k..]` that starts with no
      whitespace, and has only whitespace before it, trims `s`. */
  lemma TrimmingOfSuffix(s: string, k: nat, front: string, r: string)
    requires k <= |s| && front == s[k..]
    requires WhitespaceBetween(s, 0, k) && (front == [] || !IsWhitespace(front[0]))
    requires |r| <= |front| && r == front[..|r|]
    requires WhitespaceBetween(front, |r|, |front|) && (r == [] || !IsWhitespace(r[|r| - 1]))
    ensures IsTrimmingOf(r, s, k)
  {
  }

  /** Trimming is determined by its contract: any slice of `s` that has only
      whitespace around it and none at its ends is `Trim(s)`. */
  lemma TrimIsUnique(s: string, t: string, i: nat)
    requires IsTrimmingOf(t, s, i)
    ensures t == Trim(s)
  {
    TrimmingsAgree(s, t, i, Trim(s), |s| - |TrimStart(s)|);
  }

  /** Two trimmings of the same string are the same slice. */
  lemma TrimmingsAgree(s: string, t: string, i: nat, u: string, k: nat)
    requires IsTrimmingOf(t, s, i) && IsTrimmingOf(u, s, k)
    ensures t == u
  {
    if t != [] {
      assert s[i] == t[0] && s[i + |t| - 1] == t[|t| - 1];
    }
    if u != [] {
      assert s[k] == u[0] && s[k + |u| - 1] == u[|u| - 1];
    }
  }

  // ---------------------------------------------------------------------
  // split on a separator
  // ---------------------------------------------------------------------

  predicate OccursAt(s: string, sep: string, i: nat) {
    i + |sep| <= |s| && s[i..i + |sep|] == sep
  }

  ghost predicate Contains(s: string, sep: string) {
    exists i: nat :: OccursAt(s, sep, i)
  }

  /** An occurrence past the first character of `s` is an occurrence in
      `s[1..]`, one position earlier. */
  lemma OccursShift(s: string, sep: string)
    requires |s| >= 1
    ensures forall j: nat :: 0 < j ==> OccursAt(s, sep, j) == OccursAt(s[1..], sep, j - 1)
  {
  }

  /** The leftmost occurrence of `sep` in `s`, which is where `str::split`
      cuts next. */
  function IndexOf(s: string, sep: string): (r: Option<nat>)
    requires sep != []
    ensures r.Some? ==> OccursAt(s, sep, r.value)
    ensures r.Some? ==> forall j: nat :: j < r.value ==> !OccursAt(s, sep, j)
    ensures r.None? ==> !Contains(s, sep)
    decreases |s|
  {
    if |s| < |sep| then None
    else if s[..|sep|] == sep then Some(0)
    else
      OccursShift(s, sep);
      match IndexOf(s[1..], sep)
      case None => None
      case Some(i) => Some(i + 1)
  }

  /** What lies before the leftmost occurrence of `sep` does not contain it. */
  lemma BeforeFirstOccurrence(s: string, sep: string, i: nat)
    requires sep != [] && i <= |s|
    requires forall j: nat :: j < i ==> !OccursAt(s, sep, j)
    ensures !Contains(s[..i], sep)
  {
    forall j: nat | OccursAt(s[..i], sep, j) ensures false {
      assert s[..i][j..j + |sep|] == s[j..j + |sep|];
      assert j < i && OccursAt(s, sep, j);
    }
  }

  /** A slice of a string that does not contain `sep` does not contain it
      either. */
  lemma SliceKeepsAbsence(s: string, sep: string, i: nat, j: nat)
    requires i <= j <= |s| && !Contains(s, sep)
    ensures !Contains(s[i..j], sep)
  {
    forall m: nat | OccursAt(s[i..j], sep, m) ensures OccursAt(s, sep, i + m) {
      assert m + |sep| <= j - i;
      var inner, outer := s[i..j][m..m + |sep|], s[i + m..i + m + |sep|];
      forall q | 0 <= q < |sep| ensures inner[q] == outer[q] {
        assert inner[q] == s[i + m + q];
      }
      assert inner == outer;
    }
  }

  /** Trimming a string that does not contain `sep` cannot create it. */
  lemma TrimKeepsAbsence(s: string, sep: string)
    requires !Contains(s, sep)
    ensures !Contains(Trim(s), sep)
  {
    var i := |s| - |TrimStart(s)|;
    SliceKeepsAbsence(s, sep, i, i + |Trim(s)|);
  }

  /** `str::split(sep)` collected into a vector: the pieces between the
      non-overlapping occurrences of `sep`, scanning from the left. */
  function Split(s: string, sep: string): (r: seq<string>)
    requires sep != []
    ensures |r| >= 1
    ensures forall k :: 0 <= k < |r| ==> !Contains(r[k], sep)
    decreases |s|
  {
    match IndexOf(s, sep)
    case None => [s]
    case Some(i) =>
      BeforeFirstOccurrence(s, sep, i);
      [s[..i]] + Split(s[i + |sep|..], sep)
  }

  /** `[String]::join(sep)`. */
  function Join(pieces: seq<string>, sep: string): string
    decreases |pieces|
  {
    if |pieces| == 0 then ""
    else if |pieces| == 1 then pieces[0]
    else pieces[0] + sep + Join(pieces[1..], sep)
  }

  /** Splitting loses nothing: joining the pieces with the separator gives
      back the original string. */
  lemma {:induction false} JoinSplit(s: string, sep: string)
    requires sep != []
    ensures Join(Split(s, sep), sep) == s
    decreases |s|
  {
    match IndexOf(s, sep)
    case None =>
    case Some(i) =>
      var rest := s[i + |sep|..];
      var tail := Split(rest, sep);
      var pieces := [s[..i]] + tail;
      assert Split(s, sep) == pieces;
      assert pieces[1..] == tail;
      assert Join(pieces, sep) == s[..i] + sep + Join(tail, sep);
      JoinSplit(rest, sep);
      CutAround(s, i, |sep|);
  }

  lemma CutAround(s: string, i: nat, n: nat)
    requires i + n <= |s|
    ensures s == s[..i] + s[i..i + n] + s[i + n..]
  {
  }

  /** The number of positions at which `sep` occurs in `s`. */
  function Occurrences(s: string, sep: string): nat
    requires sep != []
    decreases |s|
  {
    if |s| < |sep| then 0
    else (if s[..|sep|] == sep then 1 else 0) + Occurrences(s[1..], sep)
  }

  lemma {:induction false} NoOccurrences(s: string, sep: string)
    requires sep != [] && !Contains(s, sep)
    ensures Occurrences(s, sep) == 0
    decreases |s|
  {
    if |s| >= |sep| {
      assert !OccursAt(s, sep, 0);
      forall j: nat | OccursAt(s[1..], sep, j) ensures false {
        assert s[1..][j..j + |sep|] == s[j + 1..j + 1 + |sep|];
        assert OccursAt(s, sep, j + 1);
      }
      NoOccurrences(s[1..], sep);
    }
  }

  /** "OR" cannot overlap itself, so an occurrence of it between `a` and `b`
      adds exactly one to the count. */
  lemma {:induction false} OccurrencesAroundOr(a: string, b: string)
    ensures Occurrences(a + "OR" + b, "OR") == Occurrences(a, "OR") + 1 + Occurrences(b, "OR")
    decreases |a|
  {
    var s := a + "OR" + b;
    if a == [] {
      assert s == "OR" + b && s[1..] == "R" + b;
      if |b| > 0 {
        assert ("R" + b)[1..] == b;
        assert ("R" + b)[0] == 'R';
      }
    } else {
      assert s[1..] == a[1..] + "OR" + b;
      OccurrencesAroundOr(a[1..], b);
      if |a| == 1 {
        assert s[..2] == [a[0], 'O'];
      } else {
        assert s[..2] == a[..2];
      }
    }
  }

  /** Splitting on "OR" yields one piece more than there are occurrences of
      "OR". */
  lemma {:induction false} SplitOrCount(s: string)
    ensures |Split(s, "OR")| == Occurrences(s, "OR") + 1
    decreases |s|
  {
    match IndexOf(s, "OR")
    case None =>
      NoOccurrences(s, "OR");
    case Some(i) =>
      var rest := s[i + 2..];
      BeforeFirstOccurrence(s, "OR", i);
      NoOccurrences(s[..i], "OR");
      assert s == s[..i] + "OR" + rest;
      OccurrencesAroundOr(s[..i], rest);
      SplitOrCount(rest);
  }

  // ---------------------------------------------------------------------
  // starts_with, replace
  // ---------------------------------------------------------------------

  predicate StartsWith(s: string, prefix: string) {
    |prefix| <= |s| && s[..|prefix|] == prefix
  }

  /** `s.replace(c, "")`: every occurrence of `c` removed, everything else kept
      in order. */
  function RemoveChar(s: string, c: char): (r: string)
    ensures c !in r
    ensures c !in s ==> r == s
    ensures forall d :: d != c ==> multiset(r)[d] == multiset(s)[d]
  {
    if s == [] then []
    else
      var rest := RemoveChar(s[1..], c);
      assert s == [s[0]] + s[1..];
      if s[0] == c then rest else [s[0]] + rest
  }

  /** Removal works piece by piece: with `RemoveCharSingle` this fixes the
      result, characters other than `c` included, in their order. */
  lemma {:induction false} RemoveCharConcat(a: string, b: string, c: char)
    ensures RemoveChar(a + b, c) == RemoveChar(a, c) + RemoveChar(b, c)
    decreases |a|
  {
    if a == [] {
      assert a + b == b;
    } else {
      assert (a + b)[1..] == a[1..] + b;
      RemoveCharConcat(a[1..], b, c);
    }
  }

  /** A single character is dropped when it is `c` and kept otherwise. */
  lemma RemoveCharSingle(d: char, c: char)
    ensures RemoveChar([d], c) == if d == c then [] else [d]
  {
  }

  // ---------------------------------------------------------------------
  // ordering of String keys
  // ---------------------------------------------------------------------

  /** `<` on `String`: lexicographic by character (UTF-8 byte order and code
      point order agree). */
  predicate LexLess(a: string, b: string)
    decreases |a|
  {
    b != [] && (a == [] || a[0] < b[0] || (a[0] == b[0] && LexLess(a[1..], b[1..])))
  }

  lemma {:induction false} LexLessTransitive(a: string, b: string, c: string)
    requires LexLess(a, b) && LexLess(b, c)
    ensures LexLess(a, c)
    decreases |a|
  {
    if a != [] && a[0] == b[0] && b[0] == c[0] {
      LexLessTransitive(a[1..], b[1..], c[1..]);
    }
  }
}
