/** A small Option type for searches that may find nothing. */
module Wrappers {
  datatype Option<T> = None | Some(value: T)
}

/**
 * The few JavaScript string operations the review generator relies on:
 * `trim`, `indexOf`, `split` with a string separator and `replace` with a
 * string pattern (which replaces the first occurrence only).
 * Strings are sequences of characters.
 */
module Strings {
  import opened Wrappers

  /**
   * The characters `String.prototype.trim` strips: ECMAScript WhiteSpace
   * (tab, vertical tab, form feed, space, no-break space, the byte order
   * mark and every other space separator of Unicode category Zs) and
   * LineTerminator (line feed, carriage return, U+2028, U+2029).
   */
  predicate IsWhitespace(c: char) {
    c == '\t' || c == '\n' || c == '\U{000B}' || c == '\U{000C}' || c == '\r' || c == ' ' ||
    c == '\U{00A0}' || c == '\U{1680}' || ('\U{2000}' <= c <= '\U{200A}') ||
    c == '\U{2028}' || c == '\U{2029}' || c == '\U{202F}' || c == '\U{205F}' ||
    c == '\U{3000}' || c == '\U{FEFF}'
  }

  /** Every character of `s` is whitespace (this includes the empty string). */
  predicate IsBlank(s: string) {
    forall i | 0 <= i < |s| :: IsWhitespace(s[i])
  }

  /** Neither the first nor the last character is whitespace. */
  predicate IsTrimmed(s: string) {
    s == [] || (!IsWhitespace(s[0]) && !IsWhitespace(s[|s| - 1]))
  }

  /** Drops the leading whitespace of `s`. */
  function TrimStart(s: string): (r: string)
    ensures |r| <= |s| && r == s[|s| - |r|..]
    ensures IsBlank(s[..|s| - |r|])
    ensures r == [] || !IsWhitespace(r[0])
  {
    if s != [] && IsWhitespace(s[0]) then
      var r := TrimStart(s[1..]);
      assert forall i | 1 <= i < |s| - |r| :: s[i] == s[1..][..|s| - 1 - |r|][i - 1];
      r
    else s
  }

  /** Drops the trailing whitespace of `s`. */
  function TrimEnd(s: string): (r: string)
    ensures |r| <= |s| && r == s[..|r|]
    ensures IsBlank(s[|r|..])
    ensures r == [] || !IsWhitespace(r[|r| - 1])
  {
    if s != [] && IsWhitespace(s[|s| - 1]) then
      var r := TrimEnd(s[..|s| - 1]);
      assert forall i | 0 <= i < |s| - 1 - |r| :: s[|r|..][i] == s[..|s| - 1][|r|..][i];
      r
    else s
  }

  /**
   * `String.prototype.trim`: the infix of `s` left once the blank prefix and
   * the blank suffix are cut off; it neither starts nor ends with whitespace.
   */
  function Trim(s: string): (r: string)
    ensures IsTrimmed(r)
    ensures r == [] <==> IsBlank(s)
  {
    TrimFacts(s);
    TrimEnd(TrimStart(s))
  }

  /** Where the trimmed text starts in `s`: after the leading whitespace. */
  function TrimOffset(s: string): nat {
    |s| - |TrimStart(s)|
  }

  /**
   * The trimmed text is the infix of `s` between a blank prefix, which ends
   * at TrimOffset, and a blank suffix: trimming cuts off whitespace only, at
   * both ends.
   */
  lemma TrimIsInfix(s: string)
    ensures TrimOffset(s) + |Trim(s)| <= |s|
    ensures Trim(s) == s[TrimOffset(s)..TrimOffset(s) + |Trim(s)|]
    ensures IsBlank(s[..TrimOffset(s)]) && IsBlank(s[TrimOffset(s) + |Trim(s)|..])
  {
    TrimInfixAt(s);
    TrimBlankBefore(s);
    TrimBlankAfter(s);
  }

  /** The trimmed text starts at TrimOffset. */
  lemma TrimInfixAt(s: string)
    ensures TrimOffset(s) + |Trim(s)| <= |s|
    ensures Trim(s) == s[TrimOffset(s)..TrimOffset(s) + |Trim(s)|]
  {
    var t := TrimStart(s);
    var r := TrimEnd(t);
    var lo := |s| - |t|;
    PrefixOfSuffix(s, t, r, lo);
    assert TrimOffset(s) == lo && Trim(s) == r;
  }

  /** Only whitespace comes before the trimmed text. */
  lemma TrimBlankBefore(s: string)
    ensures IsBlank(s[..TrimOffset(s)])
  {
    var t := TrimStart(s);
    var lo := |s| - |t|;
    assert TrimOffset(s) == lo;
  }

  /** Only whitespace comes after the trimmed text. */
  lemma TrimBlankAfter(s: string)
    ensures TrimOffset(s) + |Trim(s)| <= |s| && IsBlank(s[TrimOffset(s) + |Trim(s)|..])
  {
    var t := TrimStart(s);
    var r := TrimEnd(t);
    var lo := |s| - |t|;
    assert Trim(s) == r && TrimOffset(s) == lo;
    BlankTail(s, t, r, lo);
  }

  /** Whitespace after a prefix of a suffix is whitespace in the whole text. */
  lemma BlankTail(s: string, t: string, r: string, lo: nat)
    requires lo <= |s| && t == s[lo..] && |r| <= |t| && IsBlank(t[|r|..])
    ensures IsBlank(s[lo + |r|..])
  {
    var hi := lo + |r|;
    forall i | 0 <= i < |s| - hi ensures IsWhitespace(s[hi..][i]) {
      assert s[hi..][i] == t[|r|..][i];
    }
  }

  /** A prefix of a suffix is an infix. */
  lemma PrefixOfSuffix(s: string, t: string, r: string, lo: nat)
    requires lo <= |s| && t == s[lo..] && |r| <= |t| && r == t[..|r|]
    ensures lo + |r| <= |s| && r == s[lo..lo + |r|]
  {
  }

  /** A blank string has nothing left once its leading whitespace is dropped. */
  lemma {:induction false} TrimStartOfBlank(s: string)
    requires IsBlank(s)
    ensures TrimStart(s) == []
  {
    if s != [] {
      assert IsBlank(s[1..]) by {
        forall i | 0 <= i < |s| - 1 ensures IsWhitespace(s[1..][i]) { assert s[1..][i] == s[i + 1]; }
      }
      TrimStartOfBlank(s[1..]);
    }
  }

  /** A blank prefix followed by a blank suffix is blank. */
  lemma BlankJoin(s: string, lo: nat)
    requires lo <= |s| && IsBlank(s[..lo]) && IsBlank(s[lo..])
    ensures IsBlank(s)
  {
    forall i | 0 <= i < |s| ensures IsWhitespace(s[i]) {
      if i < lo {
        assert s[..lo][i] == s[i];
      } else {
        assert s[lo..][i - lo] == s[i];
      }
    }
  }

  /** When nothing but whitespace follows the leading whitespace, the string is blank. */
  lemma BlankAfterTrimStart(s: string)
    requires IsBlank(TrimStart(s))
    ensures IsBlank(s)
  {
    var t := TrimStart(s);
    BlankJoin(s, |s| - |t|);
  }

  /** TrimEnd after TrimStart leaves content at both ends, or nothing for a blank string. */
  lemma TrimFacts(s: string)
    ensures TrimEnd(TrimStart(s)) == [] <==> IsBlank(s)
    ensures IsTrimmed(TrimEnd(TrimStart(s)))
  {
    var t := TrimStart(s);
    var r := TrimEnd(t);
    if IsBlank(s) {
      TrimStartOfBlank(s);
    }
    if r == [] {
      assert t[0..] == t;
      BlankAfterTrimStart(s);
    } else {
      assert r[0] == t[0];
    }
  }

  /** A string that neither starts nor ends with whitespace is its own trim. */
  lemma TrimOfTrimmed(s: string)
    requires IsTrimmed(s)
    ensures Trim(s) == s
  {
    assert TrimStart(s) == s;
    assert TrimEnd(s) == s;
  }

  /** TrimStart drops a blank prefix and stops where the content starts. */
  lemma {:induction false} TrimStartBlankPrefix(a: string, y: string)
    requires IsBlank(a) && (y == [] || !IsWhitespace(y[0]))
    ensures TrimStart(a + y) == y
  {
    if a == [] {
      assert a + y == y;
    } else {
      assert (a + y)[0] == a[0];
      assert (a + y)[1..] == a[1..] + y;
      TrimStartBlankPrefix(a[1..], y);
    }
  }

  /** TrimEnd drops a blank suffix and stops where the content ends. */
  lemma {:induction false} TrimEndBlankSuffix(y: string, b: string)
    requires IsBlank(b) && (y == [] || !IsWhitespace(y[|y| - 1]))
    ensures TrimEnd(y + b) == y
  {
    if b == [] {
      assert y + b == y;
    } else {
      assert (y + b)[|y + b| - 1] == b[|b| - 1];
      assert (y + b)[..|y + b| - 1] == y + b[..|b| - 1];
      TrimEndBlankSuffix(y, b[..|b| - 1]);
    }
  }

  /** Trimming text padded with whitespace on both sides gives the text back. */
  lemma TrimPadded(a: string, x: string, b: string)
    requires IsBlank(a) && IsBlank(b)
    requires IsTrimmed(x)
    ensures Trim(a + x + b) == x
  {
    if x == [] {
      assert IsBlank(a + x + b) by {
        BlankConcat(a, b);
        assert a + x + b == a + b;
      }
    } else {
      assert a + x + b == a + (x + b);
      assert (x + b)[0] == x[0];
      TrimStartBlankPrefix(a, x + b);
      TrimEndBlankSuffix(x, b);
    }
  }

  /** Two blank strings together are blank. */
  lemma BlankConcat(a: string, b: string)
    requires IsBlank(a) && IsBlank(b)
    ensures IsBlank(a + b)
  {
    assert (a + b)[..|a|] == a && (a + b)[|a|..] == b;
    BlankJoin(a + b, |a|);
  }

  /** Trimming twice is trimming once. */
  lemma TrimIdempotent(s: string)
    ensures Trim(Trim(s)) == Trim(s)
  {
    TrimOfTrimmed(Trim(s));
  }

  /** `pat` occurs in `s` starting at index `i`. */
  predicate OccursAt(s: string, pat: string, i: nat) {
    i + |pat| <= |s| && s[i..i + |pat|] == pat
  }

  /** `pat` occurs somewhere in `s` (`String.prototype.includes`). */
  predicate Contains(s: string, pat: string) {
    exists i: nat | i <= |s| :: OccursAt(s, pat, i)
  }

  /** A pattern placed between two strings occurs where the first one ends. */
  lemma OccursBetween(a: string, pat: string, b: string)
    ensures OccursAt(a + pat + b, pat, |a|)
    ensures (a + pat + b)[..|a|] == a && (a + pat + b)[|a| + |pat|..] == b
  {
    assert (a + pat + b)[|a|..|a| + |pat|] == pat;
    assert (a + pat + b)[..|a|] == a;
    assert (a + pat + b)[|a| + |pat|..] == b;
  }

  /** Text that contains `pat` still does after a prefix is put before it. */
  lemma ContainsAfterPrefix(w: string, t: string, pat: string)
    requires Contains(t, pat)
    ensures Contains(w + t, pat)
  {
    var j: nat :| j <= |t| && OccursAt(t, pat, j);
    OccursAfterPrefix(w, t, pat, j);
    assert |w| + j <= |w + t|;
  }

  /** A window over a whitespace character cannot hold a pattern without whitespace. */
  lemma WindowOverWhitespace(s: string, pat: string, j: nat, p: nat)
    requires j <= p < j + |pat| && p < |s| && IsWhitespace(s[p])
    requires forall k | 0 <= k < |pat| :: !IsWhitespace(pat[k])
    ensures !OccursAt(s, pat, j)
  {
    if j + |pat| <= |s| {
      assert s[j..j + |pat|][p - j] == s[p];
    }
  }

  /**
   * Joining two texts that lack a pattern without whitespace cannot create
   * it when the second text is empty or starts with whitespace: an occurrence
   * across the joint would have to cover that whitespace.
   */
  lemma JoinAtWhitespaceLacks(before: string, after: string, pat: string)
    requires !Contains(before, pat) && !Contains(after, pat)
    requires after == [] || IsWhitespace(after[0])
    requires forall k | 0 <= k < |pat| :: !IsWhitespace(pat[k])
    ensures !Contains(before + after, pat)
  {
    var s := before + after;
    forall j: nat | j <= |s| ensures !OccursAt(s, pat, j) {
      if j >= |before| {
        OccursAfterPrefix(before, after, pat, j - |before|);
      } else if j + |pat| <= |before| {
        assert s[j..j + |pat|] == before[j..j + |pat|];
        assert !OccursAt(before, pat, j);
      } else if j + |pat| <= |s| {
        assert s[|before|] == after[0];
        WindowOverWhitespace(s, pat, j, |before|);
      }
    }
  }

  /**
   * Cutting out `s[a..b]`, where `b` is the end of `s` or a whitespace
   * character, and trimming cannot bring in a pattern without whitespace that
   * `s` lacks.
   */
  lemma CutBeforeWhitespaceLacks(s: string, a: nat, b: nat, pat: string)
    requires a <= b <= |s| && !Contains(s, pat)
    requires b == |s| || IsWhitespace(s[b])
    requires forall k | 0 <= k < |pat| :: !IsWhitespace(pat[k])
    ensures !Contains(Trim(s[..a] + s[b..]), pat)
  {
    var before := s[..a];
    var after := s[b..];
    SliceLacks(s, pat, 0, a);
    assert s[0..a] == before;
    SliceLacks(s, pat, b, |s|);
    assert s[b..|s|] == after;
    if b < |s| {
      assert after[0] == s[b];
    }
    JoinAtWhitespaceLacks(before, after, pat);
    TrimLacks(before + after, pat);
  }

  /** An occurrence in `t` is an occurrence in `w + t`, shifted by `|w|`, and back. */
  lemma OccursAfterPrefix(w: string, t: string, pat: string, j: nat)
    ensures OccursAt(w + t, pat, |w| + j) <==> OccursAt(t, pat, j)
  {
    if |w| + j + |pat| <= |w + t| {
      assert (w + t)[|w| + j..|w| + j + |pat|] == t[j..j + |pat|];
    }
  }

  /** An occurrence inside a slice is an occurrence in the whole string. */
  lemma OccursInSlice(s: string, pat: string, a: nat, b: nat, i: nat)
    requires a <= b <= |s| && OccursAt(s[a..b], pat, i)
    ensures OccursAt(s, pat, a + i)
  {
    forall k | i <= k < i + |pat| ensures s[a..b][k] == s[a + k] { }
    assert s[a..b][i..i + |pat|] == s[a + i..a + i + |pat|];
  }

  /** An occurrence that lies inside a window is an occurrence in that window. */
  lemma OccursInWindow(s: string, pat: string, a: nat, b: nat, p: nat)
    requires a <= p && p + |pat| <= b <= |s| && OccursAt(s, pat, p)
    ensures OccursAt(s[a..b], pat, p - a)
  {
    forall k | 0 <= k < |pat| ensures s[a..b][p - a + k] == pat[k] {
      assert s[p..p + |pat|][k] == s[p + k];
    }
    assert s[a..b][p - a..p - a + |pat|] == pat;
  }

  /** A string without `pat` has no slice containing `pat`. */
  lemma SliceLacks(s: string, pat: string, a: nat, b: nat)
    requires a <= b <= |s| && !Contains(s, pat)
    ensures !Contains(s[a..b], pat)
  {
    forall i: nat | i <= b - a ensures !OccursAt(s[a..b], pat, i) {
      if OccursAt(s[a..b], pat, i) { OccursInSlice(s, pat, a, b, i); }
    }
  }

  /** TrimStart stops at the first non-whitespace character. */
  lemma {:induction false} TrimStartStopsAt(x: string, p: nat)
    requires p < |x| && !IsWhitespace(x[p])
    ensures |x| - |TrimStart(x)| <= p
  {
    if IsWhitespace(x[0]) {
      TrimStartStopsAt(x[1..], p - 1);
    }
  }

  /** TrimEnd stops at the last non-whitespace character. */
  lemma {:induction false} TrimEndStopsAt(x: string, e: nat)
    requires e < |x| && !IsWhitespace(x[e])
    ensures e < |TrimEnd(x)|
  {
    if IsWhitespace(x[|x| - 1]) {
      TrimEndStopsAt(x[..|x| - 1], e);
    }
  }

  /** Trimming cannot bring in a pattern the text lacks. */
  lemma TrimLacks(s: string, pat: string)
    requires !Contains(s, pat)
    ensures !Contains(Trim(s), pat)
  {
    var lo := TrimOffset(s);
    var hi := lo + |Trim(s)|;
    TrimIsInfix(s);
    SliceLacks(s, pat, lo, hi);
  }

  /** Trimming keeps a pattern that neither starts nor ends with whitespace. */
  lemma TrimKeepsContains(x: string, pat: string)
    requires pat != [] && !IsWhitespace(pat[0]) && !IsWhitespace(pat[|pat| - 1])
    requires Contains(x, pat)
    ensures Contains(Trim(x), pat)
  {
    var p: nat :| p <= |x| && OccursAt(x, pat, p);
    TrimKeepsOccurrence(x, pat, p);
  }

  /**
   * Trimming keeps every occurrence of a pattern that starts and ends with a
   * non-whitespace character, shifted by the leading whitespace cut off.
   */
  lemma TrimKeepsOccurrence(x: string, pat: string, p: nat)
    requires pat != [] && !IsWhitespace(pat[0]) && !IsWhitespace(pat[|pat| - 1])
    requires OccursAt(x, pat, p)
    ensures TrimOffset(x) <= p && OccursAt(Trim(x), pat, p - TrimOffset(x))
    ensures Contains(Trim(x), pat)
  {
    TrimKeepsOccurrenceAt(x, pat, p);
    var q := p - TrimOffset(x);
    assert q <= |Trim(x)|;
  }

  /** The occurrence itself, shifted by the leading whitespace. */
  lemma TrimKeepsOccurrenceAt(x: string, pat: string, p: nat)
    requires pat != [] && !IsWhitespace(pat[0]) && !IsWhitespace(pat[|pat| - 1])
    requires OccursAt(x, pat, p)
    ensures TrimOffset(x) <= p && OccursAt(Trim(x), pat, p - TrimOffset(x))
  {
    var t := TrimStart(x);
    var lo := |x| - |t|;
    TrimStartKeeps(x, pat, p);
    TrimEndKeeps(t, pat, p - lo);
    var r := TrimEnd(t);
    assert OccursAt(r, pat, p - lo);
    assert TrimOffset(x) == lo && Trim(x) == r;
  }

  /** TrimStart keeps an occurrence of a pattern that starts with non-whitespace. */
  lemma TrimStartKeeps(x: string, pat: string, p: nat)
    requires pat != [] && !IsWhitespace(pat[0]) && OccursAt(x, pat, p)
    ensures TrimOffset(x) <= p && OccursAt(TrimStart(x), pat, p - TrimOffset(x))
  {
    var t := TrimStart(x);
    var lo := |x| - |t|;
    assert x[p] == pat[0];
    TrimStartStopsAt(x, p);
    assert t == x[lo..|x|];
    OccursInWindow(x, pat, lo, |x|, p);
  }

  /** TrimEnd keeps an occurrence of a pattern that ends with non-whitespace. */
  lemma TrimEndKeeps(t: string, pat: string, q: nat)
    requires pat != [] && !IsWhitespace(pat[|pat| - 1]) && OccursAt(t, pat, q)
    ensures OccursAt(TrimEnd(t), pat, q)
  {
    var e := q + |pat| - 1;
    assert t[q..q + |pat|][|pat| - 1] == t[e];
    TrimEndStopsAt(t, e);
    var r := TrimEnd(t);
    assert r == t[0..|r|];
    OccursInWindow(t, pat, 0, |r|, q);
  }

  /**
   * `s.indexOf(pat)`: the first index at which `pat` occurs, scanning left to
   * right, or None (JavaScript's -1) when it does not occur.
   */
  function IndexOf(s: string, pat: string): (r: Option<nat>)
    ensures r.Some? ==> OccursAt(s, pat, r.value) && forall j: nat | j < r.value :: !OccursAt(s, pat, j)
    ensures r.None? <==> !Contains(s, pat)
  {
    if |s| < |pat| then None
    else if s[..|pat|] == pat then Some(0)
    else
      var tail := IndexOf(s[1..], pat);
      assert forall j: nat | 1 <= j <= |s| :: OccursAt(s, pat, j) <==> OccursAt(s[1..], pat, j - 1) by {
        forall j: nat | 1 <= j <= |s| ensures OccursAt(s, pat, j) <==> OccursAt(s[1..], pat, j - 1) {
          if j + |pat| <= |s| { assert s[1..][j - 1..j - 1 + |pat|] == s[j..j + |pat|]; }
        }
      }
      match tail
      case None =>
        assert !OccursAt(s, pat, 0);
        None
      case Some(k) => Some(k + 1)
  }

  /** Two first occurrences are the same occurrence. */
  lemma FirstOccurrenceUnique(s: string, pat: string, i: nat, k: nat)
    requires OccursAt(s, pat, i) && forall j: nat | j < i :: !OccursAt(s, pat, j)
    requires OccursAt(s, pat, k) && forall j: nat | j < k :: !OccursAt(s, pat, j)
    ensures i == k
  {
    assert !(k < i);
    assert !(i < k);
  }

  /** Where the first occurrence is at `i`, indexOf finds `i`. */
  lemma IndexOfAt(s: string, pat: string, i: nat)
    requires OccursAt(s, pat, i) && forall j: nat | j < i :: !OccursAt(s, pat, j)
    ensures IndexOf(s, pat) == Some(i)
  {
    assert Contains(s, pat) by { assert i <= |s| && OccursAt(s, pat, i); }
    var r := IndexOf(s, pat);
    FirstOccurrenceUnique(s, pat, i, r.value);
  }

  /**
   * `s.replace(pat, rep)` with a string pattern: only the first occurrence
   * of `pat` is replaced; without an occurrence `s` is returned unchanged.
   */
  function ReplaceFirst(s: string, pat: string, rep: string): (r: string)
    ensures !Contains(s, pat) ==> r == s
    ensures Contains(s, pat) ==> |r| == |s| - |pat| + |rep|
  {
    match IndexOf(s, pat)
    case None => s
    case Some(i) => s[..i] + rep + s[i + |pat|..]
  }

  /**
   * Where the first occurrence of `pat` is at `i`, the replacement happens
   * there and the text after it, later occurrences included, is kept.
   */
  lemma ReplaceFirstAt(s: string, pat: string, rep: string, i: nat)
    requires OccursAt(s, pat, i) && forall j: nat | j < i :: !OccursAt(s, pat, j)
    ensures ReplaceFirst(s, pat, rep) == s[..i] + rep + s[i + |pat|..]
  {
    IndexOfAt(s, pat, i);
    var first := IndexOf(s, pat);
    assert first == Some(i);
  }
  /**
   * `s.split(sep)` for a non-empty separator: the pieces between the
   * non-overlapping occurrences of `sep`, found left to right. There is
   * always at least one piece, and no piece contains the separator.
   */
  function Split(s: string, sep: string): (r: seq<string>)
    requires sep != []
    ensures |r| >= 1
    decreases |s|
  {
    match IndexOf(s, sep)
    case None => [s]
    case Some(i) => [s[..i]] + Split(s[i + |sep|..], sep)
  }

  /** No piece of a split contains the separator. */
  lemma {:induction false} SplitPiecesLackSeparator(s: string, sep: string)
    requires sep != []
    ensures forall k | 0 <= k < |Split(s, sep)| :: !Contains(Split(s, sep)[k], sep)
    decreases |s|
  {
    match IndexOf(s, sep)
    case None =>
    case Some(i) =>
      PrefixBeforeFirstLacks(s, sep, i);
      SplitPiecesLackSeparator(s[i + |sep|..], sep);
  }

  /** The text before the first occurrence of a pattern does not contain it. */
  lemma PrefixBeforeFirstLacks(s: string, pat: string, i: nat)
    requires pat != [] && i <= |s| && forall j: nat | j < i :: !OccursAt(s, pat, j)
    ensures !Contains(s[..i], pat)
  {
    forall j: nat | j <= i ensures !OccursAt(s[..i], pat, j) {
      if j + |pat| <= i {
        assert j < i && !OccursAt(s, pat, j);
        assert s[..i][j..j + |pat|] == s[j..j + |pat|];
      }
    }
  }

  /** `pieces.join(sep)`: the inverse of Split. */
  function Join(pieces: seq<string>, sep: string): string
    requires |pieces| >= 1
  {
    if |pieces| == 1 then pieces[0] else pieces[0] + sep + Join(pieces[1..], sep)
  }

  /** Joining the pieces of a split with its separator gives back the text. */
  lemma {:induction false} SplitJoin(s: string, sep: string)
    requires sep != []
    ensures Join(Split(s, sep), sep) == s
    decreases |s|
  {
    match IndexOf(s, sep)
    case None =>
    case Some(i) =>
      var rest := s[i + |sep|..];
      SplitJoin(rest, sep);
      JoinCons(s[..i], Split(rest, sep), sep);
      SplitAround(s, sep, i);
  }

  /** Joining a piece in front of other pieces puts the separator between. */
  lemma JoinCons(piece: string, pieces: seq<string>, sep: string)
    requires |pieces| >= 1
    ensures Join([piece] + pieces, sep) == piece + sep + Join(pieces, sep)
  {
    assert ([piece] + pieces)[1..] == pieces;
  }

  /** A string is the text before an occurrence, the occurrence, and the text after. */
  lemma SplitAround(s: string, pat: string, i: nat)
    requires OccursAt(s, pat, i)
    ensures s == s[..i] + pat + s[i + |pat|..]
  {
    assert s == s[..i] + s[i..i + |pat|] + s[i + |pat|..];
  }

  /**
   * The number of non-overlapping occurrences of `sep` in `s`, counted by a
   * left-to-right scan that jumps over each occurrence it finds.
   */
  function Count(s: string, sep: string): nat
    requires sep != []
    decreases |s|
  {
    if |s| < |sep| then 0
    else if s[..|sep|] == sep then 1 + Count(s[|sep|..], sep)
    else Count(s[1..], sep)
  }

  /** Skipping a prefix that holds no occurrence start leaves the count alone. */
  lemma {:induction false} CountSkip(s: string, sep: string, k: nat)
    requires sep != [] && k <= |s|
    requires forall j: nat | j < k :: !OccursAt(s, sep, j)
    ensures Count(s, sep) == Count(s[k..], sep)
    decreases k
  {
    if k > 0 {
      assert !OccursAt(s, sep, 0);
      if |s| < |sep| {
        assert Count(s, sep) == 0;
        assert Count(s[k..], sep) == 0;
      } else {
        assert s[..|sep|] != sep;
        forall j: nat | j < k - 1 ensures !OccursAt(s[1..], sep, j) {
          assert !OccursAt(s, sep, j + 1);
          if j + |sep| <= |s| - 1 { assert s[1..][j..j + |sep|] == s[j + 1..j + 1 + |sep|]; }
        }
        CountSkip(s[1..], sep, k - 1);
        assert s[1..][k - 1..] == s[k..];
      }
    }
  }

  /** Split yields exactly one more piece than there are separators. */
  lemma {:induction false} SplitCount(s: string, sep: string)
    requires sep != []
    ensures |Split(s, sep)| == Count(s, sep) + 1
    decreases |s|
  {
    match IndexOf(s, sep)
    case None =>
      CountSkip(s, sep, |s|);
      assert s[|s|..] == [];
    case Some(i) =>
      var rest := s[i + |sep|..];
      CountSkip(s, sep, i);
      CountAtOccurrence(s, sep, i);
      SplitCount(rest, sep);
  }

  /** An occurrence at the start of what is left is counted, then jumped over. */
  lemma CountAtOccurrence(s: string, sep: string, i: nat)
    requires sep != [] && OccursAt(s, sep, i)
    ensures Count(s[i..], sep) == 1 + Count(s[i + |sep|..], sep)
  {
    var t := s[i..];
    assert t[..|sep|] == s[i..i + |sep|];
    assert t[|sep|..] == s[i + |sep|..];
  }

  /** Where the first separator is at `i`, the first piece ends at `i`. */
  lemma SplitFirstAt(s: string, sep: string, i: nat)
    requires sep != [] && OccursAt(s, sep, i) && forall j: nat | j < i :: !OccursAt(s, sep, j)
    ensures Split(s, sep) == [s[..i]] + Split(s[i + |sep|..], sep)
  {
    IndexOfAt(s, sep, i);
    var rest := s[i + |sep|..];
    assert IndexOf(s, sep).value == i;
    assert Split(s, sep) == [s[..i]] + Split(rest, sep);
  }

  /** A string without the separator splits into itself alone. */
  lemma SplitWithoutSeparator(s: string, sep: string)
    requires sep != [] && !Contains(s, sep)
    ensures Split(s, sep) == [s]
  {
  }

  /** A string without whitespace-free content splits into blank pieces only. */
  lemma {:induction false} SplitBlank(s: string, sep: string)
    requires sep != [] && IsBlank(s)
    ensures forall k | 0 <= k < |Split(s, sep)| :: IsBlank(Split(s, sep)[k])
    decreases |s|
  {
    match IndexOf(s, sep)
    case None =>
    case Some(i) =>
      var rest := s[i + |sep|..];
      var pieces := Split(s, sep);
      BlankSlices(s, i, i + |sep|);
      SplitBlank(rest, sep);
      assert pieces == [s[..i]] + Split(rest, sep);
      forall k | 0 <= k < |pieces| ensures IsBlank(pieces[k]) {
        if k > 0 {
          assert pieces[k] == Split(rest, sep)[k - 1];
        }
      }
  }

  /** The text before and the text after any point of a blank string are blank. */
  lemma BlankSlices(s: string, i: nat, k: nat)
    requires IsBlank(s) && i <= k <= |s|
    ensures IsBlank(s[..i]) && IsBlank(s[k..])
  {
    forall j | 0 <= j < i ensures IsWhitespace(s[..i][j]) { assert s[..i][j] == s[j]; }
    forall j | 0 <= j < |s| - k ensures IsWhitespace(s[k..][j]) { assert s[k..][j] == s[k + j]; }
  }

  /** A string without `pat` splits into pieces without `pat`. */
  lemma {:induction false} SplitLacks(s: string, sep: string, pat: string)
    requires sep != [] && !Contains(s, pat)
    ensures forall k | 0 <= k < |Split(s, sep)| :: !Contains(Split(s, sep)[k], pat)
    decreases |s|
  {
    match IndexOf(s, sep)
    case None =>
    case Some(i) =>
      SliceLacks(s, pat, 0, i);
      assert s[..i] == s[0..i];
      SliceLacks(s, pat, i + |sep|, |s|);
      assert s[i + |sep|..] == s[i + |sep|..|s|];
      SplitLacks(s[i + |sep|..], sep, pat);
  }
}
