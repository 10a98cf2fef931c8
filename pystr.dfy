/**
 * The Python `str` operations the chat application relies on, with CPython's
 * semantics: `str.find`, slicing with one step, `str.strip()` with no argument
 * and `"\n".join`. `SplitNl`, a split at newlines, is not used by the
 * application; it is the inverse that states what the join keeps.
 */
module PyStr {

  /** `t` occurs in `s` starting at index `i`. */
  predicate OccursAt(s: string, t: string, i: int) {
    0 <= i && i + |t| <= |s| && s[i..i + |t|] == t
  }

  /** `r` is a contiguous piece of `s`. */
  ghost predicate IsInfix(r: string, s: string) {
    exists lo, hi :: 0 <= lo <= hi <= |s| && s[lo..hi] == r
  }

  lemma InfixOfSlice(s: string, lo: int, hi: int)
    requires 0 <= lo <= hi <= |s|
    ensures IsInfix(s[lo..hi], s)
  {
  }

  lemma InfixTransitive(r: string, m: string, s: string)
    requires IsInfix(r, m) && IsInfix(m, s)
    ensures IsInfix(r, s)
  {
    var lo, hi :| 0 <= lo <= hi <= |m| && m[lo..hi] == r;
    var lo', hi' :| 0 <= lo' <= hi' <= |s| && s[lo'..hi'] == m;
    SliceOfSlice(s, lo', hi', lo, hi);
  }

  lemma SliceOfSlice(s: string, a: int, b: int, c: int, d: int)
    requires 0 <= a <= b <= |s| && 0 <= c <= d <= b - a
    ensures s[a..b][c..d] == s[a + c..a + d]
  {
    forall m | 0 <= m < d - c ensures s[a..b][c..d][m] == s[a + c..a + d][m] {
    }
  }

  /**
   * `s.find(t)`: the least index at which `t` occurs in `s`, or -1 when it
   * does not occur anywhere.
   */
  function Find(s: string, t: string): (r: int)
    ensures -1 <= r <= |s|
    ensures r >= 0 ==> OccursAt(s, t, r)
    ensures forall k :: 0 <= k < r ==> !OccursAt(s, t, k)
    ensures r == -1 <==> forall k :: !OccursAt(s, t, k)
    decreases |s|
  {
    if |s| < |t| then -1
    else if s[..|t|] == t then
      assert OccursAt(s, t, 0);
      0
    else
      var r' := Find(s[1..], t);
      ShiftOccurrence(s, t);
      if r' < 0 then -1 else r' + 1
  }

  /** An occurrence in `s[1..]` is an occurrence in `s` one place later, and back. */
  lemma ShiftOccurrence(s: string, t: string)
    requires s != []
    ensures forall k :: OccursAt(s[1..], t, k) ==> OccursAt(s, t, k + 1)
    ensures forall k :: 1 <= k && OccursAt(s, t, k) ==> OccursAt(s[1..], t, k - 1)
  {
    forall k | OccursAt(s[1..], t, k) ensures OccursAt(s, t, k + 1) {
      SliceOfSlice(s, 1, |s|, k, k + |t|);
    }
    forall k | 1 <= k && OccursAt(s, t, k) ensures OccursAt(s[1..], t, k - 1) {
      SliceOfSlice(s, 1, |s|, k - 1, k - 1 + |t|);
    }
  }

  /** A needle whose first character does not occur in `s` is not found. */
  lemma FindMissingHead(s: string, t: string)
    requires t != [] && t[0] !in s
    ensures Find(s, t) == -1
  {
    assert forall k :: OccursAt(s, t, k) ==> s[k..k + |t|][0] == t[0];
  }

  /** An occurrence preceded by no occurrence of the needle's first character is what `find` returns. */
  lemma FindFirst(s: string, t: string, i: int)
    requires t != [] && OccursAt(s, t, i) && t[0] !in s[..i]
    ensures Find(s, t) == i
  {
    var r := Find(s, t);
    CharAt(s, t, r, 0);
  }

  /** The pieces of a concatenation are slices of it. */
  lemma ConcatPieces(a: string, m: string, b: string)
    ensures (a + m + b)[..|a|] == a
    ensures (a + m + b)[|a|..|a| + |m|] == m
    ensures (a + m + b)[|a|..] == m + b
    ensures (a + m + b)[|a| + |m|..] == b
  {
    assert (a + m + b)[|a|..] == m + b;
    assert (m + b)[..|m|] == m;
  }

  /** When `s` does not start with `t`, `find` continues one character later. */
  lemma FindStep(s: string, t: string)
    requires s != [] && (|s| < |t| || s[..|t|] != t)
    ensures Find(s, t) == if Find(s[1..], t) < 0 then -1 else Find(s[1..], t) + 1
  {
  }

  /** A prefix that does not contain the needle's first character only shifts what `find` returns. */
  lemma {:induction false} FindAfterPrefix(a: string, m: string, t: string)
    requires t != [] && t[0] !in a
    ensures Find(a + m, t) == if Find(m, t) < 0 then -1 else |a| + Find(m, t)
  {
    if a == [] {
      assert a + m == m;
    } else {
      assert (a + m)[1..] == a[1..] + m;
      assert (a + m)[0] == a[0];
      FindAfterPrefix(a[1..], m, t);
    }
  }

  /** A found needle fits inside the haystack. */
  lemma FindFits(s: string, t: string)
    requires Find(s, t) >= 0
    ensures Find(s, t) + |t| <= |s|
  {
  }

  /** Where `t` occurs at `i`, the character at `i + k` is `t[k]`. */
  lemma CharAt(s: string, t: string, i: int, k: int)
    requires OccursAt(s, t, i) && 0 <= k < |t|
    ensures s[i + k] == t[k]
  {
    assert s[i..i + |t|][k] == s[i + k];
  }

  /** Where `t` occurs at `i` and `c` is not among `t`'s characters after the first, `c` is not found strictly inside that occurrence. */
  lemma NotInsideOccurrence(s: string, t: string, i: int, c: char, k: int)
    requires t != [] && OccursAt(s, t, i) && c !in t[1..]
    ensures i < k < i + |t| ==> s[k] != c
  {
    if i < k < i + |t| {
      CharAt(s, t, i, k - i);
      assert t[k - i] == t[1..][k - i - 1];
    }
  }

  /**
   * How CPython adjusts one slice bound for a sequence of length `n`: a
   * negative bound has `n` added to it, then the bound is clamped to [0, n].
   */
  function SliceBound(i: int, n: int): (r: int)
    requires 0 <= n
    ensures 0 <= r <= n
    ensures 0 <= i <= n ==> r == i
    ensures -n <= i < 0 ==> r == n + i
    ensures i < -n ==> r == 0
    ensures n < i ==> r == n
  {
    if i < 0 then (if n + i < 0 then 0 else n + i)
    else if n < i then n
    else i
  }

  /** `s[start:stop]`: never raises; empty when the adjusted start is not below the adjusted stop. */
  function Slice(s: string, start: int, stop: int): (r: string)
    ensures |r| <= |s|
    ensures IsInfix(r, s)
  {
    var lo, hi := SliceBound(start, |s|), SliceBound(stop, |s|);
    if lo < hi then s[lo..hi] else assert s[0..0] == []; []
  }

  /** Whatever the bounds, a slice is a contiguous piece of `s` of length `hi - lo` (or 0), starting at the adjusted start. */
  lemma SliceSpec(s: string, start: int, stop: int)
    ensures var r, lo, hi := Slice(s, start, stop), SliceBound(start, |s|), SliceBound(stop, |s|);
      && |r| == (if lo < hi then hi - lo else 0)
      && (forall k :: 0 <= k < |r| ==> r[k] == s[lo + k])
      && IsInfix(r, s)
  {
    assert s[0..0] == [];
  }

  /** A Python slice is the plain subsequence between its adjusted bounds, or empty when they cross. */
  lemma SliceAdjusted(s: string, start: int, stop: int)
    ensures var lo, hi := SliceBound(start, |s|), SliceBound(stop, |s|);
      Slice(s, start, stop) == if lo < hi then s[lo..hi] else ""
  {
  }

  /** `s[start:]` within the bounds is the plain suffix. */
  lemma SliceFrom(s: string, start: int)
    requires 0 <= start <= |s|
    ensures Slice(s, start, |s|) == s[start..]
  {
  }

  /** A slice whose adjusted start is not below its adjusted stop is empty. */
  lemma SliceEmpty(s: string, start: int, stop: int)
    requires SliceBound(stop, |s|) <= SliceBound(start, |s|)
    ensures Slice(s, start, stop) == ""
  {
  }

  /** Stripping a piece of `s` gives a piece of `s`. */
  lemma StripInfix(s: string, m: string)
    requires IsInfix(m, s)
    ensures IsInfix(Strip(m), s)
  {
    InfixTransitive(Strip(m), m, s);
  }

  /** `str.isspace()` for one character: the characters CPython strips by default. */
  predicate IsSpace(c: char) {
    || c == ' ' || c == '\t' || c == '\n' || c == '\r'
    || c == '\U{0B}' || c == '\U{0C}'
    || c == '\U{1C}' || c == '\U{1D}' || c == '\U{1E}' || c == '\U{1F}'
    || c == '\U{85}' || c == '\U{A0}' || c == '\U{1680}'
    || ('\U{2000}' <= c <= '\U{200A}')
    || c == '\U{2028}' || c == '\U{2029}' || c == '\U{202F}' || c == '\U{205F}' || c == '\U{3000}'
  }

  /** Every character of `s` from index `lo` up to (not including) `hi` is whitespace. */
  predicate SpaceBetween(s: string, lo: int, hi: int)
    requires 0 <= lo <= hi <= |s|
  {
    forall k :: lo <= k < hi ==> IsSpace(s[k])
  }

  /** Neither end of `s` is whitespace. */
  predicate Trimmed(s: string) {
    s == [] || (!IsSpace(s[0]) && !IsSpace(s[|s| - 1]))
  }

  /** `r` is `s` with a whitespace-only prefix and a whitespace-only suffix removed, and neither end of `r` is whitespace. */
  ghost predicate StripsTo(s: string, r: string) {
    && Trimmed(r)
    && exists lo, hi :: 0 <= lo <= hi <= |s| && s[lo..hi] == r && SpaceBetween(s, 0, lo) && SpaceBetween(s, hi, |s|)
  }

  /** Number of whitespace characters at the start of `s`. */
  function LeadingSpace(s: string): (n: nat)
    ensures n <= |s|
    ensures SpaceBetween(s, 0, n)
    ensures n < |s| ==> !IsSpace(s[n])
  {
    if s != [] && IsSpace(s[0]) then
      var n' := LeadingSpace(s[1..]);
      assert forall k :: 1 <= k < n' + 1 ==> s[k] == s[1..][k - 1];
      n' + 1
    else 0
  }

  /** Number of whitespace characters at the end of `s`. */
  function TrailingSpace(s: string): (n: nat)
    ensures n <= |s|
    ensures SpaceBetween(s, |s| - n, |s|)
    ensures n < |s| ==> !IsSpace(s[|s| - 1 - n])
  {
    if s != [] && IsSpace(s[|s| - 1]) then
      var init := s[..|s| - 1];
      var n' := TrailingSpace(init);
      assert forall k :: |s| - (n' + 1) <= k < |s| - 1 ==> s[k] == init[k];
      n' + 1
    else 0
  }

  /** `s.strip()`. */
  function Strip(s: string): (r: string)
    ensures StripsTo(s, r)
    ensures IsInfix(r, s)
  {
    var lo := LeadingSpace(s);
    if lo == |s| then
      assert s[0..0] == [];
      []
    else
      var hi := |s| - TrailingSpace(s);
      assert s[lo..hi][0] == s[lo] && s[lo..hi][hi - lo - 1] == s[hi - 1];
      s[lo..hi]
  }

  /** Stripping is cutting off whitespace that ends at the first and starts after the last non-whitespace character. */
  lemma StripExact(s: string, lo: int, hi: int)
    requires 0 <= lo <= hi <= |s| && SpaceBetween(s, 0, lo) && SpaceBetween(s, hi, |s|) && Trimmed(s[lo..hi])
    ensures Strip(s) == s[lo..hi]
  {
    assert StripsTo(s, s[lo..hi]);
    StripsToUnique(s, Strip(s), s[lo..hi]);
  }

  /** At most one string is `s` stripped: `StripsTo` is a reference definition of `Strip`. */
  lemma StripsToUnique(s: string, r: string, r': string)
    requires StripsTo(s, r) && StripsTo(s, r')
    ensures r == r'
  {
    var lo, hi :| 0 <= lo <= hi <= |s| && s[lo..hi] == r && SpaceBetween(s, 0, lo) && SpaceBetween(s, hi, |s|);
    var lo', hi' :| 0 <= lo' <= hi' <= |s| && s[lo'..hi'] == r' && SpaceBetween(s, 0, lo') && SpaceBetween(s, hi', |s|);
    StripWitness(s, r, lo, hi);
    StripWitness(s, r', lo', hi');
    if LeadingSpace(s) < |s| {
      assert lo == lo' && hi == hi';
    }
  }

  /** The bounds that witness `StripsTo` are forced: the first and one past the last non-whitespace character. */
  lemma StripWitness(s: string, r: string, lo: int, hi: int)
    requires Trimmed(r)
    requires 0 <= lo <= hi <= |s| && s[lo..hi] == r && SpaceBetween(s, 0, lo) && SpaceBetween(s, hi, |s|)
    ensures r != [] ==> LeadingSpace(s) == lo < hi == |s| - TrailingSpace(s)
    ensures r == [] ==> LeadingSpace(s) == |s|
  {
    if r != [] {
      assert s[lo] == r[0] && s[hi - 1] == r[|r| - 1];
      LeadingWitness(s, lo);
      TrailingWitness(s, hi);
    } else {
      LeadingWitness(s, |s|);
    }
  }

  /** Whitespace up to `lo` followed by a non-whitespace character (or the end) is exactly the leading whitespace. */
  lemma LeadingWitness(s: string, lo: int)
    requires 0 <= lo <= |s| && SpaceBetween(s, 0, lo) && (lo == |s| || !IsSpace(s[lo]))
    ensures LeadingSpace(s) == lo
  {
  }

  /** Whitespace from `hi` on preceded by a non-whitespace character (or the start) is exactly the trailing whitespace. */
  lemma TrailingWitness(s: string, hi: int)
    requires 0 <= hi <= |s| && SpaceBetween(s, hi, |s|) && (hi == 0 || !IsSpace(s[hi - 1]))
    ensures TrailingSpace(s) == |s| - hi
  {
  }

  lemma StripEmpty()
    ensures Strip("") == ""
  {
  }

  /** Stripping twice is stripping once. */
  lemma StripIdempotent(s: string)
    ensures Strip(Strip(s)) == Strip(s)
  {
    var r := Strip(s);
    assert s[..0] == [] && s[|s|..] == [];
    StripOfTrimmed(r);
  }

  /** A string with no whitespace at either end is its own strip. */
  lemma StripOfTrimmed(s: string)
    requires Trimmed(s)
    ensures Strip(s) == s
  {
    assert s[0..|s|] == s && s[..0] == [] && s[|s|..] == [];
    assert StripsTo(s, s);
    StripsToUnique(s, Strip(s), s);
  }

  /** `sep.join(parts)` for the separator `"\n"`. */
  function JoinNl(parts: seq<string>): (r: string)
    ensures |parts| == 0 ==> r == ""
    ensures |parts| == 1 ==> r == parts[0]
    ensures |parts| >= 1 ==> |r| == TotalLength(parts) + |parts| - 1
  {
    if |parts| == 0 then ""
    else if |parts| == 1 then parts[0]
    else parts[0] + "\n" + JoinNl(parts[1..])
  }

  function TotalLength(parts: seq<string>): nat {
    if parts == [] then 0 else |parts[0]| + TotalLength(parts[1..])
  }

  /** Number of occurrences of the character `c` in `s`. */
  function CountChar(s: string, c: char): nat {
    if s == [] then 0 else (if s[0] == c then 1 else 0) + CountChar(s[1..], c)
  }

  lemma {:induction false} CountCharAppend(a: string, b: string, c: char)
    ensures CountChar(a + b, c) == CountChar(a, c) + CountChar(b, c)
  {
    if a != [] {
      assert (a + b)[1..] == a[1..] + b;
      CountCharAppend(a[1..], b, c);
    } else {
      assert a + b == b;
    }
  }

  lemma {:induction false} CountCharAbsent(s: string, c: char)
    requires c !in s
    ensures CountChar(s, c) == 0
  {
    if s != [] { CountCharAbsent(s[1..], c); }
  }

  /** Joining n >= 1 pieces that contain no newline puts exactly n - 1 newlines in the result. */
  lemma {:induction false} JoinNlSeparators(parts: seq<string>)
    requires |parts| >= 1
    requires forall k :: 0 <= k < |parts| ==> '\n' !in parts[k]
    ensures CountChar(JoinNl(parts), '\n') == |parts| - 1
  {
    CountCharAbsent(parts[0], '\n');
    if |parts| > 1 {
      JoinNlSeparators(parts[1..]);
      CountCharAppend(parts[0], "\n", '\n');
      CountCharAppend(parts[0] + "\n", JoinNl(parts[1..]), '\n');
    }
  }

  /** `s.split("\n")`: the pieces between newlines, always at least one. */
  function SplitNl(s: string): (r: seq<string>)
    ensures |r| >= 1
    ensures |r| == CountChar(s, '\n') + 1
  {
    if s == [] then [""]
    else
      var rest := SplitNl(s[1..]);
      if s[0] == '\n' then [""] + rest
      else [[s[0]] + rest[0]] + rest[1..]
  }

  lemma {:induction false} SplitNlPrefix(p: string, tail: string)
    requires '\n' !in p
    ensures SplitNl(p + tail) == [p + SplitNl(tail)[0]] + SplitNl(tail)[1..]
  {
    if p != [] {
      assert (p + tail)[1..] == p[1..] + tail;
      SplitNlPrefix(p[1..], tail);
      assert [p[0]] + (p[1..] + SplitNl(tail)[0]) == p + SplitNl(tail)[0];
    } else {
      assert p + tail == tail;
      assert p + SplitNl(tail)[0] == SplitNl(tail)[0];
    }
  }

  /** Splitting the newline-join of newline-free pieces gives the pieces back. */
  lemma {:induction false} SplitJoinNl(parts: seq<string>)
    requires |parts| >= 1
    requires forall k :: 0 <= k < |parts| ==> '\n' !in parts[k]
    ensures SplitNl(JoinNl(parts)) == parts
  {
    if |parts| == 1 {
      SplitNlPrefix(parts[0], "");
      assert parts[0] + "" == parts[0];
    } else {
      var rest := JoinNl(parts[1..]);
      SplitJoinNl(parts[1..]);
      assert parts[0] + "\n" + rest == parts[0] + ("\n" + rest);
      SplitNlPrefix(parts[0], "\n" + rest);
      assert ("\n" + rest)[1..] == rest;
      assert SplitNl("\n" + rest) == [""] + parts[1..];
      assert parts[0] + "" == parts[0];
    }
  }
}
