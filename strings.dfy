/**
 * The part of Python's `str` the archiver relies on: substring search (`in`
 * and `index`, both through a `find` from a given position), `replace`,
 * `rstrip`, `lower` and the character classes `isalpha`, `isdigit` and
 * `isspace`. Character classes and case mapping are the ASCII ones.
 */
module Strings {
  import opened Optional

  // ---------------------------------------------------------------------------
  // Character classes (ASCII)
  // ---------------------------------------------------------------------------

  predicate IsUpper(c: char) { 'A' <= c <= 'Z' }

  predicate IsLower(c: char) { 'a' <= c <= 'z' }

  /** `str.isalpha` on one ASCII character. */
  predicate IsAlpha(c: char) { IsUpper(c) || IsLower(c) }

  /** `str.isdigit` on one ASCII character. */
  predicate IsDigit(c: char) { '0' <= c <= '9' }

  /** `str.isspace` on one ASCII character: space, tab, line feed, vertical tab,
      form feed, carriage return and the separators 0x1C to 0x1F. */
  predicate IsSpace(c: char) { c == ' ' || 9 <= c as int <= 13 || 28 <= c as int <= 31 }

  function LowerChar(c: char): char
  {
    if IsUpper(c) then (c as int + 32) as char else c
  }

  /** `str.lower`. */
  function Lower(s: string): string
  {
    seq(|s|, i requires 0 <= i < |s| => LowerChar(s[i]))
  }

  // ---------------------------------------------------------------------------
  // Substring search
  // ---------------------------------------------------------------------------

  /** `pat` occurs in `s` starting at index `i`. */
  predicate OccursAt(s: string, pat: string, i: int)
  {
    0 <= i && i + |pat| <= |s| && s[i..i + |pat|] == pat
  }

  /** `s.find(pat, from)`: the least index at or after `from` where `pat` occurs. */
  function FindFrom(s: string, pat: string, from: nat): (r: Option<nat>)
    ensures r.Some? ==> from <= r.value && OccursAt(s, pat, r.value)
    ensures r.Some? ==> forall j :: from <= j < r.value ==> !OccursAt(s, pat, j)
    ensures r.None? ==> forall j :: from <= j ==> !OccursAt(s, pat, j)
    decreases |s| - from
  {
    if from + |pat| > |s| then None
    else if OccursAt(s, pat, from) then Some(from)
    else FindFrom(s, pat, from + 1)
  }

  /** `s.find(pat)`, with `None` where Python returns -1 (and `str.index` raises). */
  function IndexOf(s: string, pat: string): (r: Option<nat>)
    ensures r.Some? ==> OccursAt(s, pat, r.value)
    ensures r.Some? ==> forall j :: 0 <= j < r.value ==> !OccursAt(s, pat, j)
    ensures r.None? ==> forall j :: !OccursAt(s, pat, j)
  {
    FindFrom(s, pat, 0)
  }

  /** `pat in s`. */
  predicate Contains(s: string, pat: string)
  {
    IndexOf(s, pat).Some?
  }

  /** An occurrence with none before it is the one `find` reports. */
  lemma IndexOfIsLeast(s: string, pat: string, k: nat)
    requires OccursAt(s, pat, k)
    requires forall j :: 0 <= j < k ==> !OccursAt(s, pat, j)
    ensures IndexOf(s, pat) == Some(k)
  {
  }

  // ---------------------------------------------------------------------------
  // Replacement
  // ---------------------------------------------------------------------------

  /** `s[k:].replace(pat, rep)` for a non-empty `pat`: scanning from index `k`
      to the right, each occurrence that does not overlap an earlier replaced
      one is replaced. */
  function ReplaceFrom(s: string, pat: string, rep: string, k: nat): string
    requires |pat| > 0 && k <= |s|
    decreases |s| - k
  {
    if k + |pat| > |s| then s[k..]
    else if OccursAt(s, pat, k) then rep + ReplaceFrom(s, pat, rep, k + |pat|)
    else [s[k]] + ReplaceFrom(s, pat, rep, k + 1)
  }

  /** `s.replace(pat, rep)` for a non-empty `pat`. */
  function Replace(s: string, pat: string, rep: string): string
    requires |pat| > 0
  {
    ReplaceFrom(s, pat, rep, 0)
  }

  /** Where `find` reports no occurrence from `k` on, the rest of the string is
      copied unchanged. */
  lemma {:induction false} ReplaceFromWithoutMatch(s: string, pat: string, rep: string, k: nat)
    requires |pat| > 0 && k <= |s| && FindFrom(s, pat, k).None?
    ensures ReplaceFrom(s, pat, rep, k) == s[k..]
    decreases |s| - k
  {
    if k + |pat| <= |s| {
      assert !OccursAt(s, pat, k);
      ReplaceFromWithoutMatch(s, pat, rep, k + 1);
      assert s[k..] == [s[k]] + s[k + 1..];
    }
  }

  /** Where `find` from `k` reports an occurrence at `i`, the text before it is
      copied, the occurrence becomes `rep`, and the scan resumes right after it:
      with ReplaceFromWithoutMatch this is the whole meaning of `replace`. */
  lemma {:induction false} ReplaceFromAtMatch(s: string, pat: string, rep: string, k: nat, i: nat)
    requires |pat| > 0 && k <= |s| && FindFrom(s, pat, k) == Some(i)
    ensures i + |pat| <= |s|
    ensures ReplaceFrom(s, pat, rep, k) == s[k..i] + rep + ReplaceFrom(s, pat, rep, i + |pat|)
    decreases i - k
  {
    if i == k {
      assert s[k..i] + rep == rep;
    } else {
      assert !OccursAt(s, pat, k);
      assert FindFrom(s, pat, k + 1) == Some(i);
      ReplaceFromAtMatch(s, pat, rep, k + 1, i);
      SliceCons(s, k, i, rep, ReplaceFrom(s, pat, rep, i + |pat|));
    }
  }

  /** Prepending `s[k]` to a slice starting at `k + 1`, followed by two more
      parts, extends the slice one place to the left. */
  lemma SliceCons(s: string, k: nat, i: nat, b: string, c: string)
    requires k < i <= |s|
    ensures [s[k]] + (s[k + 1..i] + b + c) == s[k..i] + b + c
  {
    assert s[k..i] == [s[k]] + s[k + 1..i];
  }

  // ---------------------------------------------------------------------------
  // Stripping
  // ---------------------------------------------------------------------------

  /** `s.rstrip(...)`: the longest prefix of `s` after which every character
      is one that `drop` accepts. */
  function RStrip(s: string, drop: char -> bool): (r: string)
    ensures r <= s
    ensures |r| > 0 ==> !drop(r[|r| - 1])
    ensures forall i :: |r| <= i < |s| ==> drop(s[i])
    decreases |s|
  {
    if |s| > 0 && drop(s[|s| - 1]) then RStrip(s[..|s| - 1], drop) else s
  }

  // ---------------------------------------------------------------------------
  // Subsequences
  // ---------------------------------------------------------------------------

  /** `a` can be obtained from `b` by deleting characters. */
  ghost predicate IsSubsequence(a: string, b: string)
    decreases |b|
  {
    if |a| == 0 then true
    else if |b| == 0 then false
    else (a[0] == b[0] && IsSubsequence(a[1..], b[1..])) || IsSubsequence(a, b[1..])
  }

  lemma {:induction false} PrefixIsSubsequence(a: string, t: string, b: string)
    requires a <= t && IsSubsequence(t, b)
    ensures IsSubsequence(a, b)
    decreases |b|
  {
    if |a| > 0 {
      if t[0] == b[0] && IsSubsequence(t[1..], b[1..]) {
        PrefixIsSubsequence(a[1..], t[1..], b[1..]);
      } else {
        PrefixIsSubsequence(a, t, b[1..]);
      }
    }
  }

  lemma {:induction false} LowerIsSubsequence(a: string, b: string)
    requires IsSubsequence(a, b)
    ensures IsSubsequence(Lower(a), Lower(b))
    decreases |b|
  {
    if |a| > 0 {
      assert Lower(b)[1..] == Lower(b[1..]);
      if a[0] == b[0] && IsSubsequence(a[1..], b[1..]) {
        LowerIsSubsequence(a[1..], b[1..]);
        assert Lower(a)[1..] == Lower(a[1..]);
      } else {
        LowerIsSubsequence(a, b[1..]);
      }
    }
  }
}
