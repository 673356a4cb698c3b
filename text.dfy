/**
 * The string operations the Python code applies: substring search, the
 * first and last position of a character, `str.replace` with a one-character
 * pattern, slicing with `s[:n]`, and the ordering SQLite's default (binary)
 * collation puts on text, which for Unicode scalar values is lexicographic
 * order by code point.
 */
module Text {

  import opened Options

  /** `pat` occurs in `text` starting at index `i`. */
  predicate OccursAt(text: string, pat: string, i: nat)
  {
    i + |pat| <= |text| && text[i..i + |pat|] == pat
  }

  /** Python's `pat in text`. */
  function Contains(text: string, pat: string): (r: bool)
    ensures r <==> exists i: nat :: OccursAt(text, pat, i)
    decreases |text|
  {
    if |text| < |pat| then
      assert forall i: nat :: !OccursAt(text, pat, i);
      false
    else if text[..|pat|] == pat then
      assert OccursAt(text, pat, 0);
      true
    else
      var rest := Contains(text[1..], pat);
      assert rest ==> exists i: nat :: OccursAt(text, pat, i) by {
        if rest {
          var j: nat :| OccursAt(text[1..], pat, j);
          assert text[1..][j..j + |pat|] == text[j + 1..j + 1 + |pat|];
          assert OccursAt(text, pat, j + 1);
        }
      }
      assert (exists i: nat :: OccursAt(text, pat, i)) ==> rest by {
        if exists i: nat :: OccursAt(text, pat, i) {
          var i: nat :| OccursAt(text, pat, i);
          assert i != 0;
          assert text[1..][i - 1..i - 1 + |pat|] == text[i..i + |pat|];
          assert OccursAt(text[1..], pat, i - 1);
        }
      }
      rest
  }

  /** `pat` occurs inside `a + pat + b`: the witness is the end of `a`. */
  lemma {:induction false} ContainsInfix(a: string, pat: string, b: string)
    ensures Contains(a + pat + b, pat)
  {
    assert (a + pat + b)[|a|..|a| + |pat|] == pat;
    assert OccursAt(a + pat + b, pat, |a|);
  }

  /** The index of the first `c` in `s` (the position where `str.find` stops). */
  function FirstIndex(s: string, c: char): (r: Option<nat>)
    ensures r.None? <==> c !in s
    ensures r.Some? ==> r.value < |s| && s[r.value] == c && c !in s[..r.value]
  {
    if |s| == 0 then None
    else if s[0] == c then Some(0)
    else
      match FirstIndex(s[1..], c)
      case None => None
      case Some(i) =>
        assert s[..i + 1] == [s[0]] + s[1..][..i];
        Some(i + 1)
  }

  /** The first `c` is at `i` exactly when `s[i]` is `c` and no `c` comes before it. */
  lemma FirstIndexAt(s: string, c: char, i: nat)
    requires i < |s| && s[i] == c && c !in s[..i]
    ensures FirstIndex(s, c) == Some(i)
  {
    assert s[i] in s;
    var r := FirstIndex(s, c);
    assert forall j :: 0 <= j < i ==> s[..i][j] == s[j];
    assert forall j :: 0 <= j < r.value ==> s[..r.value][j] == s[j];
  }

  /** The index of the last `c` in `s` (the position where `str.rfind` stops). */
  function LastIndex(s: string, c: char): (r: Option<nat>)
    ensures r.None? <==> c !in s
    ensures r.Some? ==> r.value < |s| && s[r.value] == c && c !in s[r.value + 1..]
  {
    if |s| == 0 then None
    else if s[|s| - 1] == c then Some(|s| - 1)
    else
      match LastIndex(s[..|s| - 1], c)
      case None => None
      case Some(i) =>
        assert s[i + 1..] == s[..|s| - 1][i + 1..] + [s[|s| - 1]];
        Some(i)
  }

  /** The last `c` is at `i` exactly when `s[i]` is `c` and no `c` comes after it. */
  lemma LastIndexAt(s: string, c: char, i: nat)
    requires i < |s| && s[i] == c && c !in s[i + 1..]
    ensures LastIndex(s, c) == Some(i)
  {
    assert s[i] in s;
    var r := LastIndex(s, c);
    assert forall j :: i < j < |s| ==> s[i + 1..][j - i - 1] == s[j];
    assert forall j :: r.value < j < |s| ==> s[r.value + 1..][j - r.value - 1] == s[j];
  }

  /** No `c` comes before the first one: any `c` at `k` bounds the first index. */
  lemma FirstIndexLeast(s: string, c: char, k: nat)
    requires k < |s| && s[k] == c
    ensures FirstIndex(s, c).Some? && FirstIndex(s, c).value <= k
  {
    assert s[k] in s;
    var r := FirstIndex(s, c);
    assert forall j :: 0 <= j < r.value ==> s[..r.value][j] == s[j];
  }

  /** No `c` comes after the last one: any `c` at `k` bounds the last index. */
  lemma LastIndexGreatest(s: string, c: char, k: nat)
    requires k < |s| && s[k] == c
    ensures LastIndex(s, c).Some? && LastIndex(s, c).value >= k
  {
    assert s[k] in s;
    var r := LastIndex(s, c);
    assert forall j :: r.value < j < |s| ==> s[r.value + 1..][j - r.value - 1] == s[j];
  }

  /** `s.replace(c, '')`: every `c` dropped, everything else kept in order. */
  function RemoveChar(s: string, c: char): (r: string)
    ensures c !in r
    ensures c !in s ==> r == s
    decreases |s|
  {
    if s == [] then []
    else
      var init, last := s[..|s| - 1], s[|s| - 1];
      assert s == init + [last];
      RemoveChar(init, c) + (if last == c then [] else [last])
  }

  /** Removing from a string with a known last character. */
  lemma RemoveCharSnoc(s: string, x: char, c: char)
    ensures RemoveChar(s + [x], c) == RemoveChar(s, c) + (if x == c then [] else [x])
  {
    assert (s + [x])[..|s|] == s;
  }

  /** Exactly the other characters of `s` remain. */
  lemma {:induction false} RemoveCharMembers(s: string, c: char)
    ensures forall x :: x in RemoveChar(s, c) <==> x in s && x != c
    decreases |s|
  {
    if s != [] {
      var init := s[..|s| - 1];
      RemoveCharMembers(init, c);
      assert s == init + [s[|s| - 1]];
    }
  }

  /** Every other character keeps its number of occurrences. */
  lemma {:induction false} RemoveCharCounts(s: string, c: char)
    ensures multiset(RemoveChar(s, c)) == multiset(s)[c := 0]
    decreases |s|
  {
    if s != [] {
      var init := s[..|s| - 1];
      assert s == init + [s[|s| - 1]];
      RemoveCharCounts(init, c);
    }
  }

  /** `s.replace(c, [d])`: every `c` becomes `d` and nothing else changes. */
  function ReplaceChar(s: string, c: char, d: char): (r: string)
    ensures |r| == |s|
    ensures forall i :: 0 <= i < |s| ==> r[i] == if s[i] == c then d else s[i]
  {
    if s == [] then []
    else [if s[0] == c then d else s[0]] + ReplaceChar(s[1..], c, d)
  }

  /** `text[:n]`: the text itself when it is short enough, otherwise its first `n` characters. */
  function Truncate(text: string, n: nat): (r: string)
    ensures |r| <= n && |r| <= |text|
    ensures |r| == n || r == text
    ensures r == text[..|r|]
  {
    if |text| <= n then text else text[..n]
  }

  /** Strict lexicographic order by code point (SQLite's BINARY collation). */
  predicate StrLt(a: string, b: string)
    decreases |a|
  {
    |b| > 0 && (|a| == 0 || a[0] < b[0] || (a[0] == b[0] && StrLt(a[1..], b[1..])))
  }

  lemma {:induction false} StrLtIrreflexive(a: string)
    ensures !StrLt(a, a)
  {
    if |a| > 0 {
      StrLtIrreflexive(a[1..]);
    }
  }

  lemma {:induction false} StrLtTransitive(a: string, b: string, c: string)
    ensures StrLt(a, b) && StrLt(b, c) ==> StrLt(a, c)
  {
    if |a| > 0 && |b| > 0 && |c| > 0 && a[0] == b[0] && b[0] == c[0] {
      StrLtTransitive(a[1..], b[1..], c[1..]);
    }
  }

  /** Any two different strings are ordered one way or the other. */
  lemma {:induction false} StrLtTotal(a: string, b: string)
    requires a != b
    ensures StrLt(a, b) || StrLt(b, a)
  {
    if |a| > 0 && |b| > 0 && a[0] == b[0] {
      assert a == [a[0]] + a[1..] && b == [b[0]] + b[1..];
      StrLtTotal(a[1..], b[1..]);
    }
  }

  /** Non-strict order: `a` sorts no later than `b`. */
  predicate StrLe(a: string, b: string)
  {
    !StrLt(b, a)
  }

  lemma StrLeTransitive(a: string, b: string, c: string)
    requires StrLe(a, b) && StrLe(b, c)
    ensures StrLe(a, c)
  {
    if a != b {
      StrLtTotal(a, b);
      StrLtTransitive(c, a, b);
    }
  }

}
