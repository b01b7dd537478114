/** The few Python `str` operations the OCR scripts rely on, over `seq<char>`. */
module Strings {

  /** The characters Python's `str.isspace()` accepts, which `str.strip()` removes. */
  predicate IsSpace(c: char) {
    || ('\U{0009}' <= c <= '\U{000D}')
    || ('\U{001C}' <= c <= '\U{001F}')
    || c == ' '
    || c == '\U{0085}'
    || c == '\U{00A0}'
    || c == '\U{1680}'
    || ('\U{2000}' <= c <= '\U{200A}')
    || c == '\U{2028}'
    || c == '\U{2029}'
    || c == '\U{202F}'
    || c == '\U{205F}'
    || c == '\U{3000}'
  }

  /** True iff `s.strip()` is the empty string, i.e. `s` is falsy after stripping. */
  predicate IsBlank(s: string) {
    forall i :: 0 <= i < |s| ==> IsSpace(s[i])
  }

  /** `s.strip()`: whitespace is cut off the front and the back until neither end is
      whitespace. */
  function Strip(s: string): string
    decreases |s|
  {
    if |s| == 0 then s
    else if IsSpace(s[0]) then Strip(s[1..])
    else if IsSpace(s[|s| - 1]) then Strip(s[..|s| - 1])
    else s
  }

  /** `r` is `s[k..k + |r|]` and everything of `s` outside that slice is whitespace. */
  predicate StrippedAt(s: string, r: string, k: int) {
    && 0 <= k <= |s| - |r|
    && r == s[k..k + |r|]
    && IsBlank(s[..k])
    && IsBlank(s[k + |r|..])
  }

  /** `strip` leaves the slice of `s` that remains once the leading and the trailing
      whitespace are cut off; that slice neither starts nor ends with whitespace, and
      it is empty exactly when `s` is all whitespace. */
  lemma StripSpec(s: string)
    ensures exists k :: StrippedAt(s, Strip(s), k)
    ensures Strip(s) != [] ==> !IsSpace(Strip(s)[0]) && !IsSpace(Strip(s)[|Strip(s)| - 1])
    ensures Strip(s) == [] <==> IsBlank(s)
  {
    var k := StripSlice(s);
    StrippedBlank(s, Strip(s), k);
  }

  /** The slice `strip` keeps and where it starts. */
  lemma {:induction false} StripSlice(s: string) returns (k: int)
    ensures StrippedAt(s, Strip(s), k)
    ensures Strip(s) != [] ==> !IsSpace(Strip(s)[0]) && !IsSpace(Strip(s)[|Strip(s)| - 1])
    decreases |s|
  {
    if |s| == 0 {
      k := 0;
    } else if IsSpace(s[0]) {
      var j := StripSlice(s[1..]);
      StrippedAtCons(s, Strip(s), j);
      k := j + 1;
    } else if IsSpace(s[|s| - 1]) {
      k := StripSlice(s[..|s| - 1]);
      StrippedAtSnoc(s, Strip(s), k);
    } else {
      k := 0;
      assert s[..0] == [] && s[|s|..] == [] && s[0..|s|] == s;
    }
  }

  /** A whitespace character in front of a stripped text moves the slice one place on. */
  lemma StrippedAtCons(s: string, r: string, k: int)
    requires |s| > 0 && IsSpace(s[0]) && StrippedAt(s[1..], r, k)
    ensures StrippedAt(s, r, k + 1)
  {
    assert s[1..][k..k + |r|] == s[k + 1..k + 1 + |r|];
    assert s[..k + 1] == [s[0]] + s[1..][..k];
    assert s[k + 1 + |r|..] == s[1..][k + |r|..];
  }

  /** A whitespace character behind a stripped text leaves the slice where it is. */
  lemma StrippedAtSnoc(s: string, r: string, k: int)
    requires |s| > 0 && IsSpace(s[|s| - 1]) && StrippedAt(s[..|s| - 1], r, k)
    ensures StrippedAt(s, r, k)
  {
    var init := s[..|s| - 1];
    assert init[k..k + |r|] == s[k..k + |r|];
    assert init[..k] == s[..k];
    assert s[k + |r|..] == init[k + |r|..] + [s[|s| - 1]];
  }

  /** A stripped slice is empty exactly when the whole text is whitespace, given that
      a non-empty one starts with a character that is not whitespace. */
  lemma StrippedBlank(s: string, r: string, k: int)
    requires StrippedAt(s, r, k)
    requires r != [] ==> !IsSpace(r[0])
    ensures r == [] <==> IsBlank(s)
  {
    if r == [] {
      forall i | 0 <= i < |s| ensures IsSpace(s[i]) {
        if i < k {
          assert s[i] == s[..k][i];
        } else {
          assert s[i] == s[k..][i - k];
        }
      }
    } else {
      assert s[k] == r[0];
    }
  }

  /** Lower-casing of one character, on the ASCII letters. */
  function LowerChar(c: char): char {
    if 'A' <= c <= 'Z' then (c as int + 32) as char else c
  }

  /** `s.lower()`, on the ASCII letters. */
  function Lower(s: string): string {
    seq(|s|, i requires 0 <= i < |s| => LowerChar(s[i]))
  }

  /** `s.endswith(suffix)`. */
  predicate EndsWith(s: string, suffix: string) {
    |suffix| <= |s| && s[|s| - |suffix|..] == suffix
  }

  /** `t` occurs in `s` starting at index `i`. */
  predicate OccursAt(s: string, t: string, i: int) {
    0 <= i && i + |t| <= |s| && s[i..i + |t|] == t
  }

  /** `s.replace(pat, rep)` for a non-empty `pat`: scanning left to right, every
      occurrence of `pat` that does not overlap an earlier replaced one becomes `rep`. */
  function ReplaceAll(s: string, pat: string, rep: string): string
    requires |pat| > 0
    decreases |s|
  {
    if |s| < |pat| then s
    else if s[..|pat|] == pat then rep + ReplaceAll(s[|pat|..], pat, rep)
    else [s[0]] + ReplaceAll(s[1..], pat, rep)
  }

  /** Where `pat` does not occur, `replace` leaves the text as it is. */
  lemma {:induction false} ReplaceAbsent(s: string, pat: string, rep: string)
    requires |pat| > 0
    requires forall i :: !OccursAt(s, pat, i)
    ensures ReplaceAll(s, pat, rep) == s
    decreases |s|
  {
    if |s| >= |pat| {
      assert !OccursAt(s, pat, 0);
      forall i ensures !OccursAt(s[1..], pat, i) {
        assert !OccursAt(s, pat, i + 1);
        if 0 <= i && i + |pat| <= |s| - 1 {
          assert s[1..][i..i + |pat|] == s[i + 1..i + 1 + |pat|];
        }
      }
      ReplaceAbsent(s[1..], pat, rep);
    }
  }

  /** The leftmost occurrence of `pat` is replaced, the text before it is kept as it is,
      and the scan resumes right after that occurrence (so matches never overlap). */
  lemma {:induction false} ReplaceLeftmost(s: string, pat: string, rep: string, k: int)
    requires |pat| > 0
    requires OccursAt(s, pat, k)
    requires forall i :: 0 <= i < k ==> !OccursAt(s, pat, i)
    ensures ReplaceAll(s, pat, rep) == s[..k] + rep + ReplaceAll(s[k + |pat|..], pat, rep)
    decreases k
  {
    if k == 0 {
      ReplaceFront(s, pat, rep);
      assert s[..k] + rep == rep;
    } else {
      var t := s[1..];
      OccursShift(s, pat, k - 1);
      forall i | 0 <= i < k - 1 ensures !OccursAt(t, pat, i) {
        OccursShift(s, pat, i);
      }
      ReplaceLeftmost(t, pat, rep, k - 1);
      ReplaceLeftmostStep(s, pat, rep, k);
    }
  }

  /** The step of `ReplaceLeftmost`: a first character that starts no occurrence is
      put in front of the result for the rest. */
  lemma ReplaceLeftmostStep(s: string, pat: string, rep: string, k: int)
    requires |pat| > 0 && 0 < k && k + |pat| <= |s|
    requires !OccursAt(s, pat, 0)
    requires ReplaceAll(s[1..], pat, rep)
             == s[1..][..k - 1] + rep + ReplaceAll(s[1..][k - 1 + |pat|..], pat, rep)
    ensures ReplaceAll(s, pat, rep) == s[..k] + rep + ReplaceAll(s[k + |pat|..], pat, rep)
  {
    assert s[1..][k - 1 + |pat|..] == s[k + |pat|..];
    ReplaceSkip(s, pat, rep);
    PrefixConcat(s, s[1..][..k - 1], rep, ReplaceAll(s[k + |pat|..], pat, rep));
  }

  /** Regrouping `[s[0]] + (a + b + c)` when `a` follows `s[0]` in `s`. */
  lemma PrefixConcat(s: string, a: string, b: string, c: string)
    requires |s| > |a| && a == s[1..|a| + 1]
    ensures [s[0]] + (a + b + c) == s[..|a| + 1] + b + c
  {
    assert [s[0]] + a == s[..|a| + 1];
  }

  /** An occurrence at the front is replaced and the scan resumes after it. */
  lemma ReplaceFront(s: string, pat: string, rep: string)
    requires |pat| > 0 && OccursAt(s, pat, 0)
    ensures ReplaceAll(s, pat, rep) == rep + ReplaceAll(s[|pat|..], pat, rep)
  {
    assert s[..|pat|] == pat;
  }

  /** Where no occurrence starts at the front, the first character is kept. */
  lemma ReplaceSkip(s: string, pat: string, rep: string)
    requires 0 < |pat| <= |s| && !OccursAt(s, pat, 0)
    ensures ReplaceAll(s, pat, rep) == [s[0]] + ReplaceAll(s[1..], pat, rep)
  {
  }

  /** Dropping the first character moves every occurrence one place to the left. */
  lemma OccursShift(s: string, pat: string, i: nat)
    requires |s| > 0
    ensures OccursAt(s[1..], pat, i) <==> OccursAt(s, pat, i + 1)
  {
    if i + |pat| <= |s| - 1 {
      assert s[1..][i..i + |pat|] == s[i + 1..i + 1 + |pat|];
    }
  }

  /** `s.rfind(c)` for a single character: the last index holding `c`, or -1. */
  function RFind(s: string, c: char): (r: int)
    ensures -1 <= r < |s|
    ensures r >= 0 ==> s[r] == c
    ensures forall i :: r < i < |s| ==> s[i] != c
  {
    if |s| == 0 then -1
    else if s[|s| - 1] == c then |s| - 1
    else RFind(s[..|s| - 1], c)
  }

  /** A position holding `c` with no `c` after it is the last one. */
  lemma RFindAt(s: string, c: char, k: int)
    requires 0 <= k < |s| && s[k] == c
    requires forall i :: k < i < |s| ==> s[i] != c
    ensures RFind(s, c) == k
  {
  }

  /** The last `c` of a concatenation is in the second part if it holds one. */
  lemma {:induction false} RFindAppend(a: string, b: string, c: char)
    ensures RFind(a + b, c) == if RFind(b, c) >= 0 then |a| + RFind(b, c) else RFind(a, c)
    decreases |b|
  {
    if b == [] {
      assert a + b == a;
    } else if b[|b| - 1] != c {
      var init := b[..|b| - 1];
      assert (a + b)[..|a + b| - 1] == a + init;
      RFindAppend(a, init, c);
    }
  }
}
