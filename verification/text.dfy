/** The parts of Python's `str` the guideline bot relies on: `strip()`,
    `find()`, `replace()`, `startswith()`, `in`, slicing past the end and
    `lower()`.  Strings are sequences of code points, as in Python 3. */
module Text {

  /** Python's `str.isspace()`: exactly the characters `str.strip()` removes
      when called without arguments. */
  predicate IsSpace(c: char) {
    || c == ' '
    || ('\t' <= c <= '\r')
    || ('\U{1C}' <= c <= '\U{1F}')
    || c == '\U{85}' || c == '\U{A0}' || c == '\U{1680}'
    || ('\U{2000}' <= c <= '\U{200A}')
    || c == '\U{2028}' || c == '\U{2029}' || c == '\U{202F}'
    || c == '\U{205F}' || c == '\U{3000}'
  }

  /** The regex class `\d`, read as the ASCII digits. */
  predicate IsDigit(c: char) {
    '0' <= c <= '9'
  }

  predicate AllSpace(s: string) {
    forall i :: 0 <= i < |s| ==> IsSpace(s[i])
  }

  /** Neither end is whitespace: the shape of every `strip()` result. */
  predicate Stripped(s: string) {
    |s| == 0 || (!IsSpace(s[0]) && !IsSpace(s[|s| - 1]))
  }

  /** `s.strip()`: whitespace is cut off either end until neither end is
      whitespace. */
  function Strip(s: string): (r: string)
    ensures Stripped(r) && |r| <= |s|
    decreases |s|
  {
    if |s| > 0 && IsSpace(s[0]) then Strip(s[1..])
    else if |s| > 0 && IsSpace(s[|s| - 1]) then Strip(s[..|s| - 1])
    else s
  }

  /** The number of whitespace characters `s` starts with. */
  function LeadingSpace(s: string): (n: nat)
    ensures n <= |s|
  {
    if |s| > 0 && IsSpace(s[0]) then 1 + LeadingSpace(s[1..]) else 0
  }

  /** `strip()` keeps one contiguous piece of `s`: everything before it and
      after it is whitespace, and it starts right after the leading
      whitespace. */
  predicate KeepsMiddle(s: string) {
    var k := LeadingSpace(s);
    var r := Strip(s);
    && k + |r| <= |s|
    && r == s[k..k + |r|]
    && AllSpace(s[..k])
    && AllSpace(s[k + |r|..])
  }

  lemma {:induction false} StripKeepsMiddle(s: string)
    ensures KeepsMiddle(s)
    decreases |s|
  {
    if |s| > 0 && IsSpace(s[0]) {
      StripKeepsMiddle(s[1..]);
      LeadingSpaceStep(s);
    } else if |s| > 0 && IsSpace(s[|s| - 1]) {
      StripKeepsMiddle(s[..|s| - 1]);
      TrailingSpaceStep(s);
    }
  }

  lemma LeadingSpaceStep(s: string)
    requires |s| > 0 && IsSpace(s[0]) && KeepsMiddle(s[1..])
    ensures KeepsMiddle(s)
  {
    var t := s[1..];
    var r := Strip(s);
    var k := LeadingSpace(s);
    assert r == Strip(t) && k == 1 + LeadingSpace(t);
    assert r == s[k..k + |r|] by {
      assert s[k..k + |r|] == t[k - 1..k - 1 + |r|];
    }
    assert AllSpace(s[k + |r|..]) by {
      assert s[k + |r|..] == t[k - 1 + |r|..];
    }
    assert AllSpace(s[..k]) by {
      assert s[..k] == [s[0]] + t[..k - 1];
    }
  }

  lemma TrailingSpaceStep(s: string)
    requires |s| > 0 && !IsSpace(s[0]) && IsSpace(s[|s| - 1]) && KeepsMiddle(s[..|s| - 1])
    ensures KeepsMiddle(s)
  {
    var t := s[..|s| - 1];
    var r := Strip(s);
    assert r == Strip(t) && LeadingSpace(s) == 0;
    assert LeadingSpace(t) == 0 by {
      assert |t| > 0 ==> t[0] == s[0];
    }
    assert AllSpace(s[|r|..]) by {
      assert s[|r|..] == t[|r|..] + [s[|s| - 1]];
    }
  }

  /** A string that already has no whitespace ends is left alone by `strip()`. */
  lemma StrippedIsFixed(s: string)
    requires Stripped(s)
    ensures Strip(s) == s
  {
  }

  /** `strip()` is idempotent. */
  lemma StripIdempotent(s: string)
    ensures Strip(Strip(s)) == Strip(s)
  {
    StrippedIsFixed(Strip(s));
  }

  /** A stripped string has no non-empty all-whitespace suffix. */
  lemma StrippedHasNoSpaceTail(s: string, j: nat)
    requires Stripped(s) && j <= |s|
    ensures AllSpace(s[j..]) ==> j == |s|
  {
    if j < |s| {
      assert s[j..][|s| - j - 1] == s[|s| - 1];
    }
  }

  /** `strip()` keeps a prefix that neither starts nor ends with whitespace. */
  lemma StripKeepsPrefix(s: string, p: string)
    requires StartsWith(s, p) && |p| > 0 && Stripped(p)
    ensures StartsWith(Strip(s), p)
  {
    StripKeepsMiddle(s);
    var r := Strip(s);
    assert s[0] == p[0] && s[|p| - 1] == p[|p| - 1] by {
      assert s[..|p|] == p;
    }
    assert LeadingSpace(s) == 0;
    assert forall i :: |r| <= i < |s| ==> IsSpace(s[i]) by {
      forall i | |r| <= i < |s| ensures IsSpace(s[i]) {
        assert s[i] == s[|r|..][i - |r|];
      }
    }
    assert |p| <= |r|;
    assert r[..|p|] == s[..|p|];
  }

  /** Stripping a suffix of a stripped string only removes leading whitespace. */
  lemma StripSuffixOfStripped(block: string, m: nat)
    requires Stripped(block) && m <= |block|
    ensures var rest := Strip(block[m..]);
            && m + |rest| <= |block|
            && rest == block[|block| - |rest|..]
            && AllSpace(block[m..|block| - |rest|])
  {
    var after := block[m..];
    var rest := Strip(after);
    var lead := LeadingSpace(after);
    StripKeepsMiddle(after);
    assert m + lead + |rest| == |block| by {
      assert after[lead + |rest|..] == block[m + lead + |rest|..];
      StrippedHasNoSpaceTail(block, m + lead + |rest|);
    }
    assert rest == block[|block| - |rest|..] by {
      assert after[lead..lead + |rest|] == block[m + lead..];
    }
    assert AllSpace(block[m..|block| - |rest|]) by {
      assert block[m..|block| - |rest|] == after[..lead];
    }
  }

  /** `sub` occurs in `s` starting at index `i`. */
  predicate OccursAt(s: string, sub: string, i: nat) {
    i + |sub| <= |s| && s[i..i + |sub|] == sub
  }

  /** Python's `sub in s`. */
  predicate Contains(s: string, sub: string) {
    exists i :: 0 <= i <= |s| && OccursAt(s, sub, i)
  }

  /** `s.startswith(p)`. */
  predicate StartsWith(s: string, p: string) {
    OccursAt(s, p, 0)
  }

  /** A string starts with whatever was put in front of it. */
  lemma StartsWithConcat(p: string, x: string)
    ensures StartsWith(p + x, p)
    ensures (p + x)[|p|..] == x
  {
    assert (p + x)[..|p|] == p;
  }

  function FindFrom(s: string, sub: string, from: nat): (r: int)
    requires from <= |s|
    ensures r == -1 || (from <= r && OccursAt(s, sub, r))
    ensures r == -1 ==> forall i: nat :: from <= i ==> !OccursAt(s, sub, i)
    ensures r != -1 ==> forall i: nat :: from <= i < r ==> !OccursAt(s, sub, i)
    decreases |s| - from
  {
    if OccursAt(s, sub, from) then from
    else if from + |sub| >= |s| then -1
    else FindFrom(s, sub, from + 1)
  }

  /** `s.find(sub)`: the first index where `sub` occurs, or -1 when it does not occur. */
  function Find(s: string, sub: string): (r: int)
    ensures r == -1 <==> !Contains(s, sub)
    ensures r != -1 ==> 0 <= r && OccursAt(s, sub, r)
    ensures r != -1 ==> forall i: nat :: i < r ==> !OccursAt(s, sub, i)
  {
    FindFrom(s, sub, 0)
  }

  /** The first occurrence of `sub` is what `find` returns. */
  lemma FindFirst(s: string, sub: string, k: nat)
    requires OccursAt(s, sub, k)
    requires forall i: nat :: i < k ==> !OccursAt(s, sub, i)
    ensures Find(s, sub) == k
  {
    assert Contains(s, sub);
  }

  /** `s.replace(pat, rep)`: every occurrence of `pat`, scanning left to right
      without overlaps, replaced by `rep`.  Every call site passes a non-empty
      `pat`. */
  function ReplaceAll(s: string, pat: string, rep: string): (r: string)
    requires |pat| > 0
    ensures |rep| == |pat| ==> |r| == |s|
    ensures |rep| <= |pat| ==> |r| <= |s|
    decreases |s|
  {
    if |s| == 0 then ""
    else if OccursAt(s, pat, 0) then rep + ReplaceAll(s[|pat|..], pat, rep)
    else [s[0]] + ReplaceAll(s[1..], pat, rep)
  }

  /** An occurrence at the very start is replaced first. */
  lemma ReplaceAtStart(pat: string, x: string, rep: string)
    requires |pat| > 0
    ensures ReplaceAll(pat + x, pat, rep) == rep + ReplaceAll(x, pat, rep)
  {
    assert (pat + x)[..|pat|] == pat;
    assert (pat + x)[|pat|..] == x;
  }

  /** When `pat` does not occur, `replace` returns its input unchanged. */
  lemma {:induction false} ReplaceAbsent(s: string, pat: string, rep: string)
    requires |pat| > 0 && !Contains(s, pat)
    ensures ReplaceAll(s, pat, rep) == s
    decreases |s|
  {
    if |s| > 0 {
      assert !OccursAt(s, pat, 0);
      if Contains(s[1..], pat) {
        var i :| 0 <= i <= |s| - 1 && OccursAt(s[1..], pat, i);
        assert s[i + 1..i + 1 + |pat|] == s[1..][i..i + |pat|];
        assert OccursAt(s, pat, i + 1);
        assert false;
      }
      ReplaceAbsent(s[1..], pat, rep);
      assert [s[0]] + s[1..] == s;
    }
  }

  /** Replacing one character by another changes that character at every
      position and nothing else. */
  lemma {:induction false} ReplaceChar(s: string, c: char, d: char)
    ensures |ReplaceAll(s, [c], [d])| == |s|
    ensures forall i :: 0 <= i < |s| ==> ReplaceAll(s, [c], [d])[i] == (if s[i] == c then d else s[i])
    decreases |s|
  {
    if |s| > 0 {
      ReplaceChar(s[1..], c, d);
      assert OccursAt(s, [c], 0) <==> s[0] == c;
    }
  }

  /** `s` with every copy of `c` removed and the other characters kept in
      their order. */
  function Without(s: string, c: char): (r: string)
    ensures c !in r && |r| <= |s|
    decreases |s|
  {
    if |s| == 0 then ""
    else if s[0] == c then Without(s[1..], c)
    else [s[0]] + Without(s[1..], c)
  }

  /** Removing a character works piece by piece: the kept characters of a
      concatenation are those of the first part followed by those of the
      second. */
  lemma {:induction false} WithoutConcat(a: string, b: string, c: char)
    ensures Without(a + b, c) == Without(a, c) + Without(b, c)
    decreases |a|
  {
    if |a| == 0 {
      assert a + b == b;
    } else {
      assert (a + b)[0] == a[0];
      assert (a + b)[1..] == a[1..] + b;
      WithoutConcat(a[1..], b, c);
    }
  }

  /** Replacing one character by the empty string removes exactly the copies
      of it: the other characters stay, in order and with their counts. */
  lemma DeleteChar(s: string, c: char)
    ensures ReplaceAll(s, [c], "") == Without(s, c)
    ensures multiset(ReplaceAll(s, [c], "")) == multiset(s)[c := 0]
  {
    DeleteIsWithout(s, c);
    WithoutMultiset(s, c);
  }

  /** The scan of `ReplaceAll` for a one-character pattern and the empty
      replacement is the filter `Without`. */
  lemma {:induction false} DeleteIsWithout(s: string, c: char)
    ensures ReplaceAll(s, [c], "") == Without(s, c)
    decreases |s|
  {
    if |s| > 0 {
      DeleteIsWithout(s[1..], c);
      assert OccursAt(s, [c], 0) <==> s[0] == c;
      if s[0] == c {
        assert ReplaceAll(s, [c], "") == ReplaceAll(s[1..], [c], "");
      } else {
        assert ReplaceAll(s, [c], "") == [s[0]] + ReplaceAll(s[1..], [c], "");
      }
    }
  }

  /** `Without` drops every copy of `c` and keeps every other character with
      its multiplicity. */
  lemma {:induction false} WithoutMultiset(s: string, c: char)
    ensures multiset(Without(s, c)) == multiset(s)[c := 0]
    decreases |s|
  {
    if |s| > 0 {
      WithoutMultiset(s[1..], c);
      assert s == [s[0]] + s[1..];
      assert multiset(s) == multiset{s[0]} + multiset(s[1..]);
    }
  }

  /** Deleting a character that neither end of `s` is keeps both ends. */
  lemma {:induction false} DeleteCharKeepsEnds(s: string, c: char)
    requires |s| > 0 && s[0] != c && s[|s| - 1] != c
    ensures var r := ReplaceAll(s, [c], "");
            |r| > 0 && r[0] == s[0] && r[|r| - 1] == s[|s| - 1]
  {
    assert !OccursAt(s, [c], 0);
    DeleteCharKeepsLast(s, c);
  }

  lemma {:induction false} DeleteCharKeepsLast(s: string, c: char)
    requires |s| > 0 && s[|s| - 1] != c
    ensures var r := ReplaceAll(s, [c], "");
            |r| > 0 && r[|r| - 1] == s[|s| - 1]
    decreases |s|
  {
    assert OccursAt(s, [c], 0) <==> s[0] == c;
    if |s| > 1 {
      DeleteCharKeepsLast(s[1..], c);
    }
  }

  /** Python's `s[n:]`: empty when `n` is past the end. */
  function DropFirst(s: string, n: nat): (r: string)
    ensures n <= |s| ==> s == s[..n] + r
    ensures n > |s| ==> r == ""
  {
    if n <= |s| then s[n..] else ""
  }

  function LowerChar(c: char): char {
    if 'A' <= c <= 'Z' then (c as int + 32) as char else c
  }

  /** `s.lower()` restricted to ASCII letters: every upper-case letter becomes
      its lower-case letter, 32 code points on, and every other character
      stays. */
  function Lower(s: string): (r: string)
    ensures |r| == |s|
    ensures forall i :: 0 <= i < |s| ==> !('A' <= r[i] <= 'Z')
    ensures forall i :: 0 <= i < |s| && !('A' <= s[i] <= 'Z') ==> r[i] == s[i]
    ensures forall i :: 0 <= i < |s| && 'A' <= s[i] <= 'Z' ==> r[i] as int == s[i] as int + 32
  {
    seq(|s|, i requires 0 <= i < |s| => LowerChar(s[i]))
  }

  /** Lower-casing keeps whitespace where it was, so it is idempotent and
      preserves strippedness. */
  lemma LowerFacts(s: string)
    ensures forall i :: 0 <= i < |s| ==> (IsSpace(Lower(s)[i]) <==> IsSpace(s[i]))
    ensures Lower(Lower(s)) == Lower(s)
    ensures Stripped(s) ==> Stripped(Lower(s))
  {
  }
}
