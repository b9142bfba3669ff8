/**
 * The Python string operations the combiner applies to cell text:
 * `str.strip()`, `str.lower()`, `str.replace(x, y)`, the `in` substring
 * test and `str.endswith`.
 */
module Strings {

  /** Python's `str.isspace()` for one character: exactly the characters
      that `str.strip()` without arguments removes. */
  predicate IsSpace(ch: char) {
    || '\t' <= ch <= '\r'                  // U+0009 .. U+000D
    || '\U{1C}' <= ch <= ' '                // U+001C .. U+0020
    || ch == '\U{85}' || ch == '\U{A0}' || ch == '\U{1680}'
    || '\U{2000}' <= ch <= '\U{200A}'
    || ch == '\U{2028}' || ch == '\U{2029}' || ch == '\U{202F}' || ch == '\U{205F}' || ch == '\U{3000}'
  }

  predicate AllSpace(s: string) {
    forall k :: 0 <= k < |s| ==> IsSpace(s[k])
  }

  /** `str.lstrip()`. */
  function StripLeft(s: string): string {
    if |s| > 0 && IsSpace(s[0]) then StripLeft(s[1..]) else s
  }

  /** `str.rstrip()`. */
  function StripRight(s: string): string {
    if |s| > 0 && IsSpace(s[|s| - 1]) then StripRight(s[..|s| - 1]) else s
  }

  /** `lstrip()` keeps the longest suffix that does not start with whitespace. */
  lemma {:induction false} StripLeftSpec(s: string)
    ensures |StripLeft(s)| <= |s| && StripLeft(s) == s[|s| - |StripLeft(s)|..]
    ensures AllSpace(s[..|s| - |StripLeft(s)|])
    ensures StripLeft(s) == [] || !IsSpace(StripLeft(s)[0])
  {
    if |s| > 0 && IsSpace(s[0]) {
      StripLeftSpec(s[1..]);
      var n := |s| - |StripLeft(s)|;
      assert s[..n] == [s[0]] + s[1..][..n - 1];
    }
  }

  /** `rstrip()` keeps the longest prefix that does not end with whitespace. */
  lemma {:induction false} StripRightSpec(s: string)
    ensures |StripRight(s)| <= |s| && StripRight(s) == s[..|StripRight(s)|]
    ensures AllSpace(s[|StripRight(s)|..])
    ensures StripRight(s) == [] || !IsSpace(StripRight(s)[|StripRight(s)| - 1])
  {
    if |s| > 0 && IsSpace(s[|s| - 1]) {
      StripRightSpec(s[..|s| - 1]);
      var n := |StripRight(s)|;
      assert s[n..] == s[..|s| - 1][n..] + [s[|s| - 1]];
    }
  }

  /** `str.strip()`. */
  function Strip(s: string): string {
    StripRight(StripLeft(s))
  }

  /** What `strip()` promises: it removes only surrounding whitespace, leaves
      none at either end, yields "" exactly for all-whitespace text, and
      leaves already-trimmed text as it is. */
  lemma StripSpec(s: string)
    ensures |Strip(s)| <= |s|
    ensures exists i :: StripsTo(s, i, Strip(s))
    ensures Strip(s) == [] || (!IsSpace(Strip(s)[0]) && !IsSpace(Strip(s)[|Strip(s)| - 1]))
    ensures Strip(s) == [] <==> AllSpace(s)
    ensures s == [] || (!IsSpace(s[0]) && !IsSpace(s[|s| - 1])) ==> Strip(s) == s
  {
    var t := Strip(s);
    assert |t| <= |s| && (t == [] || (!IsSpace(t[0]) && !IsSpace(t[|t| - 1]))) by {
      StripLeftSpec(s);
      StripRightSpec(StripLeft(s));
    }
    assert t == [] <==> AllSpace(s) by {
      StripEmptyOnlyIfSpace(s);
    }
    assert s == [] || (!IsSpace(s[0]) && !IsSpace(s[|s| - 1])) ==> t == s by {
      StripKeepsTrimmed(s);
    }
    assert StripsTo(s, |s| - |StripLeft(s)|, t) by {
      StripIsInfix(s);
    }
  }

  /** `t` is the part of `s` starting at index `i`, with only whitespace
      before and after it. */
  ghost predicate StripsTo(s: string, i: int, t: string) {
    0 <= i && i + |t| <= |s| && s[i..i + |t|] == t && AllSpace(s[..i]) && AllSpace(s[i + |t|..])
  }

  lemma StripIsInfix(s: string)
    ensures StripsTo(s, |s| - |StripLeft(s)|, Strip(s))
  {
    var l := StripLeft(s);
    var t := Strip(s);
    var i := |s| - |l|;
    assert |l| <= |s| && l == s[i..] && AllSpace(s[..i]) by {
      StripLeftSpec(s);
    }
    assert |t| <= |l| && t == l[..|t|] && AllSpace(l[|t|..]) by {
      StripRightSpec(l);
    }
    SpaceMargins(s, l, t);
  }

  /** Cutting a whitespace prefix and then a whitespace suffix leaves a
      part of the text with whitespace margins. */
  lemma SpaceMargins(s: string, l: string, t: string)
    requires |l| <= |s| && l == s[|s| - |l|..] && AllSpace(s[..|s| - |l|])
    requires |t| <= |l| && t == l[..|t|] && AllSpace(l[|t|..])
    ensures StripsTo(s, |s| - |l|, t)
  {
    var i := |s| - |l|;
    assert s[i..i + |t|] == t;
    assert s[i + |t|..] == l[|t|..];
  }

  lemma StripEmptyOnlyIfSpace(s: string)
    ensures StripRight(StripLeft(s)) == [] <==> AllSpace(s)
  {
    var l := StripLeft(s);
    var r := StripRight(l);
    StripLeftSpec(s);
    StripRightSpec(l);
    if r == [] {
      assert l == [];
      assert s[..|s|] == s;
    }
  }

  lemma StripKeepsTrimmed(s: string)
    ensures s == [] || (!IsSpace(s[0]) && !IsSpace(s[|s| - 1])) ==> StripRight(StripLeft(s)) == s
  {
    if s != [] && !IsSpace(s[0]) && !IsSpace(s[|s| - 1]) {
      assert StripLeft(s) == s;
    }
    StripRightSpec(StripLeft(s));
  }

  lemma StripIdempotent(s: string)
    ensures Strip(Strip(s)) == Strip(s)
  {
    StripSpec(s);
    StripSpec(Strip(s));
  }

  /** ASCII case folding, the part of `str.lower()` this model keeps. */
  function LowerChar(ch: char): char {
    if 'A' <= ch <= 'Z' then (ch as int - 'A' as int + 'a' as int) as char else ch
  }

  /** `str.lower()` on ASCII letters. */
  function Lower(s: string): string {
    if s == [] then [] else [LowerChar(s[0])] + Lower(s[1..])
  }

  lemma {:induction false} LowerLength(s: string)
    ensures |Lower(s)| == |s|
  {
    if s != [] {
      LowerLength(s[1..]);
    }
  }

  /** `s.replace(ch, '')`: every `ch` removed, everything else kept in order. */
  function RemoveAll(s: string, ch: char): string {
    if s == [] then [] else (if s[0] == ch then [] else [s[0]]) + RemoveAll(s[1..], ch)
  }

  /** `replace(ch, '')` leaves every character but `ch`, and no `ch`. */
  lemma {:induction false} RemoveAllSpec(s: string, ch: char)
    ensures |RemoveAll(s, ch)| <= |s|
    ensures forall x :: x in RemoveAll(s, ch) <==> x in s && x != ch
  {
    if s != [] {
      RemoveAllSpec(s[1..], ch);
      assert s == [s[0]] + s[1..];
    }
  }

  /** `replace(ch, '')` keeps every other character as often as it occurs. */
  lemma {:induction false} RemoveAllCounts(s: string, ch: char)
    ensures forall x :: multiset(RemoveAll(s, ch))[x] == if x == ch then 0 else multiset(s)[x]
  {
    if s != [] {
      var head := if s[0] == ch then [] else [s[0]];
      RemoveAllCounts(s[1..], ch);
      assert s == [s[0]] + s[1..];
      assert multiset(RemoveAll(s, ch)) == multiset(head) + multiset(RemoveAll(s[1..], ch));
      assert multiset(s) == multiset([s[0]]) + multiset(s[1..]);
    }
  }

  lemma RemoveAllMultiset(s: string, ch: char)
    ensures multiset(RemoveAll(s, ch)) == multiset(s)[ch := 0]
  {
    RemoveAllCounts(s, ch);
  }

  /** `replace(ch, '')` works piecewise, so the kept characters stay in
      their order. */
  lemma {:induction false} RemoveAllAppend(a: string, b: string, ch: char)
    ensures RemoveAll(a + b, ch) == RemoveAll(a, ch) + RemoveAll(b, ch)
  {
    if a != [] {
      assert (a + b)[0] == a[0];
      assert (a + b)[1..] == a[1..] + b;
      RemoveAllAppend(a[1..], b, ch);
    } else {
      assert a + b == b;
    }
  }

  /** `s.replace(old, new)` for single characters. */
  function Replace(s: string, from: char, to: char): string {
    if s == [] then [] else [if s[0] == from then to else s[0]] + Replace(s[1..], from, to)
  }

  /** `replace(from, to)` changes exactly the occurrences of `from`, in place. */
  lemma {:induction false} ReplaceSpec(s: string, from: char, to: char)
    ensures |Replace(s, from, to)| == |s|
    ensures forall k :: 0 <= k < |s| ==> Replace(s, from, to)[k] == if s[k] == from then to else s[k]
  {
    if s != [] {
      ReplaceSpec(s[1..], from, to);
    }
  }

  /** `p` occurs in `s` starting at index `i`. */
  ghost predicate OccursAt(s: string, p: string, i: int) {
    0 <= i && i + |p| <= |s| && s[i..i + |p|] == p
  }

  /** Python's `p in s` on strings. */
  predicate Contains(s: string, p: string)
    decreases |s|
  {
    |p| <= |s| && (s[..|p|] == p || Contains(s[1..], p))
  }

  lemma {:induction false} ContainsIff(s: string, p: string)
    ensures Contains(s, p) <==> exists i :: OccursAt(s, p, i)
    decreases |s|
  {
    if |p| <= |s| {
      if s[..|p|] == p {
        assert OccursAt(s, p, 0);
      } else {
        ContainsIff(s[1..], p);
        if Contains(s[1..], p) {
          var i :| OccursAt(s[1..], p, i);
          assert s[i + 1..i + 1 + |p|] == s[1..][i..i + |p|];
          assert OccursAt(s, p, i + 1);
        }
        if i :| OccursAt(s, p, i) {
          assert i != 0;
          assert s[1..][i - 1..i - 1 + |p|] == s[i..i + |p|];
          assert OccursAt(s[1..], p, i - 1);
        }
      }
    }
  }

  /** `s.endswith(suffix)`. */
  predicate EndsWith(s: string, suffix: string) {
    |suffix| <= |s| && s[|s| - |suffix|..] == suffix
  }
}
