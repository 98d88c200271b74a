/**
  Character classes and substring tests shared by the link rewriter and the
  error classifier of the advice resolver.
 */
module Strings {

  /** Python's `\s` on `str` patterns: the characters for which `str.isspace()`
      holds (ASCII tab, line feed, vertical tab, form feed, carriage return,
      the four information separators and space, plus the Unicode spaces and
      line/paragraph separators). */
  predicate IsSpace(c: char) {
    || '\t' <= c <= '\r'
    || '\U{1C}' <= c <= ' '
    || c == '\U{85}' || c == '\U{A0}' || c == '\U{1680}'
    || '\U{2000}' <= c <= '\U{200A}'
    || c == '\U{2028}' || c == '\U{2029}' || c == '\U{202F}' || c == '\U{205F}'
    || c == '\U{3000}'
  }

  /** No character of `s` is whitespace. */
  predicate NoSpace(s: string) {
    forall i | 0 <= i < |s| :: !IsSpace(s[i])
  }

  predicate IsPrefix(p: string, s: string) {
    |p| <= |s| && s[..|p|] == p
  }

  /** Python's `sub in s`, scanning the start positions left to right. */
  predicate Contains(s: string, sub: string)
    decreases |s|
  {
    IsPrefix(sub, s) || (|s| > 0 && Contains(s[1..], sub))
  }

  /** `sub` occurs in `s` starting at index `i`. */
  ghost predicate OccursAt(s: string, sub: string, i: int) {
    0 <= i && i + |sub| <= |s| && s[i..i + |sub|] == sub
  }

  /** An occurrence at index 0 is exactly a prefix. */
  lemma OccursAtStart(s: string, sub: string)
    ensures OccursAt(s, sub, 0) <==> IsPrefix(sub, s)
  {
  }

  /** An occurrence past index 0 is an occurrence in the tail, one index earlier. */
  lemma OccursAtShift(s: string, sub: string, i: int)
    requires |s| > 0 && i >= 1
    ensures OccursAt(s, sub, i) <==> OccursAt(s[1..], sub, i - 1)
  {
    if i + |sub| <= |s| {
      assert s[1..][i - 1..i - 1 + |sub|] == s[i..i + |sub|];
    }
  }

  /** The scan agrees with the textbook definition of a substring occurrence. */
  lemma {:induction false} ContainsIff(s: string, sub: string)
    ensures Contains(s, sub) <==> exists i :: OccursAt(s, sub, i)
    decreases |s|
  {
    OccursAtStart(s, sub);
    if |s| == 0 {
      forall i
        ensures OccursAt(s, sub, i) ==> i == 0
      {
      }
    } else {
      ContainsIff(s[1..], sub);
      forall i
        ensures OccursAt(s, sub, i) <==> (i == 0 && IsPrefix(sub, s)) || (i >= 1 && OccursAt(s[1..], sub, i - 1))
      {
        if i >= 1 {
          OccursAtShift(s, sub, i);
        }
      }
      if Contains(s[1..], sub) {
        var j :| OccursAt(s[1..], sub, j);
        assert OccursAt(s, sub, j + 1);
      }
    }
  }

  /** An occurrence inside `s` is still an occurrence after text is put in front. */
  lemma {:induction false} ContainsAfter(p: string, s: string, sub: string)
    requires Contains(s, sub)
    ensures Contains(p + s, sub)
    decreases |p|
  {
    if |p| > 0 {
      ContainsAfter(p[1..], s, sub);
      assert (p + s)[1..] == p[1..] + s;
      assert Contains((p + s)[1..], sub);
    } else {
      assert p + s == s;
    }
  }

  /** A string that starts with `sub` contains it, whatever follows. */
  lemma ContainsPrefix(sub: string, s: string)
    ensures Contains(sub + s, sub)
  {
    assert (sub + s)[..|sub|] == sub;
  }
}
