/**
 * The string operations the script relies on: Python's `str.strip()` (which
 * removes every character for which `str.isspace()` holds) and `str.lower()`
 * restricted to ASCII letters.
 */
module Text {

  /** The characters Python's `str.isspace()` accepts, i.e. what `strip()` removes. */
  predicate IsSpace(c: char) {
    || c == ' ' || c == '\t' || c == '\n' || c == '\r'
    || c == '\U{000B}' || c == '\U{000C}'
    || ('\U{001C}' <= c <= '\U{001F}')
    || c == '\U{0085}' || c == '\U{00A0}' || c == '\U{1680}'
    || ('\U{2000}' <= c <= '\U{200A}')
    || c == '\U{2028}' || c == '\U{2029}' || c == '\U{202F}' || c == '\U{205F}'
    || c == '\U{3000}'
  }

  predicate AllSpace(s: string) {
    forall i :: 0 <= i < |s| ==> IsSpace(s[i])
  }

  /** Neither end of `s` is whitespace: `s` is a fixed point of `strip()`. */
  predicate IsTrimmed(s: string) {
    s == [] || (!IsSpace(s[0]) && !IsSpace(s[|s| - 1]))
  }

  /**
   * `s.strip()`: leading whitespace is dropped first, then trailing
   * whitespace, until neither end is whitespace.
   */
  function Trim(s: string): (r: string)
    ensures IsTrimmed(r)
    ensures |r| <= |s|
  {
    if s == [] then s
    else if IsSpace(s[0]) then Trim(s[1..])
    else if IsSpace(s[|s| - 1]) then Trim(s[..|s| - 1])
    else s
  }

  /** `r` is `s[i..i + |r|]` and everything of `s` around it is whitespace. */
  predicate SurroundedBySpace(s: string, r: string, i: nat) {
    && i + |r| <= |s|
    && (forall k :: 0 <= k < |r| ==> s[i + k] == r[k])
    && (forall k :: 0 <= k < i ==> IsSpace(s[k]))
    && (forall k :: i + |r| <= k < |s| ==> IsSpace(s[k]))
  }

  /**
   * What `strip()` keeps is a contiguous part of `s`, and everything it
   * removes, before and after that part, is whitespace; `i` is where the
   * kept part starts.
   */
  lemma {:induction false} TrimRemovesOnlySpace(s: string) returns (i: nat)
    ensures SurroundedBySpace(s, Trim(s), i)
    decreases |s|, 1
  {
    if s == [] {
      i := 0;
    } else if IsSpace(s[0]) {
      i := TrimRemovesOnlySpaceFront(s);
    } else if IsSpace(s[|s| - 1]) {
      i := TrimRemovesOnlySpaceBack(s);
    } else {
      i := 0;
    }
  }

  lemma {:induction false} TrimRemovesOnlySpaceFront(s: string) returns (i: nat)
    requires s != [] && IsSpace(s[0])
    ensures SurroundedBySpace(s, Trim(s), i)
    decreases |s|, 0
  {
    var t := s[1..];
    assert Trim(s) == Trim(t);
    var j := TrimRemovesOnlySpace(t);
    SurroundedExtendFront(s, Trim(t), j);
    i := j + 1;
  }

  lemma {:induction false} TrimRemovesOnlySpaceBack(s: string) returns (i: nat)
    requires s != [] && !IsSpace(s[0]) && IsSpace(s[|s| - 1])
    ensures SurroundedBySpace(s, Trim(s), i)
    decreases |s|, 0
  {
    var t := s[..|s| - 1];
    assert Trim(s) == Trim(t);
    i := TrimRemovesOnlySpace(t);
    SurroundedExtendBack(s, Trim(t), i);
  }

  /** One more whitespace character in front keeps `r` surrounded by whitespace. */
  lemma SurroundedExtendFront(s: string, r: string, j: nat)
    requires s != [] && IsSpace(s[0]) && SurroundedBySpace(s[1..], r, j)
    ensures SurroundedBySpace(s, r, j + 1)
  {
    var t := s[1..];
    forall k | 0 <= k < |r| ensures s[j + 1 + k] == r[k] {
      assert s[j + 1 + k] == t[j + k];
    }
    forall k | 0 <= k < j + 1 ensures IsSpace(s[k]) {
      if k > 0 { assert s[k] == t[k - 1]; }
    }
    forall k | j + 1 + |r| <= k < |s| ensures IsSpace(s[k]) {
      assert s[k] == t[k - 1];
    }
  }

  /** One more whitespace character at the end keeps `r` surrounded by whitespace. */
  lemma SurroundedExtendBack(s: string, r: string, i: nat)
    requires s != [] && IsSpace(s[|s| - 1]) && SurroundedBySpace(s[..|s| - 1], r, i)
    ensures SurroundedBySpace(s, r, i)
  {
    var n := |s| - 1;
    var t := s[..n];
    forall k | 0 <= k < |r| ensures s[i + k] == r[k] {
      assert s[i + k] == t[i + k];
    }
    forall k | 0 <= k < i ensures IsSpace(s[k]) {
      assert s[k] == t[k];
    }
    forall k | i + |r| <= k < |s| ensures IsSpace(s[k]) {
      if k < n { assert s[k] == t[k]; }
    }
  }

  /** Stripping a string that has no whitespace at either end changes nothing. */
  lemma TrimTrimmed(s: string)
    requires IsTrimmed(s)
    ensures Trim(s) == s
  {
  }

  /** A string made only of whitespace strips to the empty string. */
  lemma {:induction false} TrimAllSpace(s: string)
    requires AllSpace(s)
    ensures Trim(s) == []
  {
    if s != [] {
      TrimAllSpace(s[1..]);
    }
  }

  /** Leading whitespace does not change what `strip()` yields. */
  lemma {:induction false} TrimPadStart(pre: string, s: string)
    requires AllSpace(pre)
    ensures Trim(pre + s) == Trim(s)
  {
    if pre == [] {
      assert pre + s == s;
    } else {
      assert (pre + s)[1..] == pre[1..] + s;
      TrimPadStart(pre[1..], s);
    }
  }

  /** Trailing whitespace does not change what `strip()` yields. */
  lemma {:induction false} TrimPadEnd(s: string, post: string)
    requires AllSpace(post)
    ensures Trim(s + post) == Trim(s)
    decreases |s| + |post|
  {
    var t := s + post;
    if post == [] {
      assert t == s;
    } else if s == [] {
      assert t == post;
      TrimAllSpace(post);
    } else if IsSpace(s[0]) {
      assert t[1..] == s[1..] + post;
      TrimPadEnd(s[1..], post);
    } else {
      var n := |post| - 1;
      assert t[..|t| - 1] == s + post[..n];
      TrimPadEnd(s, post[..n]);
    }
  }

  /** Surrounding whitespace never changes what `strip()` yields. */
  lemma TrimIgnoresPadding(pre: string, s: string, post: string)
    requires AllSpace(pre) && AllSpace(post)
    ensures Trim(pre + s + post) == Trim(s)
  {
    assert pre + s + post == pre + (s + post);
    TrimPadStart(pre, s + post);
    TrimPadEnd(s, post);
  }

  function LowerChar(c: char): char {
    if 'A' <= c <= 'Z' then (c as int - 'A' as int + 'a' as int) as char else c
  }

  /** `s.lower()` on ASCII letters; every other character is kept. */
  function Lower(s: string): string {
    seq(|s|, i requires 0 <= i < |s| => LowerChar(s[i]))
  }

  /** Lowering twice is lowering once. */
  lemma LowerIdempotent(s: string)
    ensures Lower(Lower(s)) == Lower(s)
  {
  }

  /** Lowering works character by character, so it distributes over concatenation. */
  lemma LowerAppend(a: string, b: string)
    ensures Lower(a + b) == Lower(a) + Lower(b)
  {
    var l := Lower(a + b);
    assert forall i :: 0 <= i < |a| ==> l[i] == LowerChar((a + b)[i]) == LowerChar(a[i]);
  }

  /** Lowering and stripping commute: whitespace is never a letter. */
  lemma {:induction false} LowerTrim(s: string)
    ensures Lower(Trim(s)) == Trim(Lower(s))
  {
    if s != [] {
      var l, n := Lower(s), |s| - 1;
      LowerDropEnds(s);
      LowerCharSpace(s[0]);
      LowerCharSpace(s[n]);
      if IsSpace(s[0]) {
        LowerTrim(s[1..]);
      } else if IsSpace(s[n]) {
        LowerTrim(s[..n]);
      }
    }
  }

  /** Lowering commutes with dropping either end. */
  lemma LowerDropEnds(s: string)
    requires s != []
    ensures Lower(s)[1..] == Lower(s[1..])
    ensures Lower(s)[..|s| - 1] == Lower(s[..|s| - 1])
  {
  }

  /** Lowering never turns a character into whitespace or whitespace into something else. */
  lemma LowerCharSpace(c: char)
    ensures IsSpace(LowerChar(c)) <==> IsSpace(c)
  {
    if 'A' <= c <= 'Z' {
      assert 'a' <= LowerChar(c) <= 'z';
    }
  }

  /** `s.endswith(suffix)`. */
  predicate EndsWith(s: string, suffix: string) {
    |suffix| <= |s| && s[|s| - |suffix|..] == suffix
  }

  /** `s.lower().endswith(".pdf")`. */
  predicate EndsWithPdf(s: string) {
    EndsWith(Lower(s), ".pdf")
  }
}
