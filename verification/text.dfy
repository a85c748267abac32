/**
  The two pieces of Python string behaviour the analyser relies on:
  the substring test `pattern in text` and `text.strip()` called with no
  argument. Strings are sequences of characters.
 */
module Text {

  /** `pattern` occurs in `text` starting at position `i`. */
  predicate OccursAt(text: string, pattern: string, i: nat)
  {
    i + |pattern| <= |text| && text[i..i + |pattern|] == pattern
  }

  /**
    Python's `pattern in text`: case-sensitive, contiguous, no notion of
    words. The search tries each start position from the left.
   */
  function Contains(text: string, pattern: string): bool
    decreases |text|
  {
    if |text| < |pattern| then false
    else text[..|pattern|] == pattern || Contains(text[1..], pattern)
  }

  /** The search finds a match exactly when some start position holds one. */
  lemma {:induction false} ContainsIffOccurs(text: string, pattern: string)
    ensures Contains(text, pattern) <==> exists i: nat :: OccursAt(text, pattern, i)
    decreases |text|
  {
    if |text| < |pattern| {
      forall i: nat ensures !OccursAt(text, pattern, i) { }
    } else if text[..|pattern|] == pattern {
      assert OccursAt(text, pattern, 0);
    } else {
      ContainsIffOccurs(text[1..], pattern);
      if Contains(text[1..], pattern) {
        var i: nat :| OccursAt(text[1..], pattern, i);
        assert text[1..][i..i + |pattern|] == text[i + 1..i + 1 + |pattern|];
        assert OccursAt(text, pattern, i + 1);
      } else {
        forall i: nat | OccursAt(text, pattern, i) ensures false {
          if i > 0 {
            assert text[1..][i - 1..i - 1 + |pattern|] == text[i..i + |pattern|];
            assert OccursAt(text[1..], pattern, i - 1);
          }
        }
      }
    }
  }

  /** A pattern with a character that appears nowhere in `text` does not occur in it. */
  lemma {:induction false} CharAbsent(text: string, pattern: string, k: nat)
    requires k < |pattern| && pattern[k] !in text
    ensures !Contains(text, pattern)
    decreases |text|
  {
    if |pattern| <= |text| {
      assert text[..|pattern|][k] == text[k];
      CharAbsent(text[1..], pattern, k);
    }
  }

  /**
    The characters Python's `str.isspace` accepts, which is the set
    `str.strip()` removes when called without an argument: tab, line feed,
    vertical tab, form feed, carriage return, the four information
    separators, space, next line, no-break space and the Unicode space
    separators and line/paragraph separators.
   */
  predicate IsSpace(c: char)
  {
    || ('\t' <= c <= '\r')
    || ('\U{001C}' <= c <= '\U{001F}')
    || c == ' '
    || c == '\U{0085}'
    || c == '\U{00A0}'
    || c == '\U{1680}'
    || ('\U{2000}' <= c <= '\U{200A}')
    || c == '\U{2028}'
    || c == '\U{2029}'
    || c == '\U{202F}'
    || c == '\U{205F}'
    || c == '\U{3000}'
  }

  /** Positions `lo` up to, not including, `hi` exist in `s` and hold whitespace. */
  predicate SpaceBetween(s: string, lo: int, hi: int)
  {
    forall k | lo <= k < hi :: 0 <= k < |s| && IsSpace(s[k])
  }

  /** Neither end of `s` is whitespace (vacuously true of the empty string). */
  predicate IsTrimmed(s: string)
  {
    s == [] || (!IsSpace(s[0]) && !IsSpace(s[|s| - 1]))
  }

  /** The first position at or after `i` that does not hold whitespace (`|s|` if there is none). */
  function SkipSpaceForward(s: string, i: nat): (n: nat)
    requires i <= |s|
    ensures i <= n <= |s|
    ensures SpaceBetween(s, i, n)
    ensures n < |s| ==> !IsSpace(s[n])
    decreases |s| - i
  {
    if i == |s| || !IsSpace(s[i]) then i else SkipSpaceForward(s, i + 1)
  }

  /**
    Scanning back from `j`, but not below `lo`: the end of the last
    non-whitespace character (`lo` if there is none).
   */
  function SkipSpaceBackward(s: string, lo: nat, j: nat): (m: nat)
    requires lo <= j <= |s|
    ensures lo <= m <= j
    ensures SpaceBetween(s, m, j)
    ensures lo < m ==> !IsSpace(s[m - 1])
    decreases j
  {
    if j == lo || !IsSpace(s[j - 1]) then j else SkipSpaceBackward(s, lo, j - 1)
  }

  /**
    Python's `s.strip()`: skip the whitespace at the front, then scan back
    from the end over whitespace, never past the front position.
   */
  function Strip(s: string): string
  {
    var i := SkipSpaceForward(s, 0);
    s[i..SkipSpaceBackward(s, i, |s|)]
  }

  /**
    `r` is what is left of `s` once whitespace is removed from both ends:
    `s` is some whitespace, then `r`, then some whitespace, and `r` neither
    starts nor ends with whitespace.
   */
  ghost predicate IsStripOf(r: string, s: string)
  {
    && IsTrimmed(r)
    && exists i, j :: 0 <= i <= j <= |s| && r == s[i..j] && SpaceBetween(s, 0, i) && SpaceBetween(s, j, |s|)
  }

  /** Where Strip cuts `s`: what it removes is whitespace, and what it keeps is trimmed. */
  lemma StripBounds(s: string) returns (i: nat, j: nat)
    ensures i <= j <= |s| && Strip(s) == s[i..j]
    ensures SpaceBetween(s, 0, i) && SpaceBetween(s, j, |s|)
    ensures IsTrimmed(Strip(s))
  {
    i := SkipSpaceForward(s, 0);
    j := SkipSpaceBackward(s, i, |s|);
    var r := s[i..j];
    if i < j {
      assert r[0] == s[i];
      assert r[|r| - 1] == s[j - 1];
    }
  }

  /** Strip computes exactly the one string that the characterisation admits. */
  lemma StripCharacterised(s: string, r: string)
    ensures IsStripOf(r, s) <==> r == Strip(s)
  {
  }

  /** Stripping twice is the same as stripping once. */
  lemma StripIdempotent(s: string)
    ensures Strip(Strip(s)) == Strip(s)
  {
    var i, j := StripBounds(s);
    var r := Strip(s);
    assert r == r[0..|r|] && SpaceBetween(r, 0, 0) && SpaceBetween(r, |r|, |r|);
    StripCharacterised(r, r);
  }

  /**
    A non-empty pattern without whitespace that occurs in `s` still occurs
    once `s` is stripped: the occurrence lies inside the kept middle part.
   */
  lemma StripKeepsOccurrence(s: string, pattern: string)
    requires pattern != []
    requires forall k :: 0 <= k < |pattern| ==> !IsSpace(pattern[k])
    requires Contains(s, pattern)
    ensures Contains(Strip(s), pattern)
  {
    ContainsIffOccurs(s, pattern);
    var i: nat :| OccursAt(s, pattern, i);
    var k := StripKeepsOccurrenceAt(s, pattern, i);
    ContainsIffOccurs(Strip(s), pattern);
  }

  /** The occurrence at `i` in `s` is found at `k` in the stripped string. */
  lemma StripKeepsOccurrenceAt(s: string, pattern: string, i: nat) returns (k: nat)
    requires pattern != []
    requires forall k :: 0 <= k < |pattern| ==> !IsSpace(pattern[k])
    requires OccursAt(s, pattern, i)
    ensures OccursAt(Strip(s), pattern, k)
  {
    var last := i + |pattern| - 1;
    assert s[i] == pattern[0] by { assert s[i..i + |pattern|][0] == s[i]; }
    assert s[last] == pattern[|pattern| - 1] by { assert s[i..i + |pattern|][|pattern| - 1] == s[last]; }
    var n := SkipSpaceForward(s, 0);
    var e := SkipSpaceBackward(s, n, |s|);
    assert Strip(s) == s[n..e];
    k := i - n;
    OccursInSlice(s, pattern, i, n, e);
  }

  /** An occurrence inside `s[n..e]` is an occurrence of that slice, shifted by `n`. */
  lemma OccursInSlice(s: string, pattern: string, i: nat, n: nat, e: nat)
    requires n <= i && i + |pattern| <= e <= |s| && OccursAt(s, pattern, i)
    ensures OccursAt(s[n..e], pattern, i - n)
  {
    var r := s[n..e];
    forall q | 0 <= q < |pattern| ensures r[i - n..i - n + |pattern|][q] == pattern[q] {
      assert r[i - n + q] == s[i + q];
      assert s[i..i + |pattern|][q] == s[i + q];
    }
    assert r[i - n..i - n + |pattern|] == pattern;
  }

  /** The number of bytes UTF-8 uses for the character `c`. */
  function Utf8Width(c: char): (n: nat)
    ensures 1 <= n <= 4
    ensures n == 1 <==> c < '\U{80}'
  {
    if c < '\U{80}' then 1 else if c < '\U{800}' then 2 else if c < '\U{10000}' then 3 else 4
  }

  /** The length in bytes of the UTF-8 encoding of `s`. */
  function Utf8Length(s: string): (n: nat)
    ensures |s| <= n <= 4 * |s|
  {
    if s == [] then 0 else Utf8Width(s[0]) + Utf8Length(s[1..])
  }

  /** Encoding a concatenation takes the bytes of both parts. */
  lemma {:induction false} Utf8LengthAppend(a: string, b: string)
    ensures Utf8Length(a + b) == Utf8Length(a) + Utf8Length(b)
  {
    if a != [] {
      assert (a + b)[0] == a[0];
      assert (a + b)[1..] == a[1..] + b;
      Utf8LengthAppend(a[1..], b);
    } else {
      assert a + b == b;
    }
  }

  /** A string takes one byte per character exactly when it is ASCII. */
  lemma {:induction false} Utf8LengthAscii(s: string)
    ensures Utf8Length(s) == |s| <==> forall k :: 0 <= k < |s| ==> s[k] < '\U{80}'
  {
    if s != [] {
      Utf8LengthAscii(s[1..]);
      assert forall k :: 1 <= k < |s| ==> s[1..][k - 1] == s[k];
      if Utf8Length(s) == |s| {
        assert Utf8Width(s[0]) == 1;
      }
    }
  }
}
