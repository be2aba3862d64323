/** The digit filter of the change handler: `raw.replace(/\D/g, '')`.
    `\D` matches every character that is not an ASCII decimal digit, and the
    global flag removes all of them, so what is left is the digits of the raw
    text, in their original order. */
module Digits {

  predicate IsDigit(c: char) {
    '0' <= c <= '9'
  }

  predicate AllDigits(s: string) {
    forall i :: 0 <= i < |s| ==> IsDigit(s[i])
  }

  /** The text with every non-digit character removed. */
  function KeepDigits(s: string): (r: string)
    ensures AllDigits(r)
    ensures |r| <= |s|
  {
    if s == [] then []
    else (if IsDigit(s[0]) then [s[0]] else []) + KeepDigits(s[1..])
  }

  /** `sub` can be obtained from `s` by deleting characters (order kept):
      either both start with the same character and the rests match, or the
      first character of `s` is one of the deleted ones. */
  predicate IsSubsequence(sub: string, s: string)
    decreases |s|
  {
    sub == [] ||
    (s != [] &&
     ((sub[0] == s[0] && IsSubsequence(sub[1..], s[1..])) || IsSubsequence(sub, s[1..])))
  }

  /** The filtered text is an order-preserving subsequence of the raw text. */
  lemma {:induction false} KeepDigitsIsSubsequence(s: string)
    ensures IsSubsequence(KeepDigits(s), s)
  {
    if s != [] {
      KeepDigitsIsSubsequence(s[1..]);
      var r := KeepDigits(s);
      if IsDigit(s[0]) {
        assert r[0] == s[0] && r[1..] == KeepDigits(s[1..]);
      } else {
        assert r == KeepDigits(s[1..]);
      }
    }
  }

  /** Filtering distributes over concatenation. */
  lemma {:induction false} KeepDigitsAppend(a: string, b: string)
    ensures KeepDigits(a + b) == KeepDigits(a) + KeepDigits(b)
  {
    if a == [] {
      assert a + b == b;
    } else {
      var head := if IsDigit(a[0]) then [a[0]] else [];
      assert (a + b)[0] == a[0] && (a + b)[1..] == a[1..] + b;
      assert KeepDigits(a + b) == head + KeepDigits(a[1..] + b);
      assert KeepDigits(a) == head + KeepDigits(a[1..]);
      KeepDigitsAppend(a[1..], b);
      assert head + (KeepDigits(a[1..]) + KeepDigits(b)) == (head + KeepDigits(a[1..])) + KeepDigits(b);
    }
  }

  /** The filter leaves text alone exactly when it holds only digits. */
  lemma {:induction false} KeepDigitsFixedPoint(s: string)
    ensures KeepDigits(s) == s <==> AllDigits(s)
  {
    if s != [] {
      KeepDigitsFixedPoint(s[1..]);
      if !IsDigit(s[0]) {
        // The result is shorter than s, so the two cannot be equal.
        assert |KeepDigits(s)| <= |s[1..]| < |s|;
      } else {
        assert AllDigits(s) <==> AllDigits(s[1..]);
      }
    }
  }

  /** Filtering twice is the same as filtering once. */
  lemma KeepDigitsIdempotent(s: string)
    ensures KeepDigits(KeepDigits(s)) == KeepDigits(s)
  {
    KeepDigitsFixedPoint(KeepDigits(s));
  }

  /** Every digit of the raw text survives, as often as it occurs; every
      other character is dropped. */
  lemma {:induction false} KeepDigitsCounts(s: string, c: char)
    ensures multiset(KeepDigits(s))[c] == if IsDigit(c) then multiset(s)[c] else 0
  {
    if s != [] {
      KeepDigitsCounts(s[1..], c);
      assert s == [s[0]] + s[1..];
      assert multiset(s) == multiset([s[0]]) + multiset(s[1..]);
    }
  }

  /** Typing "a1b2c3" leaves "123". */
  lemma ExampleLettersStripped()
    ensures KeepDigits("a1b2c3") == "123"
  {
  }
}
