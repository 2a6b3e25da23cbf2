/** Character classes and string helpers that the page script borrows from
    JavaScript's regular expressions: the `\s` class and `s.replace(/\s/g, '')`. */
module JsText {

  /** The code points JavaScript's `\s` matches: the ECMAScript WhiteSpace
      production (TAB, VT, FF, SP, NBSP, ZWNBSP and every Unicode Zs space)
      together with the LineTerminator production (LF, CR, LS, PS). */
  predicate IsWs(c: char)
  {
    var n := c as int;
    || (0x09 <= n <= 0x0D)        // TAB, LF, VT, FF, CR
    || n == 0x20                  // SPACE
    || n == 0xA0                  // NO-BREAK SPACE
    || n == 0x1680                // OGHAM SPACE MARK
    || (0x2000 <= n <= 0x200A)    // EN QUAD .. HAIR SPACE
    || n == 0x2028 || n == 0x2029 // LINE SEPARATOR, PARAGRAPH SEPARATOR
    || n == 0x202F                // NARROW NO-BREAK SPACE
    || n == 0x205F                // MEDIUM MATHEMATICAL SPACE
    || n == 0x3000                // IDEOGRAPHIC SPACE
    || n == 0xFEFF                // ZERO WIDTH NO-BREAK SPACE
  }

  /** The regex class `[0-9]`: ASCII digits only. */
  predicate IsAsciiDigit(c: char)
  {
    '0' <= c <= '9'
  }

  /** Every character of `s` is an ASCII digit. */
  predicate AllDigits(s: string)
  {
    forall k :: 0 <= k < |s| ==> IsAsciiDigit(s[k])
  }

  /** No character of `s` is matched by `\s`. */
  predicate NoWs(s: string)
  {
    forall k :: 0 <= k < |s| ==> !IsWs(s[k])
  }

  /** `s.replace(/\s/g, '')`: every whitespace character removed, the others
      kept in order. */
  function StripWs(s: string): (r: string)
    ensures NoWs(r)
    ensures |r| <= |s|
    ensures forall c :: c in r <==> c in s && !IsWs(c)
  {
    if s == [] then []
    else if IsWs(s[0]) then StripWs(s[1..])
    else [s[0]] + StripWs(s[1..])
  }

  /** Stripping distributes over concatenation, so the result is exactly the
      non-whitespace characters of `s` in their original order. */
  lemma {:induction false} StripWsAppend(a: string, b: string)
    ensures StripWs(a + b) == StripWs(a) + StripWs(b)
  {
    if a == [] {
      assert a + b == b;
    } else {
      assert (a + b)[0] == a[0];
      assert (a + b)[1..] == a[1..] + b;
      StripWsAppend(a[1..], b);
    }
  }

  /** A string without whitespace is left as it is. */
  lemma {:induction false} StripWsOfClean(s: string)
    requires NoWs(s)
    ensures StripWs(s) == s
  {
    if s != [] {
      assert NoWs(s[1..]) by {
        forall k | 0 <= k < |s[1..]| ensures !IsWs(s[1..][k]) {
          assert s[1..][k] == s[k + 1];
        }
      }
      StripWsOfClean(s[1..]);
    }
  }

  /** Removing whitespace twice is the same as removing it once. */
  lemma StripWsIdempotent(s: string)
    ensures StripWs(StripWs(s)) == StripWs(s)
  {
    StripWsOfClean(StripWs(s));
  }

  /** A string made of whitespace only strips to the empty string. */
  lemma {:induction false} StripWsOfBlank(s: string)
    requires forall k :: 0 <= k < |s| ==> IsWs(s[k])
    ensures StripWs(s) == []
  {
    if s != [] {
      assert forall k :: 0 <= k < |s[1..]| ==> IsWs(s[1..][k]) by {
        forall k | 0 <= k < |s[1..]| ensures IsWs(s[1..][k]) {
          assert s[1..][k] == s[k + 1];
        }
      }
      StripWsOfBlank(s[1..]);
    }
  }
}
