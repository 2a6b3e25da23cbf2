/** The integer parts of the page's animations: the stagger delays of the
    benefit and requirement items, and the text the number counter ends on. */
module Animation {
  import opened JsText

  // ---------------------------------------------------------------------
  // Stagger delays

  /** Milliseconds before an intersecting benefit item gets its `active`
      class, where `index` is the entry's position in the observer's batch
      (intersecting or not). */
  function BenefitDelay(index: nat): nat
  {
    index * 100
  }

  /** Milliseconds before an intersecting requirement item gets its `active`
      class, where `index` is the entry's position in the observer's batch
      (intersecting or not). */
  function RequirementDelay(index: nat): nat
  {
    index * 80
  }

  /** The entry at position 0 of a batch is not delayed, delays never
      decrease along the batch, and entries at consecutive positions are
      100 ms and 80 ms apart. */
  lemma StaggerOrder(i: nat, j: nat)
    requires i <= j
    ensures BenefitDelay(0) == 0 && RequirementDelay(0) == 0
    ensures BenefitDelay(i) <= BenefitDelay(j) && RequirementDelay(i) <= RequirementDelay(j)
    ensures BenefitDelay(i + 1) == BenefitDelay(i) + 100
    ensures RequirementDelay(i + 1) == RequirementDelay(i) + 80
    ensures i < j ==> BenefitDelay(i) < BenefitDelay(j) && RequirementDelay(i) < RequirementDelay(j)
  {
  }

  // ---------------------------------------------------------------------
  // The counter's final text

  /** The decimal digit character for `d`. */
  function DigitChar(d: nat): (c: char)
    requires d < 10
    ensures IsAsciiDigit(c) && c as int - '0' as int == d
  {
    (('0' as int) + d) as char
  }

  /** The number a string of decimal digits denotes, leading zeros allowed. */
  function DecimalValue(s: string): nat
    requires AllDigits(s)
  {
    if s == [] then 0
    else DecimalValue(s[..|s| - 1]) * 10 + (s[|s| - 1] as int - '0' as int)
  }

  /** `n.toString()` for a non-negative integer: its decimal digits, no
      leading zero except for 0 itself. */
  function DecimalString(n: nat): (s: string)
    ensures |s| >= 1 && AllDigits(s)
    ensures n == 0 ==> s == "0"
    ensures n > 0 ==> s[0] != '0'
    ensures DecimalValue(s) == n
    decreases n
  {
    if n < 10 then [DigitChar(n)]
    else
      var s := DecimalString(n / 10) + [DigitChar(n % 10)];
      assert s[..|s| - 1] == DecimalString(n / 10);
      s
  }

  /** `s.padStart(target, fill)` with a one-character fill: `fill` repeated
      in front of `s` up to length `target`; `s` itself when already long
      enough. */
  function PadStart(s: string, target: nat, fill: char): (r: string)
    ensures |r| == if |s| >= target then |s| else target
    ensures r[|r| - |s|..] == s
    ensures forall k :: 0 <= k < |r| - |s| ==> r[k] == fill
  {
    if |s| >= target then s else seq(target - |s|, _ => fill) + s
  }

  /** Zeros in front of a digit string do not change the number it denotes. */
  lemma {:induction false} LeadingZeros(z: string, s: string)
    requires forall k :: 0 <= k < |z| ==> z[k] == '0'
    requires AllDigits(s)
    ensures AllDigits(z + s)
    ensures DecimalValue(z + s) == DecimalValue(s)
  {
    if s == [] {
      assert z + s == z;
      if z != [] {
        LeadingZeros(z[..|z| - 1], []);
        assert z[..|z| - 1] + [] == z[..|z| - 1];
      }
    } else {
      var t := z + s;
      assert t[..|t| - 1] == z + s[..|s| - 1];
      LeadingZeros(z, s[..|s| - 1]);
    }
  }

  /** A one-character digit string denotes a number below ten. */
  lemma SingleDigitBelowTen(s: string)
    requires AllDigits(s)
    ensures |s| == 1 ==> DecimalValue(s) < 10
  {
    assert s[..0] == [];
  }

  /** `end.toString().padStart(2, '0')`, the text the counter stops on. It
      has at least two digits, reads back as `end`, is the plain decimal
      form from 10 on, and is '0' followed by the digit below 10. */
  function CounterText(end: nat): (t: string)
    ensures |t| >= 2 && AllDigits(t)
    ensures DecimalValue(t) == end
    ensures end >= 10 ==> t == DecimalString(end)
    ensures end < 10 ==> t == ['0', DigitChar(end)]
  {
    var s := DecimalString(end);
    var t := PadStart(s, 2, '0');
    LeadingZeros(t[..|t| - |s|], s);
    assert t == t[..|t| - |s|] + s;
    SingleDigitBelowTen(s);
    t
  }

  /** A digit string whose first digit is not '0' denotes a positive number. */
  lemma {:induction false} LeadingNonzeroPositive(s: string)
    requires |s| >= 1 && AllDigits(s) && s[0] != '0'
    ensures DecimalValue(s) > 0
  {
    if |s| > 1 {
      var p := s[..|s| - 1];
      assert p[0] == s[0];
      LeadingNonzeroPositive(p);
    }
  }

  /** Appending digit `d` to the decimal form of `q` and reading it back. */
  lemma AppendDigit(q: nat, d: nat)
    requires d < 10
    ensures (q * 10 + d) / 10 == q && (q * 10 + d) % 10 == d
  {
  }

  /** Printing the number a canonical digit string denotes gives the string
      back: `DecimalString` is the inverse of `DecimalValue` on strings with
      no leading zero. */
  lemma {:induction false} CanonicalDigits(s: string)
    requires |s| >= 1 && AllDigits(s) && (|s| > 1 ==> s[0] != '0')
    ensures DecimalString(DecimalValue(s)) == s
  {
    var p := s[..|s| - 1];
    var d := s[|s| - 1] as int - '0' as int;
    assert DigitChar(d) == s[|s| - 1];
    assert DecimalValue(s) == DecimalValue(p) * 10 + d;
    if |s| == 1 {
      assert p == [];
    } else {
      assert p[0] == s[0];
      LeadingNonzeroPositive(p);
      CanonicalDigits(p);
      var q := DecimalValue(p);
      AppendDigit(q, d);
      assert DecimalString(q * 10 + d) == DecimalString(q) + [DigitChar(d)];
      assert s == p + [s[|s| - 1]];
    }
  }

  /** A two-digit counter text, read as a number and animated up to that
      number, ends showing the same text ("01" stays "01", "25" stays "25"). */
  lemma TwoDigitTextRestored(t: string)
    requires |t| == 2 && AllDigits(t)
    ensures CounterText(DecimalValue(t)) == t
  {
    var v := DecimalValue(t);
    var hi, lo := t[0] as int - '0' as int, t[1] as int - '0' as int;
    assert t[..1][..0] == [];
    assert DecimalValue(t[..1]) == hi;
    assert v == hi * 10 + lo;
    if hi == 0 {
      assert DigitChar(lo) == t[1];
    } else {
      CanonicalDigits(t);
    }
  }
}
