/** Printing an integer in a radix and reading it back. */
module Radix {
  import opened Bytes

  const DIGITS := 11

  // The character PrintInt stores for a digit.
  function DigitChar(d: nat): u8 {
    if d < 10 then d + 48 else (d + 65 - 10) % 0x100
  }

  // The digits of i, the most significant first; none for 0.
  function Numeral(i: nat, radix: nat): seq<u8>
    requires radix >= 2
  {
    if i == 0 then [] else Numeral(i / radix, radix) + [DigitChar(i % radix)]
  }

  function Printed(i: nat, radix: nat): seq<u8>
    requires radix >= 2
  {
    if i == 0 then [48] else Numeral(i, radix)
  }

  datatype Digit = Skipped | Digit(value: nat)

  // The digit string_to_int takes a character for.
  function DigitOf(c: u8): Digit {
    if 48 <= c <= 57 then Digit(c - 48)
    else if 65 <= c <= 90 then Digit(c - 0x37)
    else if 97 <= c <= 122 then Digit(c - 0x57)
    else Skipped
  }

  function Parse(s: seq<u8>, radix: nat): u32 {
    if s == [] then 0
    else
      var v := Parse(s[..|s| - 1], radix);
      match DigitOf(s[|s| - 1])
      case Skipped => v
      case Digit(d) => Wrap(Wrap(v * radix) + d)
  }

  function Reversed(s: seq<u8>): (r: seq<u8>)
    ensures |r| == |s| && forall k | 0 <= k < |s| :: r[k] == s[|s| - 1 - k]
  {
    if s == [] then [] else [s[|s| - 1]] + Reversed(s[..|s| - 1])
  }

  lemma NumeralStep(i: nat, radix: nat)
    requires radix >= 2 && i > 0
    ensures Numeral(i, radix) == Numeral(i / radix, radix) + [DigitChar(i % radix)]
  {
  }

  lemma ReversedStep(s: seq<u8>, c: u8)
    ensures Reversed(s + [c]) == [c] + Reversed(s)
  {
    assert (s + [c])[..|s|] == s;
  }

  lemma ParseStep(s: seq<u8>, c: u8, radix: nat)
    ensures Parse(s + [c], radix) ==
              match DigitOf(c)
              case Skipped => Parse(s, radix)
              case Digit(d) => Wrap(Wrap(Parse(s, radix) * radix) + d)
  {
    assert (s + [c])[..|s|] == s;
  }

  // The loop of PrintInt that stores the digits, the last one first.
  method StoreDigits(value: u32, radix: u8, digits: array<u8>) returns (offset: nat)
    requires radix >= 2 && |Numeral(value, radix)| <= digits.Length
    modifies digits
    ensures offset <= digits.Length && Reversed(digits[..offset]) == Numeral(value, radix)
  {
    hide Numeral, Reversed, DigitChar;
    offset := 0;
    var i: u32 := value;
    NothingToPrint(radix);
    assert digits[..0] == [];
    while i != 0
      invariant offset <= digits.Length
      invariant Numeral(value, radix) == Numeral(i, radix) + Reversed(digits[..offset])
      decreases i
    {
      ghost var before := digits[..offset];
      var rest, temp := TakeDigit(i, radix);
      StoredMore(Numeral(rest, radix), DigitChar(temp), before);
      StoreDigit(temp, digits, offset);
      i := rest;
      offset := offset + 1;
    }
  }

  method TakeDigit(i: u32, radix: u8) returns (rest: u32, temp: u8)
    requires radix >= 2 && i > 0
    ensures rest < i && Numeral(i, radix) == Numeral(rest, radix) + [DigitChar(temp)]
  {
    hide Numeral, DigitChar;
    Smaller(i, radix);
    NumeralStep(i, radix);
    rest, temp := i / radix, i % radix;
  }

  method StoreDigit(temp: u8, digits: array<u8>, offset: nat)
    requires offset < digits.Length
    modifies digits
    ensures digits[..offset + 1] == old(digits[..offset]) + [DigitChar(temp)]
  {
    if temp < 10 {
      digits[offset] := temp + 48;
    } else {
      digits[offset] := (temp + 65 - 10) % 0x100;
    }
  }

  // A digit moves from the front part to the stored, reversed part.
  lemma StoredMore(rest: seq<u8>, c: u8, stored: seq<u8>)
    ensures rest + [c] + Reversed(stored) == rest + Reversed(stored + [c])
    ensures |rest + [c] + Reversed(stored)| > |stored|
  {
    ReversedStep(stored, c);
    assert rest + [c] + Reversed(stored) == rest + ([c] + Reversed(stored));
  }

  lemma Smaller(i: nat, radix: nat)
    requires i > 0 && radix >= 2
    ensures i / radix < i && i % radix < radix
  {
    var q := i / radix;
    assert i == radix * q + i % radix;
    Scaled(q, 2, radix);
  }

  // PrintInt; `out` is what PrintChar was given.
  method PrintInt(value: u32, radix: u8) returns (out: seq<u8>)
    requires radix >= 2 && |Numeral(value, radix)| <= DIGITS
    ensures out == Printed(value, radix)
  {
    hide Numeral, Reversed;
    var digits := new u8[DIGITS];
    out := [];
    if value == 0 {
      return [48];
    }
    var offset := StoreDigits(value, radix, digits);
    while offset > 0
      invariant 0 <= offset <= DIGITS
      invariant out + Reversed(digits[..offset]) == Numeral(value, radix)
    {
      ReversedStep(digits[..offset - 1], digits[offset - 1]);
      assert digits[..offset] == digits[..offset - 1] + [digits[offset - 1]];
      out := out + [digits[offset - 1]];
      offset := offset - 1;
    }
    NothingToPrint(radix);
    assert digits[..0] == [];
  }

  lemma NothingToPrint(radix: nat)
    requires radix >= 2
    ensures Numeral(0, radix) == [] && Reversed([]) == []
  {
  }

  // The bytes of a string before its terminator.
  function CString(s: seq<u8>): seq<u8>
    requires 0 in s
  {
    if s[0] == 0 then [] else [s[0]] + CString(s[1..])
  }

  lemma CStringStep(s: seq<u8>)
    requires 0 in s
    ensures s[0] == 0 ==> CString(s) == []
    ensures s[0] != 0 ==> 0 in s[1..] && CString(s) == [s[0]] + CString(s[1..])
  {
  }

  // string_to_int of the string at `start`
  method StringToInt(memory: array<u8>, start: nat, radix: u32) returns (r: u32)
    requires start <= memory.Length && 0 in memory[start..]
    ensures r == Parse(CString(memory[start..]), radix)
    ensures r == Positional(DigitsIn(CString(memory[start..])), radix) % WORD
  {
    hide Parse, CString, DigitsIn, Positional;
    ParseIsPositional(CString(memory[start..]), radix);
    r := 0;
    ParseNothing(radix);
    var r0 := start;
    ghost var whole: seq<u8>, seen: seq<u8> := CString(memory[start..]), [];
    CStringStep(memory[r0..]);
    while memory[r0] != 0
      invariant start <= r0 < memory.Length && 0 in memory[r0..]
      invariant whole == seen + CString(memory[r0..]) && r == Parse(seen, radix)
      decreases memory.Length - r0
    {
      var c := memory[r0];
      CStringStep(memory[r0..]);
      ParseStep(seen, c, radix);
      assert memory[r0..][1..] == memory[r0 + 1..];
      r0 := r0 + 1;
      match DigitOf(c) {
        case Skipped =>
        case Digit(d) => r := Wrap(Wrap(r * radix) + d);
      }
      assert seen + ([c] + CString(memory[r0..])) == seen + [c] + CString(memory[r0..]);
      seen := seen + [c];
    }
    CStringStep(memory[r0..]);
    assert seen + [] == seen;
  }

  lemma ParseNothing(radix: nat)
    ensures Parse([], radix) == 0
  {
  }

  // ---------- digits ----------

  const UPPER := "0123456789ABCDEFGHIJKLMNOPQRSTUVWXYZ"
  const LOWER := "0123456789abcdefghijklmnopqrstuvwxyz"

  lemma Characters(d: nat)
    requires d < 36
    ensures UPPER[d] as int == (if d < 10 then 48 + d else 55 + d) && LOWER[d] as int == if d < 10 then 48 + d else 87 + d
  {
  }

  // A character is read as a digit exactly when it is that digit's in either case.
  lemma DigitsOfBothCases(c: u8, d: nat)
    requires d < 36
    ensures DigitOf(c) == Digit(d) <==> c == UPPER[d] as int || c == LOWER[d] as int
    ensures DigitOf(c).Digit? ==> DigitOf(c).value < 36
  {
    Characters(d);
    hide UPPER, LOWER;
  }

  // PrintInt prints the upper-case characters.
  lemma PrintedUpper(d: nat)
    requires d < 36
    ensures DigitChar(d) == UPPER[d] as int
  {
    Characters(d);
    hide UPPER, LOWER;
  }

  // The digits of a string, other characters left out.
  function DigitsIn(s: seq<u8>): seq<nat> {
    if s == [] then []
    else
      var before := DigitsIn(s[..|s| - 1]);
      match DigitOf(s[|s| - 1])
      case Skipped => before
      case Digit(d) => before + [d]
  }

  // The number with these digits: the sum of each digit times a power of the radix.
  function Positional(digits: seq<nat>, radix: nat): nat {
    if digits == [] then 0 else digits[0] * Power(radix, |digits| - 1) + Positional(digits[1..], radix)
  }

  lemma {:induction false} OneDigitMore(digits: seq<nat>, d: nat, radix: nat)
    ensures Positional(digits + [d], radix) == Positional(digits, radix) * radix + d
  {
    if digits == [] {
      assert digits + [d] == [d] && [d][1..] == [];
    } else {
      var rest := digits[1..];
      OneDigitMore(rest, d, radix);
      assert (digits + [d])[1..] == rest + [d];
      Factor(digits[0], radix, Power(radix, |digits| - 1), Positional(rest, radix));
    }
  }

  lemma Factor(a: nat, radix: nat, p: nat, q: nat)
    ensures a * (radix * p) + q * radix == (a * p + q) * radix
  {
  }

  // string_to_int computes that number modulo 2^32.
  lemma {:induction false} ParseIsPositional(s: seq<u8>, radix: nat)
    ensures Parse(s, radix) == Positional(DigitsIn(s), radix) % WORD
  {
    hide DigitOf, Wrap;
    if s != [] {
      var n := |s| - 1;
      ParseIsPositional(s[..n], radix);
      match DigitOf(s[n])
      case Skipped =>
      case Digit(d) =>
        OneDigitMore(DigitsIn(s[..n]), d, radix);
        WrapsOnce(Positional(DigitsIn(s[..n]), radix), radix, d);
    }
  }

  lemma WrapsOnce(v: nat, radix: nat, d: nat)
    ensures Wrap(Wrap(v % WORD * radix) + d) == (v * radix + d) % WORD
  {
    var q, r := v / WORD, v % WORD;
    var x := r * radix;
    assert v * radix == WORD * (q * radix) + x;
    Multiples(q * radix, x + d);
    WrapsSum(x, d);
  }

  lemma Multiples(q: nat, x: nat)
    ensures (WORD * q + x) % WORD == x % WORD
  {
  }

  lemma WrapsSum(x: nat, d: nat)
    ensures Wrap(Wrap(x) + d) == (x + d) % WORD
  {
  }

  // ---------- they undo each other ----------

  lemma DigitIsRead(d: nat)
    requires d < 36
    ensures DigitOf(DigitChar(d)) == Digit(d)
  {
  }

  lemma {:induction false} NumeralIsRead(i: u32, radix: nat)
    requires 2 <= radix <= 36
    ensures Parse(Numeral(i, radix), radix) == i
  {
    hide Parse, DigitChar, DigitOf, Wrap;
    if i > 0 {
      Smaller(i, radix);
      NumeralIsRead(i / radix, radix);
      DigitIsRead(i % radix);
      ParseStep(Numeral(i / radix, radix), DigitChar(i % radix), radix);
      Recombined(i, radix);
    } else {
      ParseNothing(radix);
    }
  }

  lemma {:induction false} ParseAgrees(s: seq<u8>, t: seq<u8>, radix: nat)
    requires |s| == |t| && forall k | 0 <= k < |s| :: DigitOf(s[k]) == DigitOf(t[k])
    ensures Parse(s, radix) == Parse(t, radix)
  {
    hide DigitOf, Wrap;
    if s != [] {
      ParseAgrees(s[..|s| - 1], t[..|t| - 1], radix);
    }
  }

  // t is s with some of its letters in lower case.
  predicate SameButCase(s: seq<u8>, t: seq<u8>) {
    |s| == |t| && forall k | 0 <= k < |s| :: t[k] == s[k] || (65 <= s[k] <= 90 && t[k] == s[k] + 32)
  }

  lemma AnyCaseIsRead(i: u32, radix: nat, t: seq<u8>)
    requires 2 <= radix <= 36 && SameButCase(Numeral(i, radix), t)
    ensures Parse(t, radix) == i
  {
    hide Numeral, Parse;
    NumeralIsRead(i, radix);
    ParseAgrees(Numeral(i, radix), t, radix);
  }

  lemma Recombined(i: u32, radix: nat)
    requires radix > 0
    ensures Wrap(Wrap(i / radix * radix) + i % radix) == i
  {
    Undivided(i / radix * radix, i % radix, i);
  }

  lemma Undivided(a: nat, b: nat, i: u32)
    requires a + b == i
    ensures Wrap(Wrap(a) + b) == i
  {
  }

  // ---------- the room for the digits ----------

  function Power(b: nat, k: nat): nat {
    if k == 0 then 1 else b * Power(b, k - 1)
  }

  // Division by a larger number gives no more, and by a smaller one no less.
  lemma Quotients(i: nat, a: nat, b: nat)
    requires 0 < a <= b
    ensures i / b <= i / a
  {
    var q, p := i / a, i / b;
    Scaled(p, a, b);
    Below(i, a, p);
  }

  lemma Scaled(n: nat, x: nat, y: nat)
    ensures x <= y ==> n * x <= n * y && x * n <= y * n
  {
    if x <= y {
      assert n * y == n * x + n * (y - x);
    }
  }

  lemma {:induction false} FewDigits(i: nat, radix: nat, k: nat)
    requires radix >= 8 && i < Power(8, k)
    ensures |Numeral(i, radix)| <= k
    decreases k
  {
    hide Numeral, Power, DigitChar;
    if i > 0 {
      PowerStep(i, 8, k);
      Quotients(i, 8, radix);
      NumeralStep(i, radix);
      FewDigits(i / radix, radix, k - 1);
    } else {
      NothingToPrint(radix);
    }
  }

  lemma {:induction false} ManyDigits(i: nat, radix: nat, k: nat)
    requires 2 <= radix <= 7 && i >= Power(7, k)
    ensures |Numeral(i, radix)| > k
    decreases k
  {
    hide Numeral, Power, DigitChar;
    PowerPositive(7, k);
    NumeralStep(i, radix);
    if k > 0 {
      PowerStep(i, 7, k);
      Quotients(i, radix, 7);
      ManyDigits(i / radix, radix, k - 1);
    }
  }

  lemma {:induction false} PowerPositive(b: nat, k: nat)
    requires b > 0
    ensures Power(b, k) > 0
  {
    if k > 0 {
      PowerPositive(b, k - 1);
      Scaled(b, 1, Power(b, k - 1));
    }
  }

  // A power bounds a number exactly when the power before it bounds the quotient.
  lemma PowerStep(i: nat, b: nat, k: nat)
    requires b > 0
    ensures i > 0 && i < Power(b, k) ==> k > 0
    ensures k > 0 ==> (i < Power(b, k) <==> i / b < Power(b, k - 1))
  {
    if k > 0 {
      Below(i, b, Power(b, k - 1));
    }
  }

  lemma Below(i: nat, b: nat, p: nat)
    requires b > 0
    ensures i < b * p <==> i / b < p
  {
    var q := i / b;
    if q < p {
      Scaled(b, q + 1, p);
    } else {
      Scaled(b, p, q);
    }
  }

  lemma Powers()
    ensures Power(8, DIGITS) >= WORD && Power(7, DIGITS) < WORD
  {
    assert Power(8, 4) == 4096 && Power(7, 4) == 2401;
    assert Power(8, 8) == 4096 * 4096 && Power(7, 8) == 2401 * 2401;
  }

  // PrintInt is safe for i and string_to_int reads back what it prints.
  ghost predicate RoundTrip(i: u32, radix: nat)
    requires radix >= 2
  {
    |Numeral(i, radix)| <= DIGITS && 0 !in Printed(i, radix) && Parse(Printed(i, radix), radix) == i
  }

  lemma {:induction false} NoTerminator(i: nat, radix: nat)
    requires 2 <= radix <= 36
    ensures 0 !in Numeral(i, radix)
  {
    if i > 0 {
      NoTerminator(i / radix, radix);
    }
  }

  // The round trip works for every integer exactly in the radices 8 to 36.
  lemma RoundTripsExactly(radix: nat)
    requires 2 <= radix < 0x100
    ensures (forall i: u32 :: RoundTrip(i, radix)) <==> 8 <= radix <= 36
  {
    Powers();
    if radix < 8 {
      ManyDigits(WORD - 1, radix, DIGITS);
      assert !RoundTrip(WORD - 1, radix);
    } else if radix > 36 {
      assert 36 / radix == 0 && 36 % radix == 36 && Numeral(0, radix) == [] && DigitChar(36) == 91;
      assert Printed(36, radix) == [] + [91];
      ParseStep([], 91, radix);
      assert !RoundTrip(36, radix);
    } else {
      forall i: u32 ensures RoundTrip(i, radix) {
        FewDigits(i, radix, DIGITS);
        NumeralIsRead(i, radix);
        NoTerminator(i, radix);
        if i == 0 {
          assert [48] == [] + [48];
          ParseStep([], 48, radix);
        }
      }
    }
  }
}
