/** Hexadecimal text in the EEPROM driver: the digit parser and the kernel's %0*x printer. */
module HexText {
  import opened Common

  function Pow2(k: nat): (p: nat)
    ensures p > 0
  {
    if k == 0 then 1 else 2 * Pow2(k - 1)
  }

  /** C's | on non-negative ints. */
  function BitOr(a: nat, b: nat): nat
    decreases a + b
  {
    if a == 0 then b else if b == 0 then a
    else 2 * BitOr(a / 2, b / 2) + if a % 2 == 1 || b % 2 == 1 then 1 else 0
  }

  /** Bit k of a. */
  predicate Bit(a: nat, k: nat) {
    if k == 0 then a % 2 == 1 else Bit(a / 2, k - 1)
  }

  /** BitOr sets exactly the bits that either number has. */
  lemma {:induction false} OrIsBitwise(a: nat, b: nat, k: nat)
    ensures Bit(BitOr(a, b), k) <==> Bit(a, k) || Bit(b, k)
    decreases k
  {
    ZeroBits(k);
    if a != 0 && b != 0 && k > 0 {
      OrIsBitwise(a / 2, b / 2, k - 1);
    }
  }

  lemma {:induction false} ZeroBits(k: nat)
    ensures !Bit(0, k)
  {
    if k > 0 {
      ZeroBits(k - 1);
    }
  }

  /** C's << on non-negative ints, without overflow. */
  function ShiftLeft(a: nat, k: nat): nat {
    a * Pow2(k)
  }

  predicate IsHex(c: char) {
    '0' <= c <= '9' || 'a' <= c <= 'f' || 'A' <= c <= 'F'
  }

  /** The character the parser subtracts; the shipped code leaves letters 10 short. */
  function BaseChar(c: char): char
    requires IsHex(c)
  {
    if '0' <= c <= '9' then '0' else if 'a' <= c <= 'f' then 'a' else 'A'
  }

  function DigitValue(repaired: bool, c: char): (d: nat)
    requires IsHex(c)
    ensures d < 16
  {
    (c as int - BaseChar(c) as int) + if repaired && !('0' <= c <= '9') then 10 else 0
  }

  /** The sixteen digits, in the two cases a user may write them; the printer uses the first. */
  const LOWER := "0123456789abcdef"
  const UPPER := "0123456789ABCDEF"

  /** What each digit is worth, and that there are no others: the shipped map starts again at 0 with the letters,
      and both maps treat the two cases alike. */
  lemma DigitTable(repaired: bool, i: nat)
    requires i < 16
    ensures IsHex(LOWER[i]) && IsHex(UPPER[i])
    ensures DigitValue(repaired, LOWER[i]) == DigitValue(repaired, UPPER[i]) == if i <= 9 || repaired then i else i - 10
  {
  }

  lemma HexChars(c: char)
    ensures IsHex(c) <==> c in LOWER || c in UPPER
  {
    if IsHex(c) {
      if c <= '9' {
        assert LOWER[c as int - '0' as int] == c;
      } else if c <= 'F' {
        assert UPPER[c as int - 'A' as int + 10] == c;
      } else {
        assert LOWER[c as int - 'a' as int + 10] == c;
      }
    }
  }

  ghost predicate AllHex(s: seq<char>, k: nat)
    requires k <= |s|
  {
    forall i :: 0 <= i < k ==> IsHex(s[i])
  }

  /** The positional base-16 value of the first k digits. */
  function Positional(repaired: bool, s: seq<char>, k: nat): nat
    requires k <= |s| && forall i :: 0 <= i < k ==> IsHex(s[i])
  {
    if k == 0 then 0 else 16 * Positional(repaired, s, k - 1) + DigitValue(repaired, s[k - 1])
  }

  lemma DoubleProduct(x: nat, y: nat)
    ensures 2 * (x * y) == (2 * x) * y
  {
  }

  // ----- Upper and lower case -----

  function UpperChar(c: char): char {
    if 'a' <= c <= 'z' then (c as int - 'a' as int + 'A' as int) as char else c
  }

  function LowerChar(c: char): char {
    if 'A' <= c <= 'Z' then (c as int - 'A' as int + 'a' as int) as char else c
  }

  function Upper(s: seq<char>): (t: seq<char>)
    ensures |t| == |s|
  {
    seq(|s|, i requires 0 <= i < |s| => UpperChar(s[i]))
  }

  function Lower(s: seq<char>): (t: seq<char>)
    ensures |t| == |s|
  {
    seq(|s|, i requires 0 <= i < |s| => LowerChar(s[i]))
  }

  /** The case of the letters does not matter to the parser, with either digit map. */
  lemma {:induction false} CaseBlind(repaired: bool, s: seq<char>, k: nat)
    requires k <= |s|
    ensures AllHex(Upper(s), k) <==> AllHex(s, k)
    ensures AllHex(s, k) ==> Positional(repaired, Upper(s), k) == Positional(repaired, s, k)
  {
    assert forall i :: 0 <= i < |s| ==> (IsHex(Upper(s)[i]) <==> IsHex(s[i]));
    if k > 0 {
      CaseBlind(repaired, s, k - 1);
    }
  }

  /** What the shipped map makes of a letter: the digit ten below. */
  function Short(c: char): char {
    if 'a' <= c <= 'f' then '0' + (c - 'a') else if 'A' <= c <= 'F' then '0' + (c - 'A') else c
  }

  function Shortened(s: seq<char>): (t: seq<char>)
    ensures |t| == |s|
  {
    seq(|s|, i requires 0 <= i < |s| => Short(s[i]))
  }

  /** The shipped parser reads every text as the repaired one reads it with each letter replaced. */
  lemma {:induction false} ShippedReads(s: seq<char>, k: nat)
    requires k <= |s| && AllHex(s, k)
    ensures AllHex(Shortened(s), k)
    ensures Positional(false, s, k) == Positional(true, Shortened(s), k)
  {
    if k > 0 {
      ShippedReads(s, k - 1);
    }
  }

  // ----- Powers of two -----

  lemma {:induction false} PowAdd(a: nat, b: nat)
    ensures Pow2(a + b) == Pow2(a) * Pow2(b)
  {
    if a > 0 {
      var x, y := Pow2(a - 1), Pow2(b);
      calc {
        Pow2(a + b);
      ==
        2 * Pow2(a - 1 + b);
      ==  { PowAdd(a - 1, b); }
        2 * (x * y);
      ==  { DoubleProduct(x, y); }
        (2 * x) * y;
      }
    }
  }

  /** One more hex digit multiplies by 16. */
  lemma PowDigit(m: nat)
    ensures Pow2(4 * (m + 1)) == 16 * Pow2(4 * m) && Pow2(0) == 1
  {
    PowAdd(4, 4 * m);
    assert Pow2(4) == 16 by { assert Pow2(2) == 4; }
  }

  lemma HalfMultiple(y: nat, p: nat)
    ensures y * (2 * p) == 2 * (y * p)
    ensures y * (2 * p) / 2 == y * p && y * (2 * p) % 2 == 0
  {
  }

  /** Or-ing numbers with no common bits adds them: x below bit k, a multiple of 2^k above. */
  lemma {:induction false} OrDisjoint(x: nat, y: nat, k: nat)
    requires x < Pow2(k)
    ensures BitOr(x, y * Pow2(k)) == x + y * Pow2(k)
    decreases k
  {
    if x != 0 && y * Pow2(k) != 0 {
      HalfMultiple(y, Pow2(k - 1));
      OrDisjoint(x / 2, y, k - 1);
    }
  }

  /** One digit of the parser's loop: or-ing it in below the digits so far. */
  lemma OrDigit(d: nat, high: nat, m: nat)
    requires d < 16
    ensures BitOr(ShiftLeft(d, 4 * m), high * Pow2(4 * (m + 1))) == (16 * high + d) * Pow2(4 * m)
  {
    var p := Pow2(4 * m);
    PowDigit(m);
    Products(d, high, p);
    OrDisjoint(d * p, high, 4 * (m + 1));
  }

  lemma Products(d: nat, high: nat, p: nat)
    requires d < 16 && p > 0
    ensures d * p < 16 * p
    ensures d * p + high * (16 * p) == (16 * high + d) * p
  {
  }

  /** convert_char_to_hex_reg: shift each digit into place and or it in. */
  method ConvertCharToHexReg(repaired: bool, input: seq<char>, count: nat) returns (ret: int, out: int)
    requires count <= |input|
    ensures ret == 0 <==> AllHex(input, count)
    ensures ret == 0 ==> out == Positional(repaired, input, count)
    ensures ret != 0 ==> ret == -1 && out == -1
  {
    hide BitOr, ShiftLeft, DigitValue, IsHex;
    out := 0;
    var i := 0;
    while i < count
      invariant 0 <= i <= count && AllHex(input, i) && out >= 0
      invariant out == Positional(repaired, input, i) * Pow2(4 * (count - i))
    {
      var c := input[i];
      if !IsHex(c) {
        return -1, -1;
      }
      OrDigit(DigitValue(repaired, c), Positional(repaired, input, i), count - 1 - i);
      out := BitOr(ShiftLeft(DigitValue(repaired, c), 4 * (count - 1 - i)), out);
      i := i + 1;
    }
    return 0, out;
  }

  /** k digits stay below 16^k, so up to seven of them never overflow a 32-bit int. */
  lemma {:induction false} PositionalBound(repaired: bool, s: seq<char>, k: nat)
    requires k <= |s| && AllHex(s, k)
    ensures Positional(repaired, s, k) < Pow2(4 * k)
  {
    if k > 0 {
      PositionalBound(repaired, s, k - 1);
      PowDigit(k - 1);
    }
  }

  lemma PowSixteen()
    ensures Pow2(8) == 256 && Pow2(16) == 65536
  {
  }

  // ----- Printing -----

  function HexDigit(n: nat): (c: char)
    requires n < 16
    ensures IsHex(c) && c == LOWER[n]
  {
    if n < 10 then '0' + n as char else 'a' + (n - 10) as char
  }

  /** %0wx of a number of at most w digits. */
  function Hex(v: nat, w: nat): (s: seq<char>)
    ensures |s| == w && forall i :: 0 <= i < w ==> IsHex(s[i])
  {
    if w == 0 then [] else Hex(v / 16, w - 1) + [HexDigit(v % 16)]
  }

  lemma DigitPrints(c: char)
    requires IsHex(c)
    ensures HexDigit(DigitValue(true, c)) == LowerChar(c)
  {
  }

  lemma HexAppend(v: nat, d: nat, w: nat)
    requires d < 16
    ensures Hex(16 * v + d, w + 1) == Hex(v, w) + [HexDigit(d)]
  {
    assert (16 * v + d) / 16 == v && (16 * v + d) % 16 == d;
  }

  lemma LowerAppend(s: seq<char>, k: nat)
    requires 0 < k <= |s|
    ensures Lower(s[..k]) == Lower(s[..k - 1]) + [LowerChar(s[k - 1])]
  {
  }

  /** Every text of hex digits, of either case, parses (repaired) to the number that prints as it in lower case. */
  lemma {:induction false} PrintParsed(s: seq<char>, k: nat)
    requires k <= |s| && AllHex(s, k)
    ensures Hex(Positional(true, s, k), k) == Lower(s[..k])
  {
    hide Hex, HexDigit, DigitValue, LowerChar, Lower, IsHex;
    if k > 0 {
      PrintParsed(s, k - 1);
      HexAppend(Positional(true, s, k - 1), DigitValue(true, s[k - 1]), k - 1);
      DigitPrints(s[k - 1]);
      LowerAppend(s, k);
    } else {
      NothingPrinted(Positional(true, s, 0), s);
    }
  }

  lemma NothingPrinted(v: nat, s: seq<char>)
    ensures Hex(v, 0) == Lower(s[..0])
  {
  }

  /** Every one of the w low hex digits of v is at most 9. */
  predicate DecimalDigits(v: nat, w: nat) {
    w == 0 || (v % 16 <= 9 && DecimalDigits(v / 16, w - 1))
  }

  lemma {:induction false} PositionalPrefix(repaired: bool, s: seq<char>, t: seq<char>, k: nat)
    requires k <= |s| && AllHex(s, k)
    ensures AllHex(s + t, k) && Positional(repaired, s + t, k) == Positional(repaired, s, k)
  {
    if k > 0 {
      PositionalPrefix(repaired, s, t, k - 1);
    }
  }

  lemma DigitOfHex(n: nat)
    requires n < 16
    ensures DigitValue(true, HexDigit(n)) == n
    ensures DigitValue(false, HexDigit(n)) == if n <= 9 then n else n - 10
  {
  }

  /** Parsing what was printed gives the number back with the repaired digit map, and a smaller number
      with the shipped map, the same exactly when no digit is a letter. */
  lemma {:induction false} ParsePrinted(v: nat, w: nat)
    requires v < Pow2(4 * w)
    ensures Positional(true, Hex(v, w), w) == v
    ensures Positional(false, Hex(v, w), w) <= v
    ensures Positional(false, Hex(v, w), w) == v <==> DecimalDigits(v, w)
    decreases w
  {
    hide Pow2, HexDigit, DigitValue, IsHex;
    PowDigit(if w > 0 then w - 1 else 0);
    if w > 0 {
      ParsePrinted(v / 16, w - 1);
      PositionalPrefix(true, Hex(v / 16, w - 1), [HexDigit(v % 16)], w - 1);
      PositionalPrefix(false, Hex(v / 16, w - 1), [HexDigit(v % 16)], w - 1);
      DigitOfHex(v % 16);
    }
  }
}
