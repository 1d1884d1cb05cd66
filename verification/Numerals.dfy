/**
 What %d prints and scans, character by character: decimal digits, most significant first, and what
 counts as a blank, a sign and a word (sections 7.21.6.1 and 7.21.6.2 of ISO/IEC 9899:2011).
 */
module Numerals {
  import opened Division
  import opened Options
  import opened Word32
  import opened TextFormat

  /** `s` consists of decimal digits and has the value `n`: the digit k places from the end is that of 10^k. */
  predicate IsDecimal(s: seq<byte>, n: nat) {
    && s != [] && n < Pow10(|s|)
    && (forall i :: 0 <= i < |s| ==> 48 <= s[i] <= 57)
    && forall k :: 0 <= k < |s| ==> s[|s| - 1 - k] == 48 + DigitOf(n, k)
  }

  function DigitOf(n: nat, k: nat): nat {
    PowPositive(k);
    n / Pow10(k) % 10
  }

  lemma {:induction false} PowPositive(k: nat)
    ensures Pow10(k) > 0
  {
    if k > 0 {
      PowPositive(k - 1);
    }
  }

  lemma {:induction false} DivideTwice(n: nat, d: nat)
    requires d > 0
    ensures n / (10 * d) == n / 10 / d
  {
    var q, r := n / 10, n % 10;
    var p, s := q / d, q % d;
    assert n == 10 * (d * p + s) + r;
    assert 10 * (d * p + s) == (10 * d) * p + 10 * s;
    QuotientUnique(10 * d, p, 10 * s + r);
  }

  lemma {:induction false} NextDigit(n: nat, k: nat)
    requires k > 0
    ensures DigitOf(n, k) == DigitOf(n / 10, k - 1)
  {
    PowPositive(k - 1);
    DivideTwice(n, Pow10(k - 1));
  }

  lemma {:induction false} LastDigit(n: nat)
    ensures DigitOf(n, 0) == n % 10
  {
  }

  /** Appending the digit of a number below ten. */
  lemma {:induction false} DecimalAppend(s: seq<byte>, n: nat, c: nat)
    requires IsDecimal(s, n) && c < 10
    ensures IsDecimal(s + [48 + c], 10 * n + c)
  {
    var t, m := s + [48 + c], 10 * n + c;
    assert m / 10 == n && m % 10 == c;
    forall k | 0 <= k < |t|
      ensures t[|t| - 1 - k] == 48 + DigitOf(m, k)
    {
      if k == 0 {
        LastDigit(m);
      } else {
        NextDigit(m, k);
        assert t[|t| - 1 - k] == s[|s| - 1 - (k - 1)];
      }
    }
  }

  lemma {:induction false} DecimalDigit(c: nat)
    requires c < 10
    ensures IsDecimal([48 + c], c)
  {
    LastDigit(c);
    assert Pow10(1) == 10 * Pow10(0);
  }

  /** A digit string has one value only. */
  lemma {:induction false} DecimalUnique(s: seq<byte>, m: nat, n: nat)
    requires IsDecimal(s, m) && IsDecimal(s, n)
    ensures m == n
  {
    LastDigit(m);
    LastDigit(n);
    assert s[|s| - 1 - 0] == 48 + DigitOf(m, 0) == 48 + DigitOf(n, 0);
    if |s| > 1 {
      DecimalFront(s, m);
      DecimalFront(s, n);
      DecimalUnique(s[..|s| - 1], m / 10, n / 10);
    } else {
      assert Pow10(1) == 10 * Pow10(0);
    }
  }

  lemma {:induction false} DecimalFront(s: seq<byte>, n: nat)
    requires IsDecimal(s, n) && |s| > 1
    ensures IsDecimal(s[..|s| - 1], n / 10)
  {
    var t := s[..|s| - 1];
    assert Pow10(|s|) == 10 * Pow10(|t|);
    forall k | 0 <= k < |t|
      ensures t[|t| - 1 - k] == 48 + DigitOf(n / 10, k)
    {
      NextDigit(n, k + 1);
      assert t[|t| - 1 - k] == s[|s| - 1 - (k + 1)];
    }
  }

  // ---------------------------------------------------------------- printing

  lemma {:induction false} PrintedIsDecimal(n: nat)
    ensures IsDecimal(PrintNat(n), n) && (n > 0 ==> PrintNat(n)[0] != 48) && (n == 0 ==> PrintNat(n) == [48])
  {
    if n < 10 {
      DecimalDigit(n);
    } else {
      PrintedIsDecimal(n / 10);
      DecimalAppend(PrintNat(n / 10), n / 10, n % 10);
    }
  }

  /**
   %d prints the digits of the number, most significant first, without leading zeros; words of 2^31
   and above are printed as a minus sign and the digits of what is missing to 2^32.
   */
  lemma {:induction false} PrintedNumber(bits: u32)
    ensures var s := PrintValue(Num(bits));
      && s != []
      && (s[0] == 45 <==> bits >= 0x8000_0000)
      && (bits < 0x8000_0000 ==> IsDecimal(s, bits) && (s[0] == 48 ==> s == [48]))
      && (bits >= 0x8000_0000 ==> IsDecimal(s[1..], 0x1_0000_0000 - bits) && s[1] != 48)
  {
    PrintedIsDecimal(Magnitude(bits));
    assert Magnitude(bits) == if bits < 0x8000_0000 then bits else 0x1_0000_0000 - bits;
    if bits >= 0x8000_0000 {
      assert PrintValue(Num(bits))[1..] == PrintNat(Magnitude(bits));
    }
  }

  // ---------------------------------------------------------------- scanning

  predicate AllBlank(s: seq<byte>) {
    forall i :: 0 <= i < |s| ==> s[i] == 32 || 9 <= s[i] <= 13
  }

  predicate StartsBlank(s: seq<byte>) {
    s != [] && (s[0] == 32 || 9 <= s[0] <= 13)
  }

  predicate StartsDigit(s: seq<byte>) {
    s != [] && 48 <= s[0] <= 57
  }

  lemma {:induction false} ValueOfAppend(s: seq<byte>, c: nat)
    requires c < 10
    ensures NatOf(s + [48 + c]) == 10 * NatOf(s) + c
  {
    assert (s + [48 + c])[..|s|] == s;
  }

  lemma {:induction false} ScannedAppend(s: seq<byte>, c: nat)
    requires c < 10 && NatOf(s) >= 0 && IsDecimal(s, NatOf(s))
    ensures NatOf(s + [48 + c]) >= 0 && IsDecimal(s + [48 + c], NatOf(s + [48 + c]))
  {
    ValueOfAppend(s, c);
    DecimalAppend(s, NatOf(s), c);
  }

  lemma {:induction false} ScannedOne(c: nat)
    requires c < 10
    ensures NatOf([48 + c]) == c && IsDecimal([48 + c], NatOf([48 + c]))
  {
    assert [48 + c][..0] == [];
    DecimalDigit(c);
  }

  predicate AllDigits(s: seq<byte>) {
    s != [] && forall i :: 0 <= i < |s| ==> 48 <= s[i] <= 57
  }

  lemma {:induction false} DigitsSplit(s: seq<byte>)
    requires AllDigits(s)
    ensures s == s[..|s| - 1] + [48 + (s[|s| - 1] - 48)] && 48 <= s[|s| - 1] <= 57
    ensures |s| > 1 ==> AllDigits(s[..|s| - 1])
    ensures |s| == 1 ==> s == [48 + (s[0] - 48)]
  {
  }

  /** The value that scanning gives a digit string is the one it has by its digits. */
  lemma {:induction false} ScannedIsDecimal(s: seq<byte>)
    requires AllDigits(s)
    ensures NatOf(s) >= 0 && IsDecimal(s, NatOf(s))
    decreases |s|
  {
    DigitsSplit(s);
    var c := s[|s| - 1] - 48;
    if |s| == 1 {
      ScannedOne(c);
    } else {
      ScannedIsDecimal(s[..|s| - 1]);
      ScannedAppend(s[..|s| - 1], c);
    }
  }

  lemma {:induction false} BlanksSkipped(blanks: seq<byte>, s: seq<byte>)
    requires AllBlank(blanks) && !StartsBlank(s)
    ensures SkipBlanks(blanks + s) == s
  {
    SpanOf(blanks, s, IsBlank);
    assert (blanks + s)[|blanks|..] == s;
  }

  lemma {:induction false} DigitsScanned(digits: seq<byte>, n: nat, rest: seq<byte>, negative: bool)
    requires IsDecimal(digits, n) && !StartsDigit(rest)
    ensures ScanDigits(digits + rest, negative) == Some((Num(Wrap(if negative then -(n as int) else n)), rest))
  {
    SpanOf(digits, rest, IsDigit);
    ScannedIsDecimal(digits);
    DecimalUnique(digits, n, NatOf(digits));
    assert (digits + rest)[..|digits|] == digits && (digits + rest)[|digits|..] == rest;
  }

  lemma {:induction false} FirstByte(s: seq<byte>, rest: seq<byte>)
    requires s != []
    ensures (s + rest)[0] == s[0]
  {
  }

  lemma {:induction false} NothingInFront(s: seq<byte>)
    ensures [] + s == s
  {
  }

  lemma {:induction false} UnsignedScanned(digits: seq<byte>, n: nat, rest: seq<byte>)
    requires IsDecimal(digits, n) && !StartsDigit(rest)
    ensures ScanNumber(digits + rest) == Some((Num(Wrap(n)), rest))
  {
    DigitsScanned(digits, n, rest, false);
    FirstByte(digits, rest);
  }

  lemma {:induction false} SignedScanned(sign: byte, digits: seq<byte>, n: nat, rest: seq<byte>)
    requires (sign == 43 || sign == 45) && IsDecimal(digits, n) && !StartsDigit(rest)
    ensures ScanNumber([sign] + (digits + rest)) == Some((Num(Wrap(if sign == 45 then -(n as int) else n)), rest))
  {
    DigitsScanned(digits, n, rest, sign == 45);
    assert ([sign] + (digits + rest))[1..] == digits + rest;
  }

  lemma {:induction false} ScanBehindBlanks(blanks: seq<byte>, s: seq<byte>)
    requires AllBlank(blanks) && !StartsBlank(s)
    ensures ScanOne(Dec, blanks + s) == ScanNumber(s)
  {
    BlanksSkipped(blanks, s);
  }

  /**
   %d skips blanks, takes an optional sign and all digits that follow, and assigns their decimal value,
   modulo 2^32; leading zeros do not matter.
   */
  lemma {:induction false} ScannedNumber(blanks: seq<byte>, sign: seq<byte>, digits: seq<byte>, n: nat, rest: seq<byte>)
    requires AllBlank(blanks) && (sign == [] || sign == [43] || sign == [45])
    requires IsDecimal(digits, n) && !StartsDigit(rest)
    ensures ScanOne(Dec, blanks + (sign + (digits + rest))) ==
      Some((Num(Wrap(if sign == [45] then -(n as int) else n)), rest))
  {
    if sign == [] {
      UnsignedScanned(digits, n, rest);
      FirstByte(digits, rest);
      ScanBehindBlanks(blanks, digits + rest);
      NothingInFront(digits + rest);
    } else {
      SignedScanned(sign[0], digits, n, rest);
      ScanBehindBlanks(blanks, [sign[0]] + (digits + rest));
    }
  }

  /** Without a digit behind blanks and sign %d fails. */
  lemma {:induction false} NothingScanned(blanks: seq<byte>, sign: seq<byte>, rest: seq<byte>)
    requires AllBlank(blanks) && (sign == [] || sign == [43] || sign == [45])
    requires !StartsDigit(rest)
    requires sign == [] ==> !StartsBlank(rest) && (rest != [] ==> rest[0] != 43 && rest[0] != 45)
    ensures ScanOne(Dec, blanks + (sign + rest)) == None
  {
    var s := sign + rest;
    BlanksSkipped(blanks, s);
    if sign == [] {
      assert s == rest;
    } else {
      assert s[1..] == rest;
    }
  }

  /** %s skips blanks and takes everything up to the next blank, if it fits its block; an empty word fails. */
  lemma {:induction false} ScannedWord(blanks: seq<byte>, word: seq<byte>, rest: seq<byte>, block: nat)
    requires AllBlank(blanks) && (rest == [] || StartsBlank(rest))
    requires forall i :: 0 <= i < |word| ==> !(word[i] == 32 || 9 <= word[i] <= 13)
    requires word == [] ==> rest == []
    ensures ScanOne(Word(block), blanks + (word + rest)) ==
      if 0 < |word| < block then Some((Text(word), rest)) else None
  {
    var s := word + rest;
    BlanksSkipped(blanks, s);
    SpanOf(word, rest, NotBlank);
    assert s[..|word|] == word && s[|word|..] == rest;
  }
}
