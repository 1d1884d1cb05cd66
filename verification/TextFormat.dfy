/**
 The part of formatted output and input that src/network/protocol.c uses, following sections
 7.21.6.1 and 7.21.6.2 of ISO/IEC 9899:2011: %d and %s conversions, one blank between two of them and
 blanks at the end.  Characters are bytes; a C string ends before its first zero byte.  All inductions
 in the modules about text are explicit.
 */
module TextFormat {
  import opened Options
  import opened Word32

  /** %d, and %s into a block of so many bytes. */
  datatype Conv = Dec | Word(block: nat)

  /** An argument: a 32-bit object passed to %d, or a string passed to %s. */
  datatype Value = Num(bits: u32) | Text(chars: seq<byte>)

  const BLANK: byte := 32
  const MINUS: byte := 45
  const PLUS: byte := 43
  const ZERO: byte := 48

  predicate IsBlank(c: byte) {
    c == 32 || 9 <= c <= 13
  }

  predicate IsDigit(c: byte) {
    48 <= c <= 57
  }

  /** Neither zero nor one of space, tab, line feed, vertical tab, form feed and carriage return. */
  predicate IsGraph(c: byte) {
    c != 0 && c != 32 && !(9 <= c <= 13)
  }

  predicate NotBlank(c: byte) {
    !IsBlank(c)
  }

  predicate NotZero(c: byte) {
    c != 0
  }

  /** How many leading elements satisfy `p`. */
  function Span(s: seq<byte>, p: byte -> bool): (n: nat)
    ensures n <= |s|
  {
    if s == [] || !p(s[0]) then 0 else 1 + Span(s[1..], p)
  }

  function CString(s: seq<byte>): seq<byte> {
    s[..Span(s, NotZero)]
  }

  // ---------------------------------------------------------------- printing

  function PrintNat(n: nat): seq<byte> {
    if n < 10 then [ZERO + n] else PrintNat(n / 10) + [ZERO + n % 10]
  }

  /** The absolute value of a word read as a signed number. */
  function Magnitude(bits: u32): nat {
    if AsSigned(bits) < 0 then 0 - (AsSigned(bits) as int) else AsSigned(bits)
  }

  /** %d reads its 32-bit argument as a signed number. */
  function PrintValue(v: Value): seq<byte> {
    match v
    case Num(bits) => if AsSigned(bits) < 0 then [MINUS] + PrintNat(Magnitude(bits)) else PrintNat(Magnitude(bits))
    case Text(chars) => chars
  }

  function Sprintf(vals: seq<Value>, tail: seq<byte>): seq<byte> {
    if vals == [] then tail
    else if |vals| == 1 then PrintValue(vals[0]) + tail
    else PrintValue(vals[0]) + [BLANK] + Sprintf(vals[1..], tail)
  }

  // ---------------------------------------------------------------- scanning

  function SkipBlanks(s: seq<byte>): seq<byte> {
    s[Span(s, IsBlank)..]
  }

  function NatOf(digits: seq<byte>): int {
    if digits == [] then 0 else 10 * NatOf(digits[..|digits| - 1]) + digits[|digits| - 1] - 48
  }

  /** A word that does not fit its block, terminator included, is a failure; in C it is written past the block. */
  function ScanWord(s: seq<byte>, block: nat): Option<(Value, seq<byte>)> {
    var n := Span(s, NotBlank);
    if n == 0 || n >= block then None else Some((Text(s[..n]), s[n..]))
  }

  function ScanDigits(s: seq<byte>, negative: bool): Option<(Value, seq<byte>)> {
    var n := Span(s, IsDigit);
    if n == 0 then None
    else Some((Num(Wrap(if negative then -NatOf(s[..n]) else NatOf(s[..n]))), s[n..]))
  }

  function ScanNumber(s: seq<byte>): Option<(Value, seq<byte>)> {
    if s != [] && (s[0] == MINUS || s[0] == PLUS) then ScanDigits(s[1..], s[0] == MINUS) else ScanDigits(s, false)
  }

  /** One conversion: blanks are skipped, then the longest matching input is taken; None is a matching failure. */
  function ScanOne(c: Conv, input: seq<byte>): Option<(Value, seq<byte>)> {
    match c
    case Word(block) => ScanWord(SkipBlanks(input), block)
    case Dec => ScanNumber(SkipBlanks(input))
  }

  /** The values assigned before the first failure; the blank between two conversions skips blanks. */
  function Sscanf(convs: seq<Conv>, input: seq<byte>): (vals: seq<Value>)
    ensures |vals| <= |convs|
    decreases |convs|
  {
    if convs == [] then []
    else
      match ScanOne(convs[0], input)
      case None => []
      case Some((v, rest)) => [v] + Sscanf(convs[1..], SkipBlanks(rest))
  }

  // ---------------------------------------------------------------- round trip

  /** Strings must be non-empty and free of blanks and zero bytes. */
  predicate Printable(v: Value) {
    v.Num? || (v.chars != [] && forall i :: 0 <= i < |v.chars| ==> IsGraph(v.chars[i]))
  }

  /** The value is of the kind that the conversion handles. */
  predicate SameKind(c: Conv, v: Value) {
    c.Dec? == v.Num?
  }

  /** The value and its terminator fit the block of the conversion. */
  predicate Within(c: Conv, v: Value) {
    c.Word? && v.Text? ==> |v.chars| < c.block
  }

  predicate Fits(c: Conv, v: Value) {
    SameKind(c, v) && Printable(v) && Within(c, v)
  }

  predicate AllPrintable(vals: seq<Value>) {
    forall i :: 0 <= i < |vals| ==> Printable(vals[i])
  }

  /** The conversions are of the kinds of the first values. */
  predicate Matches(convs: seq<Conv>, vals: seq<Value>) {
    |convs| <= |vals| && forall i :: 0 <= i < |convs| ==> SameKind(convs[i], vals[i])
  }

  predicate AllWithin(convs: seq<Conv>, vals: seq<Value>)
    requires |convs| <= |vals|
  {
    forall i :: 0 <= i < |convs| ==> Within(convs[i], vals[i])
  }

  predicate ZeroFree(s: seq<byte>) {
    forall i :: 0 <= i < |s| ==> s[i] != 0
  }

  /** The strings are C strings. */
  predicate ZeroFreeValues(vals: seq<Value>) {
    forall i :: 0 <= i < |vals| && vals[i].Text? ==> ZeroFree(vals[i].chars)
  }

  /** The text ends here or a blank follows. */
  predicate Ends(s: seq<byte>) {
    s == [] || IsBlank(s[0])
  }

  lemma {:induction false} SpanOf(a: seq<byte>, b: seq<byte>, p: byte -> bool)
    requires forall i :: 0 <= i < |a| ==> p(a[i])
    requires b == [] || !p(b[0])
    ensures Span(a + b, p) == |a|
  {
    if a == [] {
      assert a + b == b;
    } else {
      assert (a + b)[1..] == a[1..] + b;
      SpanOf(a[1..], b, p);
    }
  }

  lemma {:induction false} DigitsOf(n: nat)
    ensures PrintNat(n) != [] && NatOf(PrintNat(n)) == n
    ensures forall i :: 0 <= i < |PrintNat(n)| ==> IsDigit(PrintNat(n)[i])
  {
    if n >= 10 {
      DigitsOf(n / 10);
      assert PrintNat(n)[..|PrintNat(n)| - 1] == PrintNat(n / 10);
    } else {
      assert PrintNat(n)[..0] == [];
    }
  }

  lemma {:induction false} NothingToSkip(s: seq<byte>)
    requires s != [] && !IsBlank(s[0])
    ensures SkipBlanks(s) == s
  {
  }

  lemma {:induction false} ScanPrintedDigits(n: nat, rest: seq<byte>, negative: bool)
    requires Ends(rest)
    ensures ScanDigits(PrintNat(n) + rest, negative) == Some((Num(Wrap(if negative then -(n as int) else n)), rest))
  {
    var digits := PrintNat(n);
    DigitsOf(n);
    SpanOf(digits, rest, IsDigit);
    assert (digits + rest)[..|digits|] == digits && (digits + rest)[|digits|..] == rest;
  }

  lemma {:induction false} ScanPrintedNegative(n: nat, rest: seq<byte>)
    requires Ends(rest)
    ensures ScanNumber([MINUS] + PrintNat(n) + rest) == Some((Num(Wrap(-(n as int))), rest))
  {
    ScanPrintedDigits(n, rest, true);
    assert ([MINUS] + PrintNat(n) + rest)[1..] == PrintNat(n) + rest;
  }

  lemma {:induction false} ScanPrintedPositive(n: nat, rest: seq<byte>)
    requires Ends(rest)
    ensures ScanNumber(PrintNat(n) + rest) == Some((Num(Wrap(n)), rest))
  {
    ScanPrintedDigits(n, rest, false);
    DigitsOf(n);
    assert IsDigit((PrintNat(n) + rest)[0]);
  }

  lemma {:induction false} ScanPrintedNumber(bits: u32, rest: seq<byte>)
    requires Ends(rest)
    ensures ScanOne(Dec, PrintValue(Num(bits)) + rest) == Some((Num(bits), rest))
  {
    PrintedIsGraphic(Num(bits));
    assert IsGraph(PrintValue(Num(bits))[0]);
    NothingToSkip(PrintValue(Num(bits)) + rest);
    WrapSigned(bits);
    if AsSigned(bits) < 0 {
      ScanPrintedNegative(Magnitude(bits), rest);
    } else {
      ScanPrintedPositive(Magnitude(bits), rest);
    }
  }

  lemma {:induction false} ScanPrintedWord(chars: seq<byte>, block: nat, rest: seq<byte>)
    requires Fits(Word(block), Text(chars)) && Ends(rest)
    ensures ScanOne(Word(block), chars + rest) == Some((Text(chars), rest))
  {
    NothingToSkip(chars + rest);
    SpanOf(chars, rest, NotBlank);
    assert (chars + rest)[..|chars|] == chars && (chars + rest)[|chars|..] == rest;
  }

  lemma {:induction false} ScanPrinted(c: Conv, v: Value, rest: seq<byte>)
    requires Fits(c, v) && Ends(rest)
    ensures ScanOne(c, PrintValue(v) + rest) == Some((v, rest))
  {
    match c
    case Dec => ScanPrintedNumber(v.bits, rest);
    case Word(block) => ScanPrintedWord(v.chars, block, rest);
  }

  /** Printed values are non-empty and made of graphic characters. */
  lemma {:induction false} PrintedIsGraphic(v: Value)
    requires Printable(v)
    ensures PrintValue(v) != [] && forall i :: 0 <= i < |PrintValue(v)| ==> IsGraph(PrintValue(v)[i])
  {
    if v.Num? {
      DigitsOf(Magnitude(v.bits));
    }
  }

  lemma {:induction false} SscanfStep(convs: seq<Conv>, v: Value, rest: seq<byte>)
    requires convs != [] && Fits(convs[0], v) && Ends(rest)
    ensures Sscanf(convs, PrintValue(v) + rest) == [v] + Sscanf(convs[1..], SkipBlanks(rest))
  {
    ScanPrinted(convs[0], v, rest);
  }

  lemma {:induction false} SkipToNext(vals: seq<Value>, tail: seq<byte>)
    requires vals != [] && Printable(vals[0])
    ensures SkipBlanks([BLANK] + Sprintf(vals, tail)) == Sprintf(vals, tail)
  {
    PrintedIsGraphic(vals[0]);
    var text := Sprintf(vals, tail);
    assert text[0] == PrintValue(vals[0])[0];
    SpanOf([BLANK], text, IsBlank);
    assert ([BLANK] + text)[1..] == text;
  }

  lemma {:induction false} ScanFirst(convs: seq<Conv>, vals: seq<Value>, tail: seq<byte>)
    requires convs != [] && |vals| > 1 && Fits(convs[0], vals[0]) && Printable(vals[1])
    ensures Sscanf(convs, Sprintf(vals, tail)) == [vals[0]] + Sscanf(convs[1..], Sprintf(vals[1..], tail))
  {
    var rest := [BLANK] + Sprintf(vals[1..], tail);
    SscanfStep(convs, vals[0], rest);
    SkipToNext(vals[1..], tail);
    assert PrintValue(vals[0]) + rest == PrintValue(vals[0]) + [BLANK] + Sprintf(vals[1..], tail);
  }

  lemma {:induction false} ScanLast(convs: seq<Conv>, v: Value, tail: seq<byte>)
    requires |convs| == 1 && Fits(convs[0], v) && Ends(tail)
    ensures Sscanf(convs, PrintValue(v) + tail) == [v]
  {
    SscanfStep(convs, v, tail);
    assert convs[1..] == [];
  }

  lemma {:induction false} PrefixCons<T>(xs: seq<T>, n: nat)
    requires 0 < n <= |xs|
    ensures xs[..n] == [xs[0]] + xs[1..][..n - 1]
  {
  }

  lemma {:induction false} RestMatches(convs: seq<Conv>, vals: seq<Value>)
    requires convs != [] && Matches(convs, vals) && AllPrintable(vals) && AllWithin(convs, vals)
    ensures Matches(convs[1..], vals[1..]) && AllPrintable(vals[1..]) && AllWithin(convs[1..], vals[1..])
    ensures Fits(convs[0], vals[0])
    ensures |vals| > 1 ==> Printable(vals[1])
  {
  }

  /**
   Generic round trip: for every printable list of values, every ending that starts with a blank and
   every list of conversions that matches the first values and has room for them, scanning the printed
   text gives those values back, whatever their bits.
   */
  lemma {:induction false} RoundTrip(convs: seq<Conv>, vals: seq<Value>, tail: seq<byte>)
    requires Matches(convs, vals) && AllPrintable(vals) && AllWithin(convs, vals) && Ends(tail)
    ensures Sscanf(convs, Sprintf(vals, tail)) == vals[..|convs|]
    decreases |vals|
  {
    if convs != [] {
      RestMatches(convs, vals);
      PrefixCons(vals, |convs|);
      if |vals| == 1 {
        ScanLast(convs, vals[0], tail);
      } else {
        ScanFirst(convs, vals, tail);
        RoundTrip(convs[1..], vals[1..], tail);
      }
    }
  }

  /** What a conversion can assign: a word is non-empty, free of blanks and fits its block. */
  predicate Assignable(c: Conv, v: Value) {
    && SameKind(c, v) && Within(c, v)
    && (v.Text? ==> v.chars != [] && forall i :: 0 <= i < |v.chars| ==> NotBlank(v.chars[i]))
  }

  lemma {:induction false} SpanHolds(s: seq<byte>, p: byte -> bool)
    ensures forall i :: 0 <= i < Span(s, p) ==> p(s[i])
  {
    if s != [] && p(s[0]) {
      SpanHolds(s[1..], p);
    }
  }

  lemma {:induction false} ScanOneAssigns(c: Conv, input: seq<byte>)
    ensures ScanOne(c, input).Some? ==> Assignable(c, ScanOne(c, input).value.0)
  {
    SpanHolds(SkipBlanks(input), NotBlank);
  }

  lemma {:induction false} SscanfAssigns(convs: seq<Conv>, input: seq<byte>)
    ensures forall i :: 0 <= i < |Sscanf(convs, input)| ==> Assignable(convs[i], Sscanf(convs, input)[i])
    decreases |convs|
  {
    if convs != [] && ScanOne(convs[0], input).Some? {
      var rest := SkipBlanks(ScanOne(convs[0], input).value.1);
      ScanOneAssigns(convs[0], input);
      SscanfAssigns(convs[1..], rest);
      AssignedCons(convs, ScanOne(convs[0], input).value.0, Sscanf(convs[1..], rest));
    }
  }

  lemma {:induction false} AssignedCons(convs: seq<Conv>, v: Value, more: seq<Value>)
    requires |more| < |convs| && Assignable(convs[0], v)
    requires forall i :: 0 <= i < |more| ==> Assignable(convs[1..][i], more[i])
    ensures forall i :: 0 <= i < |more| + 1 ==> Assignable(convs[i], ([v] + more)[i])
  {
    assert forall i :: 0 < i < |more| + 1 ==> ([v] + more)[i] == more[i - 1] && convs[i] == convs[1..][i - 1];
  }

  /** For C strings the round trip succeeds exactly when every string is printable and fits its block. */
  lemma {:induction false} RoundTripIff(convs: seq<Conv>, vals: seq<Value>, tail: seq<byte>)
    requires |convs| == |vals| && Matches(convs, vals) && ZeroFreeValues(vals) && Ends(tail)
    ensures Sscanf(convs, Sprintf(vals, tail)) == vals <==> AllPrintable(vals) && AllWithin(convs, vals)
  {
    if AllPrintable(vals) && AllWithin(convs, vals) {
      RoundTrip(convs, vals, tail);
      assert vals[..|convs|] == vals;
    }
    if Sscanf(convs, Sprintf(vals, tail)) == vals {
      SscanfAssigns(convs, Sprintf(vals, tail));
      assert forall i :: 0 <= i < |vals| ==> Assignable(convs[i], vals[i]);
    }
  }

  /** Everything printed before the ending is graphic or a single blank. */
  lemma {:induction false} PrintedChars(vals: seq<Value>, tail: seq<byte>, i: nat)
    requires AllPrintable(vals) && i < |Sprintf(vals, tail)| - |tail|
    ensures IsGraph(Sprintf(vals, tail)[i]) || Sprintf(vals, tail)[i] == BLANK
    decreases |vals|
  {
    assert Printable(vals[0]);
    PrintedIsGraphic(vals[0]);
    var n := |PrintValue(vals[0])|;
    if i > n {
      assert Sprintf(vals, tail)[i] == Sprintf(vals[1..], tail)[i - n - 1];
      PrintedChars(vals[1..], tail, i - n - 1);
    }
  }

  lemma {:induction false} ZeroFreeNumber(bits: u32)
    ensures ZeroFree(PrintValue(Num(bits)))
  {
    PrintedIsGraphic(Num(bits));
    assert forall i :: 0 <= i < |PrintValue(Num(bits))| ==> IsGraph(PrintValue(Num(bits))[i]);
  }

  /** Printing C strings and numbers gives a C string. */
  lemma {:induction false} PrintedZeroFree(vals: seq<Value>, tail: seq<byte>)
    requires ZeroFreeValues(vals) && ZeroFree(tail)
    ensures ZeroFree(Sprintf(vals, tail))
  {
    if vals != [] {
      if vals[0].Num? {
        ZeroFreeNumber(vals[0].bits);
      }
      PrintedZeroFree(vals[1..], tail);
    }
  }

  lemma {:induction false} SprintfTail(vals: seq<Value>, tail: seq<byte>)
    ensures Sprintf(vals, tail) == Sprintf(vals, []) + tail
  {
    if |vals| > 1 {
      SprintfTail(vals[1..], tail);
    }
  }

  /** Text appended after the ending may be counted as part of it. */
  lemma {:induction false} SprintfAbsorbs(vals: seq<Value>, tail: seq<byte>, more: seq<byte>)
    ensures Sprintf(vals, tail) + more == Sprintf(vals, tail + more)
  {
    SprintfTail(vals, tail);
    SprintfTail(vals, tail + more);
    assert Sprintf(vals, []) + tail + more == Sprintf(vals, []) + (tail + more);
  }

  // ---------------------------------------------------------------- lengths

  function Pow10(k: nat): nat {
    if k == 0 then 1 else 10 * Pow10(k - 1)
  }

  lemma {:induction false} DigitCount(n: nat, k: nat)
    requires k >= 1 && n < Pow10(k)
    ensures |PrintNat(n)| <= k
    ensures n >= Pow10(k - 1) ==> |PrintNat(n)| == k
  {
    if k > 1 && n >= 10 {
      DigitCount(n / 10, k - 1);
    }
  }

  const TEN_DIGITS: nat := 1_000_000_000

  lemma {:induction false} Pow10Values()
    ensures Pow10(3) == 1_000 && Pow10(4) == 10_000
    ensures Pow10(9) == TEN_DIGITS && Pow10(10) == 10 * TEN_DIGITS
  {
    assert Pow10(3) == 1_000;
    assert Pow10(6) == 1_000_000;
  }

  lemma {:induction false} NumberLength(bits: u32)
    ensures 1 <= |PrintValue(Num(bits))| <= 11
  {
    Pow10Values();
    DigitsOf(Magnitude(bits));
    DigitCount(Magnitude(bits), 10);
  }

  lemma {:induction false} LowestIsLong()
    ensures |PrintValue(Num(0x8000_0000))| == 11
  {
    Pow10Values();
    DigitCount(0x8000_0000, 10);
  }

  lemma {:induction false} SprintfCons(v: seq<Value>, tail: seq<byte>)
    requires |v| > 1
    ensures |Sprintf(v, tail)| == |PrintValue(v[0])| + 1 + |Sprintf(v[1..], tail)|
  {
  }

  lemma {:induction false} SprintfLength4(v: seq<Value>, tail: seq<byte>)
    requires |v| == 4
    ensures |Sprintf(v, tail)| == |PrintValue(v[0])| + |PrintValue(v[1])| + |PrintValue(v[2])| +
      |PrintValue(v[3])| + 3 + |tail|
  {
    SprintfCons(v, tail);
    SprintfCons(v[1..], tail);
    SprintfCons(v[2..], tail);
    assert v[1..][1..] == v[2..] && v[2..][1..] == v[3..];
  }

  /** An upper bound on the printed length: 11 for a number, the string itself, one blank after each. */
  function MaxLength(vals: seq<Value>): nat {
    if vals == [] then 0
    else (if vals[0].Num? then 12 else |vals[0].chars| + 1) + MaxLength(vals[1..])
  }

  lemma {:induction false} LengthBound(vals: seq<Value>, tail: seq<byte>)
    ensures vals != [] ==> |Sprintf(vals, tail)| <= MaxLength(vals) - 1 + |tail|
  {
    if vals != [] {
      if vals[0].Num? {
        NumberLength(vals[0].bits);
      }
      if |vals| > 1 {
        LengthBound(vals[1..], tail);
      }
    }
  }
}
