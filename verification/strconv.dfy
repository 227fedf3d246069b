/** The strconv functions the parser calls: ParseBool, and ParseInt/ParseUint
    in base 10 at the two bit sizes the source uses (env.go:16-22,
    util.go:62-85). Only the base-10 branch of Go's algorithm is modelled:
    no sign for the unsigned parser, no underscores, no base prefixes. */
module Strconv {
  import opened Wrappers
  import opened Text
  import opened Errors

  /** The bit sizes the source passes (Int32Bits and Int64Bits). */
  datatype Width = W32 | W64

  function MaxUint(w: Width): nat {
    match w
    case W32 => 0xFFFF_FFFF
    case W64 => 0xFFFF_FFFF_FFFF_FFFF
  }

  /** 1 << (bits - 1): one past the largest signed value. */
  function Cutoff(w: Width): nat {
    match w
    case W32 => 0x8000_0000
    case W64 => 0x8000_0000_0000_0000
  }

  function MaxInt(w: Width): int {
    Cutoff(w) - 1
  }

  function MinInt(w: Width): int {
    -(Cutoff(w) as int)
  }

  /** The outcome of Go's digit loop in ParseUint. */
  datatype Scan = Scanned(n: nat) | BadSyntax | OutOfRange

  /** Go's digit loop: left to right, stopping at the first non-digit
      (syntax) or at the first prefix whose value exceeds `maxVal` (range). */
  function ScanDecimal(s: string, i: nat, n: nat, maxVal: nat): Scan
    requires i <= |s|
    decreases |s| - i
  {
    if i == |s| then Scanned(n)
    else if !IsDigit(s[i]) then BadSyntax
    else if n * 10 + DigitValue(s[i]) > maxVal then OutOfRange
    else ScanDecimal(s, i + 1, n * 10 + DigitValue(s[i]), maxVal)
  }

  /** strconv.ParseUint(s, 10, bits): 0 on a syntax error, the largest
      value on a range error. */
  function ParseUint(s: string, w: Width): Parsed<nat>
  {
    if s == "" then Parsed(0, Some(NumError("ParseUint", s, ErrSyntax)))
    else match ScanDecimal(s, 0, 0, MaxUint(w))
      case Scanned(n) => Parsed(n, None)
      case BadSyntax => Parsed(0, Some(NumError("ParseUint", s, ErrSyntax)))
      case OutOfRange => Parsed(MaxUint(w), Some(NumError("ParseUint", s, ErrRange)))
  }

  /** strconv.ParseInt(s, 10, bits): an optional sign, then the unsigned
      parse of the rest; 0 on a syntax error, the nearest bound on a range
      error. */
  function ParseInt(s: string, w: Width): Parsed<int>
  {
    if s == "" then Parsed(0, Some(NumError("ParseInt", s, ErrSyntax)))
    else
      var neg := s[0] == '-';
      var body := if s[0] == '+' || s[0] == '-' then s[1..] else s;
      var u := ParseUint(body, w);
      if u.err.Some? && u.err.value.failure != ErrRange then
        Parsed(0, Some(NumError("ParseInt", s, ErrSyntax)))
      else if !neg && u.value >= Cutoff(w) then
        Parsed(MaxInt(w), Some(NumError("ParseInt", s, ErrRange)))
      else if neg && u.value > Cutoff(w) then
        Parsed(MinInt(w), Some(NumError("ParseInt", s, ErrRange)))
      else if neg then Parsed(-(u.value as int), None)
      else Parsed(u.value, None)
  }

  /** The parsers at fixed widths that the source names: ParseInt and
      ParseUint with Int32Bits for Go's int and uint, Int64Bits for int64 and
      uint64 (util.go:61-92). */
  function ParseInt32(s: string): Parsed<int> { ParseInt(s, W32) }
  function ParseInt64(s: string): Parsed<int> { ParseInt(s, W64) }
  function ParseUint32(s: string): Parsed<nat> { ParseUint(s, W32) }
  function ParseUint64(s: string): Parsed<nat> { ParseUint(s, W64) }

  /** The strings ParseInt accepts at a width. */
  predicate IntLiteral(s: string, w: Width) {
    SignedSyntax(s) && MinInt(w) <= SignedValue(s) <= MaxInt(w)
  }

  /** The strings ParseUint accepts at a width. */
  predicate UintLiteral(s: string, w: Width) {
    s != "" && AllDigits(s) && DecimalValue(s) <= MaxUint(w)
  }

  const TrueLiterals: set<string> := {"1", "t", "T", "TRUE", "true", "True"}
  const FalseLiterals: set<string> := {"0", "f", "F", "FALSE", "false", "False"}

  /** strconv.ParseBool. */
  function ParseBool(s: string): (r: Parsed<bool>)
    ensures r.Ok() <==> s in TrueLiterals + FalseLiterals
    ensures r.Ok() ==> (r.value <==> s in TrueLiterals)
    ensures !r.Ok() ==> r == Parsed(false, Some(NumError("ParseBool", s, ErrSyntax)))
  {
    if s == "1" || s == "t" || s == "T" || s == "TRUE" || s == "true" || s == "True" then
      Parsed(true, None)
    else if s == "0" || s == "f" || s == "F" || s == "FALSE" || s == "false" || s == "False" then
      Parsed(false, None)
    else
      Parsed(false, Some(NumError("ParseBool", s, ErrSyntax)))
  }

  /** strconv.FormatBool, the printer ParseBool inverts. */
  function FormatBool(b: bool): string {
    if b then "true" else "false"
  }

  /** The value of a digit prefix never exceeds the value of the whole. */
  lemma {:induction false} DecimalPrefixAtMost(s: string, j: nat)
    requires AllDigits(s) && j <= |s|
    ensures DecimalValue(s[..j]) <= DecimalValue(s)
    decreases |s| - j
  {
    if j < |s| {
      var t := s[..|s| - 1];
      assert AllDigits(t);
      DecimalPrefixAtMost(t, j);
      assert t[..j] == s[..j];
    } else {
      assert s[..j] == s;
    }
  }

  lemma DecimalStep(s: string, i: nat)
    requires i < |s| && AllDigits(s[..i + 1])
    ensures AllDigits(s[..i])
    ensures DecimalValue(s[..i + 1]) == DecimalValue(s[..i]) * 10 + DigitValue(s[i])
  {
    assert s[..i + 1][..i] == s[..i];
  }

  /** The digit loop, started after a well-formed prefix, succeeds exactly
      when the whole string is digits denoting at most `maxVal`, and then
      returns that number; it reports a syntax error only on a non-digit. */
  lemma {:induction false} ScanDecimalSpec(s: string, i: nat, n: nat, maxVal: nat)
    requires i <= |s| && AllDigits(s[..i]) && n == DecimalValue(s[..i]) && n <= maxVal
    ensures ScanDecimal(s, i, n, maxVal).Scanned? <==> AllDigits(s) && DecimalValue(s) <= maxVal
    ensures ScanDecimal(s, i, n, maxVal).Scanned? ==> ScanDecimal(s, i, n, maxVal).n == DecimalValue(s)
    ensures ScanDecimal(s, i, n, maxVal).BadSyntax? ==> !AllDigits(s)
    decreases |s| - i
  {
    if i == |s| {
      assert s[..i] == s;
    } else if !IsDigit(s[i]) {
    } else {
      assert AllDigits(s[..i + 1]) by {
        assert forall k :: 0 <= k < i ==> s[..i + 1][k] == s[..i][k];
      }
      DecimalStep(s, i);
      var n1 := n * 10 + DigitValue(s[i]);
      if n1 > maxVal {
        if AllDigits(s) {
          DecimalPrefixAtMost(s, i + 1);
        }
      } else {
        ScanDecimalSpec(s, i + 1, n1, maxVal);
      }
    }
  }

  /** ParseUint accepts exactly the non-empty digit strings whose value fits
      the width, and returns that value; it names itself and the input in
      its error. */
  lemma ParseUintSpec(s: string, w: Width)
    ensures ParseUint(s, w).Ok() <==> s != "" && AllDigits(s) && DecimalValue(s) <= MaxUint(w)
    ensures ParseUint(s, w).Ok() ==> ParseUint(s, w).value == DecimalValue(s)
    ensures !ParseUint(s, w).Ok() ==> ParseUint(s, w).err.value.func == "ParseUint"
    ensures !ParseUint(s, w).Ok() ==> ParseUint(s, w).err.value.num == s
    ensures s != "" && AllDigits(s) && DecimalValue(s) > MaxUint(w) ==>
      ParseUint(s, w) == Parsed(MaxUint(w), Some(NumError("ParseUint", s, ErrRange)))
  {
    if s != "" {
      assert s[..0] == "";
      ScanDecimalSpec(s, 0, 0, MaxUint(w));
    }
  }

  /** The unsigned parser rejects a leading minus sign. */
  lemma ParseUintRejectsMinus(s: string, w: Width)
    requires |s| > 0 && s[0] == '-'
    ensures !ParseUint(s, w).Ok()
  {
    ParseUintSpec(s, w);
  }

  /** The unsigned parser reads back every decimal rendering within range. */
  lemma ParseUintFormat(n: nat, w: Width)
    requires n <= MaxUint(w)
    ensures ParseUint(NatToString(n), w) == Parsed(n, None)
  {
    ParseUintSpec(NatToString(n), w);
    DecimalOfNatToString(n);
  }

  /** The syntax ParseInt accepts: an optional sign followed by at least one
      decimal digit. */
  predicate SignedSyntax(s: string) {
    |s| >= 1 &&
    if s[0] == '+' || s[0] == '-' then |s| >= 2 && AllDigits(s[1..]) else AllDigits(s)
  }

  /** The number a string in SignedSyntax denotes. */
  function SignedValue(s: string): int
    requires SignedSyntax(s)
  {
    if s[0] == '-' then -(DecimalValue(s[1..]) as int)
    else if s[0] == '+' then DecimalValue(s[1..])
    else DecimalValue(s)
  }

  /** ParseInt accepts exactly an optionally signed digit string whose value
      lies in the signed range of the width, and returns that value; a
      syntax error yields 0 and a range error the nearest bound. */
  lemma ParseIntSpec(s: string, w: Width)
    ensures ParseInt(s, w).Ok() <==> SignedSyntax(s) && MinInt(w) <= SignedValue(s) <= MaxInt(w)
    ensures ParseInt(s, w).Ok() ==> ParseInt(s, w).value == SignedValue(s)
    ensures !ParseInt(s, w).Ok() ==> ParseInt(s, w).err.value.func == "ParseInt"
    ensures !ParseInt(s, w).Ok() ==> ParseInt(s, w).err.value.num == s
    ensures !ParseInt(s, w).Ok() && SignedSyntax(s) ==>
      ParseInt(s, w).value == (if SignedValue(s) < 0 then MinInt(w) else MaxInt(w))
  {
    if s != "" {
      var body := if s[0] == '+' || s[0] == '-' then s[1..] else s;
      ParseUintSpec(body, w);
      if s[0] != '+' && s[0] != '-' {
        assert body == s;
      }
    }
  }

  /** ParseInt reads back every decimal rendering within the signed range. */
  lemma ParseIntFormat(n: nat, w: Width)
    requires n < Cutoff(w)
    ensures ParseInt(NatToString(n), w) == Parsed(n, None)
  {
    var s := NatToString(n);
    DecimalOfNatToString(n);
    assert IsDigit(s[0]);
    assert SignedSyntax(s) && SignedValue(s) == n;
    ParseIntSpec(s, w);
  }

  /** ParseInt reads back a minus sign followed by a decimal rendering within
      the signed range. */
  lemma ParseIntFormatNegative(n: nat, w: Width)
    requires n <= Cutoff(w)
    ensures ParseInt("-" + NatToString(n), w) == Parsed(-(n as int), None)
  {
    var s := NatToString(n);
    var t := "-" + s;
    DecimalOfNatToString(n);
    assert t[1..] == s;
    assert SignedSyntax(t) && SignedValue(t) == -(n as int);
    ParseIntSpec(t, w);
  }
}
