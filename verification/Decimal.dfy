/**
 Decimal text of integers: how a std::stringstream and folly::to<std::string> print one, and how
 folly::to<int64_t> reads one back.
 */
module Decimal {
  import opened Bytes

  const MINUS: byte := 45
  const PLUS: byte := 43
  const ZERO: byte := 48

  predicate IsDigit(c: byte) {
    48 <= c <= 57
  }

  predicate AllDigits(s: bytes) {
    s == [] || (IsDigit(s[|s| - 1]) && AllDigits(s[..|s| - 1]))
  }

  /** isspace in the C locale. */
  predicate IsSpace(c: byte) {
    c == 32 || 9 <= c <= 13
  }

  function Digits(n: nat): (s: bytes)
    ensures |s| > 0 && AllDigits(s)
  {
    if n < 10 then [ZERO + n] else Digits(n / 10) + [ZERO + n % 10]
  }

  function Print(n: int): bytes {
    if n < 0 then [MINUS] + Digits(-n) else Digits(n)
  }

  /** The number a digit string denotes; leading zeros are allowed. */
  function Number(s: bytes): nat
    requires AllDigits(s)
  {
    if s == [] then 0 else 10 * Number(s[..|s| - 1]) + (s[|s| - 1] - ZERO)
  }

  function SkipSpace(s: bytes): bytes {
    if s != [] && IsSpace(s[0]) then SkipSpace(s[1..]) else s
  }

  function DropSpace(s: bytes): bytes {
    if s != [] && IsSpace(s[|s| - 1]) then DropSpace(s[..|s| - 1]) else s
  }

  /** An optional sign and then digits up to the end. */
  function ReadSigned(s: bytes): Option<int> {
    if s == [] then None
    else
      var body := if s[0] == MINUS || s[0] == PLUS then s[1..] else s;
      if body == [] || !AllDigits(body) then None
      else
        var n: int := Number(body);
        Some(if s[0] == MINUS then -n else n)
  }

  /** folly::to<int64_t>: surrounding white space is skipped, anything else that is not a signed
      decimal of 64-bit range is a conversion error. */
  function ParseInt64(s: bytes): (r: Option<int>)
    ensures r.Some? ==> IsInt64(r.value)
  {
    match ReadSigned(DropSpace(SkipSpace(s)))
    case Some(n) => if IsInt64(n) then Some(n) else None
    case None => None
  }

  lemma {:induction false} DigitAt(s: bytes, i: nat)
    requires AllDigits(s) && i < |s|
    ensures IsDigit(s[i])
  {
    if i < |s| - 1 {
      DigitAt(s[..|s| - 1], i);
    }
  }

  lemma {:induction false} NumberOfDigits(n: nat)
    ensures Number(Digits(n)) == n
  {
    var s := Digits(n);
    if n < 10 {
      assert Number([]) == 0;
      assert s[..|s| - 1] == [];
    } else {
      assert s[..|s| - 1] == Digits(n / 10);
      NumberOfDigits(n / 10);
    }
  }

  lemma ParseDigits(s: bytes)
    requires s != [] && AllDigits(s) && Number(s) <= INT64_MAX
    ensures ParseInt64(s) == Some(Number(s))
  {
    DigitAt(s, 0);
    assert SkipSpace(s) == s && DropSpace(s) == s;
  }

  lemma ReadPrint(n: int)
    ensures ReadSigned(Print(n)) == Some(n)
  {
    var s, digits := Print(n), Digits(if n < 0 then -n else n);
    NumberOfDigits(if n < 0 then -n else n);
    if n < 0 {
      assert s[1..] == digits;
    } else {
      DigitAt(s, 0);
    }
  }

  /** Reading inverts printing on the whole 64-bit range. */
  lemma ParsePrint(n: int)
    requires IsInt64(n)
    ensures ParseInt64(Print(n)) == Some(n)
  {
    var s, digits := Print(n), Digits(if n < 0 then -n else n);
    DigitAt(digits, 0);
    assert s[|s| - 1] == digits[|digits| - 1];
    assert SkipSpace(s) == s && DropSpace(s) == s;
    ReadPrint(n);
  }

  /** Decimal notation, digit by digit. */
  lemma PrintText(n: int)
    ensures 0 <= n < 10 ==> Print(n) == [48 + n]
    ensures n >= 10 ==> Print(n) == Print(n / 10) + [48 + n % 10]
    ensures n < 0 ==> Print(n) == [45] + Print(-n)
  {
  }

  // ----- which texts are numbers

  predicate AllSpace(s: bytes) {
    forall i :: 0 <= i < |s| ==> s[i] == 32 || 9 <= s[i] <= 13
  }

  /** White space, a sign or none, digits, white space; n is the number they denote. */
  predicate Spelled(before: bytes, sign: bytes, digits: bytes, after: bytes, n: int) {
    && AllSpace(before) && AllSpace(after)
    && sign in [[], [43], [45]] && digits != [] && AllDigits(digits)
    && (if sign == [45] then -n == Number(digits) else n == Number(digits))
  }

  lemma {:induction false} SkipSpaceOf(before: bytes, s: bytes)
    requires AllSpace(before) && (s == [] || !IsSpace(s[0]))
    ensures SkipSpace(before + s) == s
  {
    if before == [] {
      assert before + s == s;
    } else {
      assert (before + s)[1..] == before[1..] + s;
      SkipSpaceOf(before[1..], s);
    }
  }

  lemma {:induction false} DropSpaceOf(s: bytes, after: bytes)
    requires AllSpace(after) && (s == [] || !IsSpace(s[|s| - 1]))
    ensures DropSpace(s + after) == s
  {
    if after == [] {
      assert s + after == s;
    } else {
      assert (s + after)[..|s + after| - 1] == s + after[..|after| - 1];
      DropSpaceOf(s, after[..|after| - 1]);
    }
  }

  lemma {:induction false} SkipSpaceCuts(s: bytes) returns (before: bytes)
    ensures AllSpace(before) && s == before + SkipSpace(s)
  {
    before := [];
    if s != [] && IsSpace(s[0]) {
      var more := SkipSpaceCuts(s[1..]);
      before := [s[0]] + more;
    }
  }

  lemma {:induction false} DropSpaceCuts(s: bytes) returns (after: bytes)
    ensures AllSpace(after) && s == DropSpace(s) + after
  {
    after := [];
    if s != [] && IsSpace(s[|s| - 1]) {
      var more := DropSpaceCuts(s[..|s| - 1]);
      after := more + [s[|s| - 1]];
    }
  }

  /** Every spelling of a 64-bit number is read as it. */
  lemma ParseIsComplete(before: bytes, sign: bytes, digits: bytes, after: bytes, n: int)
    requires Spelled(before, sign, digits, after, n) && -0x8000_0000_0000_0000 <= n <= 0x7fff_ffff_ffff_ffff
    ensures ParseInt64(before + (sign + digits + after)) == Some(n)
  {
    hide Number;
    var text := sign + digits;
    DigitAt(digits, 0);
    DigitAt(digits, |digits| - 1);
    assert text[0] == if sign == [] then digits[0] else sign[0];
    assert text[|text| - 1] == digits[|digits| - 1];
    assert (text + after)[0] == text[0];
    SkipSpaceOf(before, text + after);
    DropSpaceOf(text, after);
    assert sign == [] ==> text == digits;
    assert sign != [] ==> text[1..] == digits;
  }

  /** Nothing else is read as a number. */
  lemma ParseIsSound(s: bytes) returns (before: bytes, sign: bytes, digits: bytes, after: bytes)
    requires ParseInt64(s).Some?
    ensures s == before + (sign + digits + after) && Spelled(before, sign, digits, after, ParseInt64(s).value)
    ensures -0x8000_0000_0000_0000 <= ParseInt64(s).value <= 0x7fff_ffff_ffff_ffff
  {
    hide Number;
    before := SkipSpaceCuts(s);
    after := DropSpaceCuts(SkipSpace(s));
    var text := DropSpace(SkipSpace(s));
    if text[0] == 45 || text[0] == 43 {
      sign, digits := [text[0]], text[1..];
    } else {
      sign, digits := [], text;
    }
    assert text == sign + digits;
  }

  lemma PrintIsLine(n: int)
    ensures CR !in Print(n) && |Print(n)| > 0
  {
    var digits := Digits(if n < 0 then -n else n);
    forall i | 0 <= i < |digits| ensures digits[i] != CR {
      DigitAt(digits, i);
    }
  }

  /** Fixed-width text with leading zeros: the `{:0<width>d}` format. */
  function Padded(n: nat, width: nat): (s: bytes)
    ensures |s| >= width
  {
    var s := Digits(n);
    if |s| >= width then s else Zeros(width - |s|) + s
  }

  function Zeros(k: nat): (s: bytes)
    ensures |s| == k && AllDigits(s)
  {
    if k == 0 then [] else Zeros(k - 1) + [ZERO]
  }
}
