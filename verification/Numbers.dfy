/** Bytes, and the decimal numbers that both programs print and parse.

    `Itoa` is the `%d` of the printers. `Atoi` follows Go's `strconv.Atoi`, including what it returns
    together with an error: 0 for a malformed number, the nearest 64-bit integer for one that is too large.
  */
module Numbers {
  newtype byte = x: int | 0 <= x < 256

  type Bytes = seq<byte>

  datatype Option<+T> = None | Some(value: T)

  const CR: byte := 13
  const LF: byte := 10
  const MINUS: byte := 45
  const PLUS: byte := 43
  const ZERO: byte := 48
  const CRLF: Bytes := [CR, LF]

  const MAX_INT: int := 0x7FFF_FFFF_FFFF_FFFF
  const MIN_INT: int := -0x8000_0000_0000_0000
  const MAX_UINT: int := 0xFFFF_FFFF_FFFF_FFFF

  /** The result of reading an unsigned decimal: a number, a byte that is no digit, or a number over 64 bits. */
  datatype Scan = Digits(n: nat) | Malformed | Overflow

  /** What `strconv.Atoi` returns: a value and whether the error is nil. */
  datatype Number = Number(value: int, ok: bool)

  predicate IsDigit(b: byte) { ZERO <= b < ZERO + 10 }

  predicate AllDigits(s: Bytes) { forall i :: 0 <= i < |s| ==> IsDigit(s[i]) }

  function ScanDigits(s: Bytes, acc: nat): Scan {
    if s == [] then Digits(acc)
    else if !IsDigit(s[0]) then Malformed
    else
      var n := acc * 10 + (s[0] - ZERO) as int;
      if n > MAX_UINT then Overflow else ScanDigits(s[1..], n)
  }

  function Atoi(s: Bytes): Number {
    if s == [] then Number(0, false) else
    var negative := s[0] == MINUS;
    var digits := if negative || s[0] == PLUS then s[1..] else s;
    if digits == [] then Number(0, false) else
    match ScanDigits(digits, 0)
    case Malformed => Number(0, false)
    case Overflow => Number(if negative then MIN_INT else MAX_INT, false)
    case Digits(n) =>
      if negative then
        if -(n as int) < MIN_INT then Number(MIN_INT, false) else Number(-(n as int), true)
      else
        if n > MAX_INT then Number(MAX_INT, false) else Number(n, true)
  }

  function Itoa(n: nat): (s: Bytes)
    ensures |s| > 0 && AllDigits(s)
  {
    if n < 10 then [ZERO + n as byte] else Itoa(n / 10) + [ZERO + (n % 10) as byte]
  }

  function FormatInt(n: int): Bytes {
    if n < 0 then [MINUS] + Itoa(-n) else Itoa(n)
  }

  lemma {:induction false} ScanAppend(s: Bytes, t: Bytes, acc: nat)
    requires ScanDigits(s, acc).Digits?
    ensures ScanDigits(s + t, acc) == ScanDigits(t, ScanDigits(s, acc).n)
  {
    if s == [] {
      assert s + t == t;
    } else {
      assert (s + t)[1..] == s[1..] + t;
      ScanAppend(s[1..], t, acc * 10 + (s[0] - ZERO) as int);
    }
  }

  lemma {:induction false} ScanItoa(n: nat)
    requires n <= MAX_UINT
    ensures ScanDigits(Itoa(n), 0) == Digits(n)
  {
    if n < 10 {
      assert Itoa(n)[1..] == [];
    } else {
      var last: Bytes := [ZERO + (n % 10) as byte];
      ScanItoa(n / 10);
      ScanAppend(Itoa(n / 10), last, 0);
      assert last[1..] == [];
      assert (n / 10) * 10 + n % 10 == n;
    }
  }

  /** Parsing undoes printing for every number that fits a Go `int`. */
  lemma AtoiItoa(n: nat)
    requires n <= MAX_INT
    ensures Atoi(Itoa(n)) == Number(n, true)
  {
    ScanItoa(n);
    assert IsDigit(Itoa(n)[0]);
  }

  /** The number that decimal digits denote. */
  function Decimal(digits: Bytes): nat
    requires AllDigits(digits)
  {
    if digits == [] then 0
    else Decimal(digits[..|digits| - 1]) * 10 + (digits[|digits| - 1] - ZERO) as int
  }

  lemma {:induction false} DecimalGrows(digits: Bytes, k: nat)
    requires AllDigits(digits) && k <= |digits|
    ensures Decimal(digits[..k]) <= Decimal(digits)
    decreases |digits|
  {
    if k < |digits| {
      var front := digits[..|digits| - 1];
      DecimalGrows(front, k);
      assert front[..k] == digits[..k];
    } else {
      assert digits[..k] == digits;
    }
  }

  /** Scanning from the left, once the first k digits are read. */
  lemma {:induction false} ScanFrom(s: Bytes, k: nat)
    requires k <= |s| && AllDigits(s[..k]) && Decimal(s[..k]) <= MAX_UINT
    ensures ScanDigits(s[k..], Decimal(s[..k])) ==
            if AllDigits(s) then if Decimal(s) <= MAX_UINT then Digits(Decimal(s)) else Overflow
            else ScanDigits(s[k..], Decimal(s[..k]))
    ensures !AllDigits(s) ==> !ScanDigits(s[k..], Decimal(s[..k])).Digits?
    decreases |s| - k
  {
    if k == |s| {
      assert s[..k] == s;
    } else {
      assert s[k..][0] == s[k] && s[k..][1..] == s[k + 1..];
      if IsDigit(s[k]) {
        assert s[..k + 1][..k] == s[..k];
        assert forall i :: 0 <= i < k + 1 ==> s[..k + 1][i] == if i < k then s[..k][i] else s[k];
        if Decimal(s[..k + 1]) <= MAX_UINT {
          ScanFrom(s, k + 1);
        } else if AllDigits(s) {
          DecimalGrows(s, k + 1);
        }
      }
    }
  }

  lemma ScanIsDecimal(s: Bytes)
    ensures AllDigits(s) ==> ScanDigits(s, 0) == if Decimal(s) <= MAX_UINT then Digits(Decimal(s)) else Overflow
    ensures !AllDigits(s) ==> !ScanDigits(s, 0).Digits?
  {
    assert s[..0] == [] && s[0..] == s;
    ScanFrom(s, 0);
  }

  /** Where the digits end. */
  function DigitsEnd(s: Bytes): (k: nat)
    ensures k <= |s| && AllDigits(s[..k]) && (k < |s| ==> !IsDigit(s[k]))
  {
    if s == [] || !IsDigit(s[0]) then 0
    else
      var k := 1 + DigitsEnd(s[1..]);
      assert forall i :: 0 < i < k ==> s[i] == s[1..][..k - 1][i - 1];
      k
  }

  /** Text that is no number is malformed, unless the digits in front of what spoils it are too many already. */
  lemma {:induction false} ScanMalformed(s: Bytes, k: nat)
    requires !AllDigits(s) && k <= DigitsEnd(s)
    requires AllDigits(s[..k]) && Decimal(s[..k]) <= MAX_UINT
    ensures ScanDigits(s[k..], Decimal(s[..k])) ==
            if Decimal(s[..DigitsEnd(s)]) <= MAX_UINT then Malformed else Overflow
    decreases DigitsEnd(s) - k
  {
    var end := DigitsEnd(s);
    assert forall i :: 0 <= i < end ==> s[i] == s[..end][i];
    assert s[k..][0] == s[k] && s[k..][1..] == s[k + 1..];
    if k < end {
      assert s[..k + 1][..k] == s[..k];
      if Decimal(s[..k + 1]) <= MAX_UINT {
        ScanMalformed(s, k + 1);
      } else {
        assert s[..end][..k + 1] == s[..k + 1];
        DecimalGrows(s[..end], k + 1);
      }
    }
  }

  /** The digits of a number after its sign, if it has one. */
  function Unsigned(s: Bytes): Bytes {
    if s != [] && (s[0] == 43 || s[0] == 45) then s[1..] else s
  }

  function Signed(s: Bytes, n: nat): int {
    if s != [] && s[0] == 45 then -(n as int) else n
  }

  /** Parsing accepts exactly the decimal numbers of 64 bits, with a sign or without and with any leading zeros, and
      takes them for what they denote. With its error it returns the nearest number of 64 bits if the digits are too
      many, and otherwise 0. */
  lemma AtoiIsDecimal(s: Bytes)
    ensures var digits := Unsigned(s);
            && (Atoi(s).ok <==>
                digits != [] && AllDigits(digits) && MIN_INT <= Signed(s, Decimal(digits)) <= MAX_INT)
            && (digits != [] && AllDigits(digits) ==>
                var n := Signed(s, Decimal(digits));
                Atoi(s).value == if n < MIN_INT then MIN_INT else if n > MAX_INT then MAX_INT else n)
            && (!AllDigits(digits) ==>
                Atoi(s).value == if Decimal(digits[..DigitsEnd(digits)]) <= MAX_UINT then 0
                                 else if s[0] == 45 then MIN_INT else MAX_INT)
            && (digits == [] ==> Atoi(s).value == 0)
  {
    var digits := Unsigned(s);
    ScanIsDecimal(digits);
    if !AllDigits(digits) {
      assert digits[..0] == [] && digits[0..] == digits;
      ScanMalformed(digits, 0);
    }
  }

  /** Parsing undoes printing for every integer of 64 bits. */
  lemma AtoiFormatInt(n: int)
    requires MIN_INT <= n <= MAX_INT
    ensures Atoi(FormatInt(n)) == Number(n, true)
  {
    if n < 0 {
      ScanItoa(-n);
      assert FormatInt(n)[1..] == Itoa(-n);
    } else {
      AtoiItoa(n);
    }
  }
}
