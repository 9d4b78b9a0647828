/** The C library behaviour the stream parser relies on: reading a NUL-terminated
    string out of a fixed buffer, and `atol` on the ASCII length field. */
module CText {
  import opened Common

  /** The range of `long` on the 32-bit target. */
  const LongMax: int := 0x7FFF_FFFF
  const LongMin: int := -0x8000_0000

  const Nul: byte := 0
  const Zero: byte := 0x30   // '0'
  const Nine: byte := 0x39   // '9'
  const Plus: byte := 0x2B   // '+'
  const Minus: byte := 0x2D  // '-'

  predicate NoZero(s: seq<byte>)
  {
    forall i :: 0 <= i < |s| ==> s[i] != Nul
  }

  /** The C string held at the start of `buf`: the bytes before its first 0x00, or all of
      `buf` when it holds no 0x00. */
  function CString(buf: seq<byte>): seq<byte>
  {
    if buf == [] || buf[0] == Nul then [] else [buf[0]] + CString(buf[1..])
  }

  /** The C string is a prefix of the buffer without 0x00, followed by 0x00 unless it
      fills the buffer. */
  lemma {:induction false} CStringPrefix(buf: seq<byte>)
    ensures var r := CString(buf);
            && r <= buf && NoZero(r)
            && (|r| < |buf| ==> buf[|r|] == Nul)
  {
    if buf != [] && buf[0] != Nul {
      CStringPrefix(buf[1..]);
    }
  }

  /** A string without 0x00, stored with its terminator, reads back as itself whatever
      stale bytes follow the terminator. */
  lemma {:induction false} CStringOfTerminated(s: seq<byte>, rest: seq<byte>)
    requires NoZero(s)
    ensures CString(s + [Nul] + rest) == s
  {
    if s != [] {
      assert (s + [Nul] + rest)[1..] == s[1..] + [Nul] + rest;
      CStringOfTerminated(s[1..], rest);
    }
  }

  /** `isspace` in the C locale: space, \t, \n, \v, \f, \r. */
  predicate IsSpace(b: byte)
  {
    b == 32 || 9 <= b <= 13
  }

  predicate IsDigit(b: byte)
  {
    Zero <= b <= Nine
  }

  predicate AllDigits(s: seq<byte>)
  {
    forall i :: 0 <= i < |s| ==> IsDigit(s[i])
  }

  /** What is left of `s` once its leading white space is skipped. */
  function SkipSpaces(s: seq<byte>): seq<byte>
  {
    if s != [] && IsSpace(s[0]) then SkipSpaces(s[1..]) else s
  }

  /** What is skipped is white space, and what is left is a suffix that does not start
      with white space. */
  lemma {:induction false} SkipSpacesSuffix(s: seq<byte>)
    ensures var r := SkipSpaces(s);
            && |r| <= |s| && r == s[|s| - |r|..]
            && (r != [] ==> !IsSpace(r[0]))
            && (forall i :: 0 <= i < |s| - |r| ==> IsSpace(s[i]))
  {
    if s != [] && IsSpace(s[0]) {
      var r := SkipSpaces(s[1..]);
      SkipSpacesSuffix(s[1..]);
      assert SkipSpaces(s) == r;
      assert s[1..][|s| - 1 - |r|..] == s[|s| - |r|..];
      forall i | 0 <= i < |s| - |r|
        ensures IsSpace(s[i])
      {
        if i > 0 {
          assert s[i] == s[1..][i - 1];
        }
      }
    }
  }

  /** The number of decimal digits at the start of `s`. */
  function DigitRun(s: seq<byte>): (n: nat)
    ensures n <= |s|
  {
    if s != [] && IsDigit(s[0]) then 1 + DigitRun(s[1..]) else 0
  }

  /** The run is made of digits and is the longest such run. */
  lemma {:induction false} DigitRunMaximal(s: seq<byte>)
    ensures var n := DigitRun(s);
            && AllDigits(s[..n]) && (n < |s| ==> !IsDigit(s[n]))
  {
    if s != [] && IsDigit(s[0]) {
      DigitRunMaximal(s[1..]);
      assert s[..DigitRun(s)] == [s[0]] + s[1..][..DigitRun(s[1..])];
    }
  }

  /** The value of a string of decimal digits, most significant first. */
  function DecimalValue(d: seq<byte>): int
  {
    if d == [] then 0 else 10 * DecimalValue(d[..|d| - 1]) + (d[|d| - 1] - Zero)
  }

  /** `strtol(s, NULL, 10)`: leading white space, an optional sign, then the longest run
      of digits; a value outside the range of `long` is clamped to the nearest bound. */
  function StrToLong(s: seq<byte>): int
  {
    var t := SkipSpaces(s);
    var negative := t != [] && t[0] == Minus;
    var u := if t != [] && (t[0] == Plus || t[0] == Minus) then t[1..] else t;
    var v: int := DecimalValue(u[..DigitRun(u)]);
    if negative then (if -v < LongMin then LongMin else -v)
    else (if v > LongMax then LongMax else v)
  }

  /** `bytes_total = atol(length_buffer)`: `atol` reads the C string in the buffer, and the
      assignment to a `UINT` reduces the `long` modulo 2^32. */
  function Atol(buf: seq<byte>): u32
  {
    StrToLong(CString(buf)) % U32Modulus
  }

  /** The decimal text a host sends for a length: no sign, no leading zeros. */
  function Decimal(n: nat): (d: seq<byte>)
    ensures 1 <= |d| && AllDigits(d) && DecimalValue(d) == n
  ensures d[0] == Zero <==> n == 0
  {
    if n < 10 then [Zero + n]
    else
      var d := Decimal(n / 10) + [Zero + n % 10];
      assert d[..|d| - 1] == Decimal(n / 10);
      d
  }

  function Pow10(k: nat): nat
  {
    if k == 0 then 1 else 10 * Pow10(k - 1)
  }

  /** A number below 10^k takes at most k digits. */
  lemma {:induction false} DecimalLength(n: nat, k: nat)
    requires 1 <= k && n < Pow10(k)
    ensures |Decimal(n)| <= k
  {
    if n >= 10 {
      DecimalLength(n / 10, k - 1);
    }
  }

  /** Every length the firmware can hold in a `long` fits the 16-byte length buffer with
      its terminator. */
  lemma DecimalFitsLengthBuffer(n: nat)
    requires n <= LongMax
    ensures |Decimal(n)| <= 10
  {
    assert Pow10(10) == 10_000_000_000;
    DecimalLength(n, 10);
  }

  lemma SkipSpacesOfDigits(d: seq<byte>)
    requires 1 <= |d| && AllDigits(d)
    ensures SkipSpaces(d) == d
  {
    assert IsDigit(d[0]);
  }

  lemma DigitRunOfDigits(d: seq<byte>)
    requires AllDigits(d)
    ensures DigitRun(d) == |d|
  {
  }

  /** `strtol` on a plain run of digits is its decimal value, clamped to `long`. */
  lemma StrToLongOfDigits(d: seq<byte>)
    requires 1 <= |d| && AllDigits(d)
    ensures StrToLong(d) == if DecimalValue(d) > LongMax then LongMax else DecimalValue(d)
  {
    SkipSpacesOfDigits(d);
    DigitRunOfDigits(d);
    assert d[0] != Plus && d[0] != Minus by { assert IsDigit(d[0]); }
    assert d[..|d|] == d;
  }

  /** Round trip: `atol` reads back the decimal text of any non-negative `long`, whatever
      stale bytes follow its terminator in the buffer. */
  lemma AtolDecimal(n: nat, rest: seq<byte>)
    requires n <= LongMax
    ensures Atol(Decimal(n) + [Nul] + rest) == n
  {
    var d := Decimal(n);
    DigitsNoNul(d);
    CStringOfTerminated(d, rest);
    StrToLongOfDigits(d);
  }

  /** Digits are never the terminator. */
  lemma DigitsNoNul(d: seq<byte>)
    requires AllDigits(d)
    ensures NoZero(d)
  {
    forall i | 0 <= i < |d| ensures d[i] != Nul { assert IsDigit(d[i]); }
  }
}
