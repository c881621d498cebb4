// Typed values and column references (src/common/common.h): the Value
// struct with its 32-/64-bit integer union and its raw record buffer, the
// DATETIME validation, the conversion of a value to a column's type, the
// CSV field parser behind setData, and the TabCol ordering. FLOAT values
// are not part of this model. Integers are stored little-endian, as on the
// machines the engine targets.
module Values {
  import opened Wrappers
  import opened Errors
  import opened PyStr

  datatype ColType = TypeInt | TypeBigint | TypeFloat | TypeString | TypeDatetime

  const INT_MIN: int := -0x8000_0000
  const INT_MAX: int := 0x7fff_ffff
  const LLONG_MIN: int := -0x8000_0000_0000_0000
  const LLONG_MAX: int := 0x7fff_ffff_ffff_ffff

  predicate IsInt32(v: int) { INT_MIN <= v <= INT_MAX }

  predicate IsInt64(v: int) { LLONG_MIN <= v <= LLONG_MAX }

  /**
   * A conversion to `int`: the value modulo 2^32, read back as a signed
   * 32-bit number. Values already in range are kept.
   */
  function Wrap32(v: int): (r: int)
    ensures IsInt32(r) && (v - r) % 0x1_0000_0000 == 0
    ensures IsInt32(v) ==> r == v
  {
    var m := v % 0x1_0000_0000;
    if m > INT_MAX then m - 0x1_0000_0000 else m
  }

  /** The same for `long long`: the value modulo 2^64, read back signed. */
  function Wrap64(v: int): (r: int)
    ensures IsInt64(r) && (v - r) % 0x1_0000_0000_0000_0000 == 0
    ensures IsInt64(v) ==> r == v
  {
    var m := v % 0x1_0000_0000_0000_0000;
    if m > LLONG_MAX then m - 0x1_0000_0000_0000_0000 else m
  }

  // ---------------------------------------------------------------------
  // Integer encodings in a raw buffer.

  function Pow256(w: nat): (p: nat)
    ensures p > 0
  {
    if w == 0 then 1 else 256 * Pow256(w - 1)
  }

  /** The w little-endian bytes of n modulo 256^w. */
  function LittleEndian(n: nat, w: nat): (bs: seq<byte>)
    ensures |bs| == w
  {
    if w == 0 then [] else [n % 256] + LittleEndian(n / 256, w - 1)
  }

  /** The unsigned number little-endian bytes stand for. */
  function Unsigned(bs: seq<byte>): nat
  {
    if bs == [] then 0 else bs[0] + 256 * Unsigned(bs[1..])
  }

  lemma MulAtLeast(d: int, k: int)
    requires d > 0 && k >= 1
    ensures d * k >= d
    decreases k
  {
    if k > 1 {
      MulAtLeast(d, k - 1);
      assert d * k == d * (k - 1) + d;
    }
  }

  /** Division is unique: a quotient and a remainder below the divisor are n / d and n % d. */
  lemma ModOfSplit(n: int, d: int, q: int, m: int)
    requires d > 0 && n == d * q + m && 0 <= m < d
    ensures n % d == m && n / d == q
  {
    var q2, m2 := n / d, n % d;
    assert d * (q - q2) == m2 - m;
    if q > q2 {
      MulAtLeast(d, q - q2);
    } else if q < q2 {
      MulAtLeast(d, q2 - q);
    }
  }

  /** Reading back w bytes written little-endian gives the number modulo 256^w. */
  lemma {:induction false} UnsignedLittleEndian(n: nat, w: nat)
    ensures Unsigned(LittleEndian(n, w)) == n % Pow256(w)
  {
    if w > 0 {
      var p := Pow256(w - 1);
      var q, r := n / 256, n % 256;
      UnsignedLittleEndian(q, w - 1);
      assert LittleEndian(n, w)[1..] == LittleEndian(q, w - 1);
      var b := q % p;
      assert n == 256 * p * (q / p) + (256 * b + r);
      ModOfSplit(n, 256 * p, q / p, 256 * b + r);
    }
  }

  /** Bytes read after bytes: the later ones count 256^|a| times as much. */
  lemma {:induction false} UnsignedAppend(a: seq<byte>, b: seq<byte>)
    ensures Unsigned(a + b) == Unsigned(a) + Pow256(|a|) * Unsigned(b)
    decreases |a|
  {
    if a != [] {
      assert (a + b)[1..] == a[1..] + b;
      UnsignedAppend(a[1..], b);
      var u, p, v := Unsigned(a[1..]), Pow256(|a| - 1), Unsigned(b);
      assert Unsigned(a + b) == a[0] + 256 * (u + p * v);
      ScaleSum(u, p, v);
    } else {
      assert a + b == b;
    }
  }

  lemma ScaleSum(u: int, p: int, v: int)
    ensures 256 * (u + p * v) == 256 * u + (256 * p) * v
  {
    assert 256 * (p * v) == (256 * p) * v;
  }

  /** w bytes stand for a number below 256^w. */
  lemma {:induction false} UnsignedBelow(bs: seq<byte>)
    ensures Unsigned(bs) < Pow256(|bs|)
    decreases |bs|
  {
    if bs != [] {
      UnsignedBelow(bs[1..]);
    }
  }

  lemma Pow256Widths()
    ensures Pow256(4) == 0x1_0000_0000 && Pow256(8) == 0x1_0000_0000_0000_0000
  {
    assert Pow256(2) == 0x1_0000;
    assert Pow256(4) == 0x1_0000_0000;
  }

  /** The 4 bytes `*(int *)data = v` writes, for any v truncated to int. */
  function Int32Bytes(v: int): (bs: seq<byte>)
    ensures |bs| == 4
  {
    LittleEndian(v % 0x1_0000_0000, 4)
  }

  /** The 8 bytes `*(long long *)data = v` writes. */
  function Int64Bytes(v: int): (bs: seq<byte>)
    ensures |bs| == 8
  {
    LittleEndian(v % 0x1_0000_0000_0000_0000, 8)
  }

  /** `*(int *)data`: the first 4 bytes read as a signed 32-bit number. */
  function ReadInt32(bs: seq<byte>): int
    requires |bs| >= 4
  {
    var u := Unsigned(bs[..4]);
    if u > INT_MAX then u - 0x1_0000_0000 else u
  }

  /** `*(long long *)data`: the first 8 bytes read as a signed 64-bit number. */
  function ReadInt64(bs: seq<byte>): int
    requires |bs| >= 8
  {
    var u := Unsigned(bs[..8]);
    if u > LLONG_MAX then u - 0x1_0000_0000_0000_0000 else u
  }

  /** Reading an int back from where it was stored gives the stored value, truncated to int. */
  lemma ReadInt32Bytes(v: int)
    ensures ReadInt32(Int32Bytes(v)) == Wrap32(v)
    ensures IsInt32(v) ==> ReadInt32(Int32Bytes(v)) == v
  {
    Pow256Widths();
    UnsignedLittleEndian(v % 0x1_0000_0000, 4);
    assert Int32Bytes(v)[..4] == Int32Bytes(v);
  }

  /** Reading a long long back from where it was stored gives the stored value. */
  lemma ReadInt64Bytes(v: int)
    ensures ReadInt64(Int64Bytes(v)) == Wrap64(v)
    ensures IsInt64(v) ==> ReadInt64(Int64Bytes(v)) == v
  {
    Pow256Widths();
    UnsignedLittleEndian(v % 0x1_0000_0000_0000_0000, 8);
    assert Int64Bytes(v)[..8] == Int64Bytes(v);
  }
  /** A field whose first 4 bytes are those of v reads back as v truncated to int. */
  lemma ReadInt32Head(bs: seq<byte>, v: int)
    requires |bs| >= 4 && bs[..4] == Int32Bytes(v)
    ensures ReadInt32(bs) == Wrap32(v)
  {
    ReadInt32Bytes(v);
    assert Int32Bytes(v)[..4] == Int32Bytes(v);
  }

  /** A field whose first 8 bytes are those of v reads back as v truncated to long long. */
  lemma ReadInt64Head(bs: seq<byte>, v: int)
    requires |bs| >= 8 && bs[..8] == Int64Bytes(v)
    ensures ReadInt64(bs) == Wrap64(v)
  {
    ReadInt64Bytes(v);
    assert Int64Bytes(v)[..8] == Int64Bytes(v);
  }


  /** Whatever four bytes hold, reading them as an int gives an int. */
  lemma ReadInt32Range(bs: seq<byte>)
    requires |bs| >= 4
    ensures IsInt32(ReadInt32(bs))
  {
    UnsignedBelow(bs[..4]);
    Pow256Widths();
  }

  /** Distinct byte strings of one width stand for distinct numbers. */
  lemma {:induction false} UnsignedInjective(a: seq<byte>, b: seq<byte>)
    requires |a| == |b| && Unsigned(a) == Unsigned(b)
    ensures a == b
    decreases |a|
  {
    if a != [] {
      var x, y := Unsigned(a[1..]), Unsigned(b[1..]);
      assert a[0] + 256 * x == b[0] + 256 * y;
      UnsignedInjective(a[1..], b[1..]);
      assert a == [a[0]] + a[1..] && b == [b[0]] + b[1..];
    }
  }

  /** Two fields read as the same int hold the same four bytes. */
  lemma ReadInt32Injective(f: seq<byte>, g: seq<byte>)
    requires |f| >= 4 && |g| >= 4 && ReadInt32(f) == ReadInt32(g)
    ensures f[..4] == g[..4]
  {
    UnsignedBelow(f[..4]);
    UnsignedBelow(g[..4]);
    Pow256Widths();
    UnsignedInjective(f[..4], g[..4]);
  }

  /** Distinct ints are stored as distinct bytes, so byte comparison of keys tells them apart. */
  lemma Int32BytesInjective(a: int, b: int)
    requires IsInt32(a) && IsInt32(b) && Int32Bytes(a) == Int32Bytes(b)
    ensures a == b
  {
    ReadInt32Bytes(a);
    ReadInt32Bytes(b);
  }

  // ---------------------------------------------------------------------
  // DATETIME validation (check_datetime and its isValidDate).

  /** A Gregorian leap year. */
  predicate IsLeap(year: int)
  {
    (year % 4 == 0 && year % 100 != 0) || year % 400 == 0
  }

  /** The length of a month of the Gregorian calendar. */
  function DaysInMonth(year: int, month: int): int
    requires 1 <= month <= 12
  {
    if month == 2 then (if IsLeap(year) then 29 else 28)
    else if month == 4 || month == 6 || month == 9 || month == 11 then 30
    else 31
  }

  /**
   * isValidDate: year from 1900 on, a month of the year and a day of that
   * month; the checks are written as ranges, the thirty-day months and a
   * February rule, and together they accept exactly the calendar's days.
   */
  function IsValidDate(year: int, month: int, day: int): (r: bool)
    ensures r <==> year >= 1900 && 1 <= month <= 12 && 1 <= day <= DaysInMonth(year, month)
  {
    if (year < 1900 || month < 1 || month > 12 || day < 1 || day > 31)
       || ((month == 4 || month == 6 || month == 9 || month == 11) && day > 30) then
      false
    else if month == 2 then
      if IsLeap(year) then day <= 29 else day <= 28
    else
      true
  }

  predicate IsDigitByte(b: int) { 48 <= b <= 57 }

  /** "0000-00-00 00:00:00" as bytes. */
  const DatetimeShape: seq<byte> := [48, 48, 48, 48, 45, 48, 48, 45, 48, 48, 32, 48, 48, 58, 48, 48, 58, 48, 48]

  /** Nineteen bytes that equal the shape once every digit is replaced by '0'. */
  predicate HasDatetimeShape(s: seq<byte>)
  {
    |s| == 19 && forall i :: 0 <= i < 19 ==> (if IsDigitByte(s[i]) then 48 else s[i]) == DatetimeShape[i]
  }

  /** The digit a byte stands for ('0' is 48). */
  function Dv(b: int): int { b - 48 }

  /** The number the n digit bytes at position i spell. */
  function Num(s: seq<byte>, i: nat, n: nat): int
    requires i + n <= |s|
  {
    if n == 0 then 0 else 10 * Num(s, i, n - 1) + Dv(s[i + n - 1])
  }

  datatype Datetime = Datetime(year: int, month: int, day: int, hour: int, minute: int, second: int)

  /** The six numbers sscanf reads from a string of the DATETIME shape. */
  function FieldsOf(s: seq<byte>): Datetime
    requires |s| == 19
  {
    Datetime(Num(s, 0, 4), Num(s, 5, 2), Num(s, 8, 2), Num(s, 11, 2), Num(s, 14, 2), Num(s, 17, 2))
  }

  /** A real instant: a valid date from 1900 to 9999 and a time of day. */
  predicate ValidDatetime(t: Datetime)
  {
    && 1900 <= t.year <= 9999 && IsValidDate(t.year, t.month, t.day)
    && 0 <= t.hour <= 23 && 0 <= t.minute <= 59 && 0 <= t.second <= 59
  }

  /**
   * check_datetime: the string must have the shape, the date must be valid
   * and hour, minute and second in range; otherwise DateTimeFormatError.
   * (With the shape matched sscanf always reads all six numbers, and none
   * is negative.)
   */
  function CheckDatetime(s: seq<byte>): (r: Result<(), DbError>)
    ensures r.Err? ==> r.error == DateTimeFormat
  {
    if !HasDatetimeShape(s) then Err(DateTimeFormat)
    else
      var t := FieldsOf(s);
      if IsValidDate(t.year, t.month, t.day) && t.hour <= 23 && t.minute <= 59 && t.second <= 59 then Ok(())
      else Err(DateTimeFormat)
  }

  function DigitByte(n: int): byte
    requires 0 <= n < 10
  {
    48 + n
  }

  /** The 19-byte text of an instant: zero-padded fields in the DATETIME shape. */
  function RenderDatetime(t: Datetime): (s: seq<byte>)
    requires 0 <= t.year <= 9999 && 0 <= t.month <= 99 && 0 <= t.day <= 99
    requires 0 <= t.hour <= 99 && 0 <= t.minute <= 99 && 0 <= t.second <= 99
    ensures |s| == 19
  {
    [DigitByte(t.year / 1000), DigitByte(t.year / 100 % 10), DigitByte(t.year / 10 % 10), DigitByte(t.year % 10), 45,
     DigitByte(t.month / 10), DigitByte(t.month % 10), 45, DigitByte(t.day / 10), DigitByte(t.day % 10), 32,
     DigitByte(t.hour / 10), DigitByte(t.hour % 10), 58, DigitByte(t.minute / 10), DigitByte(t.minute % 10), 58,
     DigitByte(t.second / 10), DigitByte(t.second % 10)]
  }

  lemma Num2(s: seq<byte>, i: nat)
    requires i + 2 <= |s|
    ensures Num(s, i, 2) == 10 * Dv(s[i]) + Dv(s[i + 1])
  {
    assert Num(s, i, 1) == Dv(s[i]);
  }

  lemma Num4(s: seq<byte>, i: nat)
    requires i + 4 <= |s|
    ensures Num(s, i, 4) == 1000 * Dv(s[i]) + 100 * Dv(s[i + 1]) + 10 * Dv(s[i + 2]) + Dv(s[i + 3])
  {
    Num2(s, i);
    assert Num(s, i, 3) == 10 * Num(s, i, 2) + Dv(s[i + 2]);
  }

  lemma FieldsOfDigits(s: seq<byte>)
    requires |s| == 19
    ensures FieldsOf(s) == Datetime(
      1000 * Dv(s[0]) + 100 * Dv(s[1]) + 10 * Dv(s[2]) + Dv(s[3]),
      10 * Dv(s[5]) + Dv(s[6]), 10 * Dv(s[8]) + Dv(s[9]),
      10 * Dv(s[11]) + Dv(s[12]), 10 * Dv(s[14]) + Dv(s[15]), 10 * Dv(s[17]) + Dv(s[18]))
  {
    Num4(s, 0);
    Num2(s, 5); Num2(s, 8); Num2(s, 11); Num2(s, 14); Num2(s, 17);
  }

  /** Every valid instant, written out, passes check_datetime and reads back as itself. */
  lemma DatetimeAccepted(t: Datetime)
    requires ValidDatetime(t)
    ensures CheckDatetime(RenderDatetime(t)) == Ok(())
    ensures FieldsOf(RenderDatetime(t)) == t
  {
    RenderedFields(t);
    RenderedShape(t);
  }

  /** The digits of a number below 10000, most significant first, spell the number. */
  lemma FourDigits(y: int)
    requires 0 <= y <= 9999
    ensures 1000 * (y / 1000) + 100 * (y / 100 % 10) + 10 * (y / 10 % 10) + y % 10 == y
    ensures 0 <= y / 1000 < 10
  {
    var a, r1 := y / 1000, y % 1000;
    var b, r2 := r1 / 100, r1 % 100;
    var c, d := r2 / 10, r2 % 10;
    assert y == 1000 * a + 100 * b + 10 * c + d;
    DigitsOfFour(a, b, c, d);
  }

  lemma RenderedFields(t: Datetime)
    requires 0 <= t.year <= 9999 && 0 <= t.month <= 99 && 0 <= t.day <= 99
    requires 0 <= t.hour <= 99 && 0 <= t.minute <= 99 && 0 <= t.second <= 99
    ensures FieldsOf(RenderDatetime(t)) == t
  {
    var s := RenderDatetime(t);
    FieldsOfDigits(s);
    FourDigits(t.year);
  }

  /** Four digits spell a number whose digits they are. */
  lemma DigitsOfFour(a: int, b: int, c: int, d: int)
    requires 0 <= a < 10 && 0 <= b < 10 && 0 <= c < 10 && 0 <= d < 10
    ensures var y := 1000 * a + 100 * b + 10 * c + d;
      y / 1000 == a && y / 100 % 10 == b && y / 10 % 10 == c && y % 10 == d
  {
    var y := 1000 * a + 100 * b + 10 * c + d;
    ModOfSplit(y, 1000, a, 100 * b + 10 * c + d);
    ModOfSplit(y, 100, 10 * a + b, 10 * c + d);
    ModOfSplit(10 * a + b, 10, a, b);
    ModOfSplit(y, 10, 100 * a + 10 * b + c, d);
    ModOfSplit(100 * a + 10 * b + c, 10, 10 * a + b, c);
  }

  lemma DigitsOfTwo(a: int, b: int)
    requires 0 <= a < 10 && 0 <= b < 10
    ensures (10 * a + b) / 10 == a && (10 * a + b) % 10 == b
  {
    ModOfSplit(10 * a + b, 10, a, b);
  }

  lemma RenderedShape(t: Datetime)
    requires 0 <= t.year <= 9999 && 0 <= t.month <= 99 && 0 <= t.day <= 99
    requires 0 <= t.hour <= 99 && 0 <= t.minute <= 99 && 0 <= t.second <= 99
    ensures HasDatetimeShape(RenderDatetime(t))
  {
    var s := RenderDatetime(t);
    forall i | 0 <= i < 19 ensures (if IsDigitByte(s[i]) then 48 else s[i]) == DatetimeShape[i] {
    }
  }

  /** The bytes of a string of the DATETIME shape, position by position. */
  lemma ShapeBytes(s: seq<byte>)
    requires HasDatetimeShape(s)
    ensures s[4] == 45 && s[7] == 45 && s[10] == 32 && s[13] == 58 && s[16] == 58
    ensures 0 <= Dv(s[0]) < 10 && 0 <= Dv(s[1]) < 10 && 0 <= Dv(s[2]) < 10 && 0 <= Dv(s[3]) < 10
    ensures 0 <= Dv(s[5]) < 10 && 0 <= Dv(s[6]) < 10 && 0 <= Dv(s[8]) < 10 && 0 <= Dv(s[9]) < 10
    ensures 0 <= Dv(s[11]) < 10 && 0 <= Dv(s[12]) < 10 && 0 <= Dv(s[14]) < 10 && 0 <= Dv(s[15]) < 10
    ensures 0 <= Dv(s[17]) < 10 && 0 <= Dv(s[18]) < 10
  {
    assert forall i :: 0 <= i < 19 && DatetimeShape[i] == 48 ==> IsDigitByte(s[i]);
    assert forall i :: 0 <= i < 19 && DatetimeShape[i] != 48 ==> s[i] == DatetimeShape[i];
  }

  /** Only such texts pass: an accepted string is the rendering of a valid instant. */
  lemma DatetimeAcceptedOnlyRendered(s: seq<byte>)
    requires CheckDatetime(s).Ok?
    ensures ValidDatetime(FieldsOf(s)) && RenderDatetime(FieldsOf(s)) == s
  {
    ShapeBytes(s);
    FieldsOfDigits(s);
    var t := FieldsOf(s);
    assert ValidDatetime(t);
    DigitsOfFour(Dv(s[0]), Dv(s[1]), Dv(s[2]), Dv(s[3]));
    DigitsOfTwo(Dv(s[5]), Dv(s[6]));
    DigitsOfTwo(Dv(s[8]), Dv(s[9]));
    DigitsOfTwo(Dv(s[11]), Dv(s[12]));
    DigitsOfTwo(Dv(s[14]), Dv(s[15]));
    DigitsOfTwo(Dv(s[17]), Dv(s[18]));
    var r := RenderDatetime(t);
    assert r[0] == s[0] && r[1] == s[1] && r[2] == s[2] && r[3] == s[3] && r[4] == s[4];
    assert r[5] == s[5] && r[6] == s[6] && r[7] == s[7] && r[8] == s[8] && r[9] == s[9];
    assert r[10] == s[10] && r[11] == s[11] && r[12] == s[12] && r[13] == s[13] && r[14] == s[14];
    assert r[15] == s[15] && r[16] == s[16] && r[17] == s[17] && r[18] == s[18];
    Same19(r, s);
  }

  lemma Same19(r: seq<byte>, s: seq<byte>)
    requires |r| == |s| == 19
    requires r[0] == s[0] && r[1] == s[1] && r[2] == s[2] && r[3] == s[3] && r[4] == s[4]
    requires r[5] == s[5] && r[6] == s[6] && r[7] == s[7] && r[8] == s[8] && r[9] == s[9]
    requires r[10] == s[10] && r[11] == s[11] && r[12] == s[12] && r[13] == s[13] && r[14] == s[14]
    requires r[15] == s[15] && r[16] == s[16] && r[17] == s[17] && r[18] == s[18]
    ensures r == s
  {
    assert forall i | 0 <= i < 19 :: r[i] == s[i];
  }

  // ---------------------------------------------------------------------
  // Parsing a text field (setData's strtoll).

  /** Text made of C chars, each one byte. */
  predicate IsAscii(s: string)
  {
    forall i :: 0 <= i < |s| ==> s[i] as int < 256
  }

  /** The bytes memcpy copies out of a char buffer. */
  function Ascii(s: string): (bs: seq<byte>)
    requires IsAscii(s)
    ensures |bs| == |s| && forall i :: 0 <= i < |s| ==> bs[i] == s[i] as int
  {
    seq(|s|, i requires 0 <= i < |s| => s[i] as int)
  }

  /** C's isspace: space, tab, newline, vertical tab, form feed and carriage return. */
  predicate CSpace(c: char)
  {
    c == ' ' || c == '\t' || c == '\n' || c == '\U{B}' || c == '\U{C}' || c == '\r'
  }

  /** The first position at or after i that is not white space (C's isspace). */
  function SpaceEnd(s: string, i: nat): (k: nat)
    requires i <= |s|
    ensures i <= k <= |s| && (k < |s| ==> !CSpace(s[k]))
    ensures forall j :: i <= j < k ==> CSpace(s[j])
    decreases |s| - i
  {
    if i == |s| || !CSpace(s[i]) then i else SpaceEnd(s, i + 1)
  }

  /** The first position at or after i that is not a decimal digit. */
  function DigitEnd(s: string, i: nat): (k: nat)
    requires i <= |s|
    ensures i <= k <= |s| && (k < |s| ==> !IsDigit(s[k]))
    ensures forall j :: i <= j < k ==> IsDigit(s[j])
    decreases |s| - i
  {
    if i == |s| || !IsDigit(s[i]) then i else DigitEnd(s, i + 1)
  }

  /** strtoll's result and whether it set errno to ERANGE. */
  datatype Parsed = Parsed(value: int, outOfRange: bool)

  /**
   * strtoll(buf, NULL, 10): white space, an optional sign and the longest
   * run of digits (none gives 0); a number beyond long long is clamped to
   * LLONG_MAX or LLONG_MIN and flagged.
   */
  function Strtoll(s: string): (p: Parsed)
    ensures IsInt64(p.value)
  {
    var i := SpaceEnd(s, 0);
    var signed := i < |s| && (s[i] == '-' || s[i] == '+');
    var j := if signed then i + 1 else i;
    var k := DigitEnd(s, j);
    var mag: int := DigitsValue(s[j..k]);
    var v: int := if signed && s[i] == '-' then -mag else mag;
    if v > LLONG_MAX then Parsed(LLONG_MAX, true)
    else if v < LLONG_MIN then Parsed(LLONG_MIN, true)
    else Parsed(v, false)
  }

  /** strtoll reads back what std::to_string wrote, for every long long. */
  lemma StrtollOfToString(v: int)
    requires IsInt64(v)
    ensures Strtoll(IntToString(v)) == Parsed(v, false)
  {
    var s := IntToString(v);
    if v < 0 {
      assert s[1..] == NatToString(-v);
      assert s[0] == '-' && SpaceEnd(s, 0) == 0;
      assert DigitEnd(s, 1) == |s| by {
        assert forall j :: 1 <= j < |s| ==> IsDigit(s[j]) by {
          assert forall j :: 1 <= j < |s| ==> s[j] == NatToString(-v)[j - 1];
        }
        DigitEndAll(s, 1);
      }
      assert s[1..|s|] == NatToString(-v);
      DigitsValueOfNat(-v);
    } else {
      assert !CSpace(s[0]);
      DigitEndAll(s, 0);
      assert s[0..|s|] == s;
      DigitsValueOfNat(v);
    }
  }

  lemma {:induction false} DigitEndAll(s: string, i: nat)
    requires i <= |s| && forall j :: i <= j < |s| ==> IsDigit(s[j])
    ensures DigitEnd(s, i) == |s|
    decreases |s| - i
  {
    if i < |s| {
      DigitEndAll(s, i + 1);
    }
  }

  /**
   * setData's INT field as written: strtoll's result stored in an `int`.
   * Only a number beyond long long is refused; one beyond int is cut to
   * its low 32 bits.
   */
  function IntFieldAsWritten(buf: string): (r: Result<int, DbError>)
    ensures r.Ok? ==> IsInt32(r.value) && r.value == Wrap32(Strtoll(buf).value)
  {
    var p := Strtoll(buf);
    if p.outOfRange then Err(ResultOutOfRange) else Ok(Wrap32(p.value))
  }

  /** The text of 3000000000 is loaded into an INT column as -1294967296, without an error. */
  lemma IntFieldWraps(v: int)
    requires v == 3000000000
    ensures IntFieldAsWritten(IntToString(v)) == Ok(-1294967296)
  {
    StrtollOfToString(v);
    assert Wrap32(v) == -1294967296 by {
      assert v % 0x1_0000_0000 == v;
    }
  }

  /**
   * setData's INT field as evidently intended: a number outside int is
   * ResultOutOfRangeError, like one outside long long.
   */
  function IntField(buf: string): (r: Result<int, DbError>)
    ensures r.Ok? ==> IsInt32(r.value) && r.value == Strtoll(buf).value
    ensures r.Err? <==> !IsInt32(Strtoll(buf).value) || Strtoll(buf).outOfRange
  {
    var p := Strtoll(buf);
    if p.outOfRange || !IsInt32(p.value) then Err(ResultOutOfRange) else Ok(p.value)
  }

  /** Every int written out in decimal loads back as itself; nothing else in range is changed. */
  lemma IntFieldRoundTrip(v: int)
    ensures IsInt32(v) ==> IntField(IntToString(v)) == Ok(v)
    ensures IsInt64(v) && !IsInt32(v) ==> IntField(IntToString(v)) == Err(ResultOutOfRange)
  {
    if IsInt64(v) {
      StrtollOfToString(v);
    }
  }

  /** setData's BIGINT field: strtoll's result, refused only beyond long long. */
  function BigintField(buf: string): (r: Result<int, DbError>)
    ensures r.Ok? ==> IsInt64(r.value) && r.value == Strtoll(buf).value
    ensures r.Err? <==> Strtoll(buf).outOfRange
  {
    var p := Strtoll(buf);
    if p.outOfRange then Err(ResultOutOfRange) else Ok(p.value)
  }

  /** Every long long written out in decimal loads back as itself. */
  lemma BigintFieldRoundTrip(v: int)
    requires IsInt64(v)
    ensures BigintField(IntToString(v)) == Ok(v)
  {
    StrtollOfToString(v);
  }

  // ---------------------------------------------------------------------
  // Values.

  /**
   * A value's type reaches a column's type by conversion: the same type,
   * INT and BIGINT either way, or a STRING into a DATETIME column.
   */
  predicate Convertible(from: ColType, to: ColType)
  {
    from == to || (from == TypeBigint && to == TypeInt) || (from == TypeInt && to == TypeBigint)
    || (from == TypeString && to == TypeDatetime)
  }

  function Zeros(n: nat): (z: seq<byte>)
    ensures |z| == n && forall i :: 0 <= i < n ==> z[i] == 0
  {
    seq(n, _ => 0)
  }

  class Value {
    var valType: ColType
    /** The integer the union holds: int_val for an INT, bigint_val for a BIGINT. */
    var num: int
    var raw: seq<byte>

    /** The union holds a number of its type's width. */
    ghost predicate Valid()
      reads this
    {
      (valType == TypeInt ==> IsInt32(num)) && (valType == TypeBigint ==> IsInt64(num))
    }

    /** A value as the parser hands it over. */
    constructor(valType: ColType, num: int, raw: seq<byte>)
      ensures this.valType == valType && this.num == num && this.raw == raw
    {
      this.valType := valType;
      this.num := num;
      this.raw := raw;
    }

    /** set_int: an INT whose raw buffer is its 4 bytes. */
    method SetInt(v: int)
      requires IsInt32(v)
      modifies this
      ensures Valid() && valType == TypeInt && num == v && raw == Int32Bytes(v)
      ensures ReadInt32(raw) == v
    {
      valType := TypeInt;
      num := v;
      raw := Int32Bytes(v);
      ReadInt32Bytes(v);
    }

    /** set_bigint: a BIGINT whose raw buffer is its 8 bytes. */
    method SetBigint(v: int)
      requires IsInt64(v)
      modifies this
      ensures Valid() && valType == TypeBigint && num == v && raw == Int64Bytes(v)
      ensures ReadInt64(raw) == v
    {
      valType := TypeBigint;
      num := v;
      raw := Int64Bytes(v);
      ReadInt64Bytes(v);
    }

    /** set_str: a STRING whose raw buffer is the text's bytes. */
    method SetStr(s: string)
      requires IsAscii(s)
      modifies this
      ensures Valid() && valType == TypeString && raw == Ascii(s) && num == old(num)
    {
      valType := TypeString;
      raw := Ascii(s);
    }

    /**
     * setData (with the INT field checked against int, see IntField): the
     * value takes the column's type; an INT or BIGINT field is parsed, a
     * number out of range is ResultOutOfRangeError; a DATETIME or STRING
     * field is copied into a buffer of the column's length, the bytes
     * after it zero.
     */
    method SetData(t: ColType, colLen: nat, buf: string) returns (r: Result<(), DbError>)
      requires t != TypeFloat && IsAscii(buf)
      requires t == TypeDatetime ==> |buf| == 19 && colLen == 19
      requires t == TypeString ==> |buf| <= colLen
      modifies this
      ensures valType == t && (r.Ok? ==> Valid())
      ensures t == TypeInt ==> (r.Ok? <==> IntField(buf).Ok?) && (r.Ok? ==> num == IntField(buf).value && raw == Int32Bytes(num))
      ensures t == TypeBigint ==> (r.Ok? <==> BigintField(buf).Ok?) && (r.Ok? ==> num == BigintField(buf).value && raw == Int64Bytes(num))
      ensures t == TypeDatetime || t == TypeString ==> r.Ok? && raw == Ascii(buf) + Zeros(colLen - |buf|) && num == old(num)
      ensures r.Err? ==> r.error == ResultOutOfRange
    {
      valType := t;
      if t == TypeInt {
        var f := IntField(buf);
        if f.Err? {
          return Err(ResultOutOfRange);
        }
        SetInt(f.value);
      } else if t == TypeBigint {
        var f := BigintField(buf);
        if f.Err? {
          return Err(ResultOutOfRange);
        }
        SetBigint(f.value);
      } else {
        raw := Ascii(buf) + Zeros(colLen - |buf|);
      }
      return Ok(());
    }

    /**
     * convert_value_to_col_type_and_fill: a BIGINT into an INT column is
     * truncated to int; an INT into a BIGINT column widened; a STRING into
     * a DATETIME column validated and retagged; any value into a STRING
     * column must fit the column (else StringOverflowError) and is
     * zero-padded to its length, keeping its type. Other pairs are left
     * alone. Afterwards the value has the column's type exactly when its
     * type was convertible to it.
     */
    method ConvertToColType(col: ColType, len: nat) returns (r: Result<(), DbError>)
      requires Valid() && !(col == TypeFloat && (valType == TypeInt || valType == TypeBigint))
      modifies this
      ensures r.Ok? ==> (valType == col <==> Convertible(old(valType), col))
      ensures r.Err? ==> valType == old(valType) && num == old(num) && raw == old(raw)
      ensures r.Ok? && old(valType) != TypeString && old(valType) != TypeDatetime ==> Valid()
      ensures col == TypeInt && old(valType) == TypeBigint ==>
        r.Ok? && num == Wrap32(old(num)) && raw == Int32Bytes(num) && ReadInt32(raw) == Wrap32(old(num))
      ensures col == TypeBigint && old(valType) == TypeInt ==>
        r.Ok? && num == old(num) && raw == Int64Bytes(num) && ReadInt64(raw) == old(num)
      ensures col == TypeDatetime && old(valType) == TypeString ==>
        r == CheckDatetime(old(raw)) && raw == old(raw)
      ensures col == TypeString ==>
        && (r.Err? <==> |old(raw)| > len) && (r.Err? ==> r.error == StringOverflow)
        && (r.Ok? ==> |raw| == len && raw[..|old(raw)|] == old(raw) && raw[|old(raw)|..] == Zeros(len - |old(raw)|))
      ensures !Convertible(old(valType), col) && col != TypeString ==> r.Ok? && raw == old(raw)
      ensures var c := Converted(Literal(old(valType), old(num), old(raw)), col, len);
        && (r.Ok? <==> c.Ok?) && (r.Ok? ==> c.value == Literal(valType, num, raw)) && (r.Err? ==> c.error == r.error)
    {
      if col == TypeInt && valType == TypeBigint {
        SetInt(Wrap32(num));
      } else if col == TypeBigint && valType == TypeInt {
        SetBigint(num);
      } else if col == TypeDatetime && valType == TypeString {
        r := CheckDatetime(raw);
        if r.Err? {
          return;
        }
        valType := TypeDatetime;
      } else if col == TypeString {
        if |raw| > len {
          return Err(StringOverflow);
        }
        if |raw| < len {
          raw := raw + Zeros(len - |raw|);
        }
      }
      return Ok(());
    }
  }

  // ---------------------------------------------------------------------
  // Column references.

  /** Lexicographic order on sequences of codes (std::string and memcmp comparison). */
  predicate LexLess(a: seq<int>, b: seq<int>)
    decreases |a|
  {
    if a == [] then b != []
    else if b == [] then false
    else if a[0] != b[0] then a[0] < b[0]
    else LexLess(a[1..], b[1..])
  }

  lemma {:induction false} LexLessIrreflexive(a: seq<int>)
    ensures !LexLess(a, a)
    decreases |a|
  {
    if a != [] {
      LexLessIrreflexive(a[1..]);
    }
  }

  lemma {:induction false} LexLessTransitive(a: seq<int>, b: seq<int>, c: seq<int>)
    requires LexLess(a, b) && LexLess(b, c)
    ensures LexLess(a, c)
    decreases |a|
  {
    if a != [] && b != [] && c != [] && a[0] == b[0] && b[0] == c[0] {
      LexLessTransitive(a[1..], b[1..], c[1..]);
    }
  }

  /** Any two sequences are equal or ordered one way. */
  lemma {:induction false} LexLessTotal(a: seq<int>, b: seq<int>)
    ensures a == b || LexLess(a, b) || LexLess(b, a)
    decreases |a|
  {
    if a != [] && b != [] && a[0] == b[0] {
      LexLessTotal(a[1..], b[1..]);
      if a[1..] == b[1..] {
        assert a == [a[0]] + a[1..] && b == [b[0]] + b[1..];
      }
    }
  }

  function Codes(s: string): (c: seq<int>)
    ensures |c| == |s| && forall i :: 0 <= i < |s| ==> c[i] == s[i] as int
  {
    seq(|s|, i requires 0 <= i < |s| => s[i] as int)
  }

  lemma CodesInjective(s: string, t: string)
    requires Codes(s) == Codes(t)
    ensures s == t
  {
    assert |s| == |t|;
    forall i | 0 <= i < |s| ensures s[i] == t[i] {
      assert Codes(s)[i] == Codes(t)[i];
    }
  }

  datatype AggType = NoAgg | AggCount | AggMax | AggMin | AggSum

  datatype TabCol = TabCol(tabName: string, colName: string, aliasName: string, aggType: AggType)

  /** TabCol operator==: the same table and column name, whatever the alias and aggregate. */
  predicate TabColEq(x: TabCol, y: TabCol)
  {
    x.tabName == y.tabName && x.colName == y.colName
  }

  /** TabCol operator<: the (table, column) pairs in lexicographic order. */
  predicate TabColLess(x: TabCol, y: TabCol)
  {
    LexLess(Codes(x.tabName), Codes(y.tabName))
    || (x.tabName == y.tabName && LexLess(Codes(x.colName), Codes(y.colName)))
  }

  /**
   * operator< is a strict order whose incomparable pairs are exactly the
   * pairs operator== identifies: irreflexive, transitive, and any two
   * column references are equal or ordered one way.
   */
  lemma TabColOrder(x: TabCol, y: TabCol, z: TabCol)
    ensures !TabColLess(x, x)
    ensures TabColLess(x, y) && TabColLess(y, z) ==> TabColLess(x, z)
    ensures TabColEq(x, y) <==> !TabColLess(x, y) && !TabColLess(y, x)
  {
    LexLessIrreflexive(Codes(x.tabName));
    LexLessIrreflexive(Codes(x.colName));
    LexLessIrreflexive(Codes(y.tabName));
    LexLessIrreflexive(Codes(y.colName));
    if TabColLess(x, y) && TabColLess(y, z) {
      if LexLess(Codes(x.tabName), Codes(y.tabName)) && LexLess(Codes(y.tabName), Codes(z.tabName)) {
        LexLessTransitive(Codes(x.tabName), Codes(y.tabName), Codes(z.tabName));
      } else if x.tabName == y.tabName && y.tabName == z.tabName {
        LexLessTransitive(Codes(x.colName), Codes(y.colName), Codes(z.colName));
      }
    }
    LexLessTotal(Codes(x.tabName), Codes(y.tabName));
    LexLessTotal(Codes(x.colName), Codes(y.colName));
    if Codes(x.tabName) == Codes(y.tabName) {
      CodesInjective(x.tabName, y.tabName);
    }
    if Codes(x.colName) == Codes(y.colName) {
      CodesInjective(x.colName, y.colName);
    }
    if LexLess(Codes(x.tabName), Codes(y.tabName)) && LexLess(Codes(y.tabName), Codes(x.tabName)) {
      LexLessTransitive(Codes(x.tabName), Codes(y.tabName), Codes(x.tabName));
    }
    if LexLess(Codes(x.colName), Codes(y.colName)) && LexLess(Codes(y.colName), Codes(x.colName)) {
      LexLessTransitive(Codes(x.colName), Codes(y.colName), Codes(x.colName));
    }
  }

  datatype CompOp = OpEq | OpNe | OpLt | OpGt | OpLe | OpGe

  /** A right-hand side value of a condition or SET clause, as the parser builds it. */
  datatype Literal = Literal(litType: ColType, num: int, raw: seq<byte>)

  /** The number of an INT or BIGINT value is in its type's range (Value.Valid). */
  predicate InRange(l: Literal)
  {
    (l.litType == TypeInt ==> IsInt32(l.num)) && (l.litType == TypeBigint ==> IsInt64(l.num))
  }

  /**
   * What ConvertToColType makes of a value of the given type, number and
   * bytes for a column of type col and length len.
   */
  function Converted(l: Literal, col: ColType, len: nat): (r: Result<Literal, DbError>)
    requires !(col == TypeFloat && (l.litType == TypeInt || l.litType == TypeBigint))
    ensures r.Ok? ==> (r.value.litType == col <==> Convertible(l.litType, col))
    ensures r.Err? ==> (col == TypeString && r.error == StringOverflow) || (col == TypeDatetime && r.error == DateTimeFormat)
    ensures r.Ok? && col == TypeString ==> |r.value.raw| == len
    ensures r.Ok? && InRange(l) ==> InRange(r.value)
  {
    if col == TypeInt && l.litType == TypeBigint then Ok(Literal(TypeInt, Wrap32(l.num), Int32Bytes(Wrap32(l.num))))
    else if col == TypeBigint && l.litType == TypeInt then Ok(Literal(TypeBigint, l.num, Int64Bytes(l.num)))
    else if col == TypeDatetime && l.litType == TypeString then
      (match CheckDatetime(l.raw)
       case Err(e) => Err(e)
       case Ok(_) => Ok(l.(litType := TypeDatetime)))
    else if col == TypeString then
      if |l.raw| > len then Err(StringOverflow)
      else if |l.raw| < len then Ok(l.(raw := l.raw + Zeros(len - |l.raw|)))
      else Ok(l)
    else Ok(l)
  }

  /**
   * Converting a converted value to the same column again changes nothing,
   * so a SET value converted in place once per updated row keeps the value
   * of its first conversion.
   */
  lemma ConvertedIdempotent(l: Literal, col: ColType, len: nat)
    requires !(col == TypeFloat && (l.litType == TypeInt || l.litType == TypeBigint))
    requires Converted(l, col, len).Ok?
    ensures Converted(Converted(l, col, len).value, col, len) == Converted(l, col, len)
  {
    var c := Converted(l, col, len).value;
    if col == TypeInt && l.litType == TypeBigint {
      assert c.litType == TypeInt;
    }
  }

  /** Condition: lhs_col op (rhs_col or rhs_val). */
  datatype Condition = Condition(lhsCol: TabCol, op: CompOp, isRhsVal: bool, rhsCol: TabCol, rhsVal: Literal)
}
