/** Samba logon hours: 168 bits, one per hour of the week, stored as 42 hexadecimal digits. */
module LogonHours {
  import opened Wrappers

  // ----- Python's number texts -----

  function Digit(n: nat): char
    requires n < 16
  {
    "0123456789abcdef"[n]
  }

  /** `hex(n)[2:]` */
  function Hex(n: nat): string {
    if n < 16 then [Digit(n)] else Hex(n / 16) + [Digit(n % 16)]
  }

  /** `bin(n)[2:]` */
  function Binary(n: nat): string {
    if n < 2 then [Digit(n)] else Binary(n / 2) + [Digit(n % 2)]
  }

  function Repeat(c: char, n: nat): (s: string)
    ensures |s| == n && forall i :: 0 <= i < n ==> s[i] == c
  {
    if n == 0 then "" else Repeat(c, n - 1) + [c]
  }

  /** `s.rjust(n, '0')` */
  function Rjust(s: string, n: nat): string {
    if |s| < n then Repeat('0', n - |s|) + s else s
  }

  function Reverse(s: string): string {
    seq(|s|, i requires 0 <= i < |s| => s[|s| - 1 - i])
  }

  function UpperChar(c: char): char {
    if 'a' <= c <= 'f' then c - 'a' + 'A' else c
  }

  /** `s.upper()`, on hexadecimal digits. */
  function Upper(s: string): string {
    seq(|s|, i requires 0 <= i < |s| => UpperChar(s[i]))
  }

  predicate IsHex(c: char) {
    '0' <= c <= '9' || 'a' <= c <= 'f' || 'A' <= c <= 'F'
  }

  function HexValue(c: char): (v: nat)
    requires IsHex(c)
    ensures v < 16
  {
    if '0' <= c <= '9' then (c - '0') as nat
    else if 'a' <= c <= 'f' then (c - 'a') as nat + 10
    else (c - 'A') as nat + 10
  }

  predicate AllHex(s: string) {
    forall i :: 0 <= i < |s| ==> IsHex(s[i])
  }

  /** `int(s, 16)` on one or two hexadecimal digits. */
  function ParseHex(s: string): (v: nat)
    requires AllHex(s) && 1 <= |s| <= 2
    ensures v < 256
  {
    if |s| == 1 then HexValue(s[0]) else 16 * HexValue(s[0]) + HexValue(s[1])
  }

  predicate IsBits(s: string) {
    forall i :: 0 <= i < |s| ==> s[i] == '0' || s[i] == '1'
  }

  /** `int(s[:n], 2)` on bits. */
  function ParseBits(s: string, n: nat): nat
    requires IsBits(s) && n <= |s|
  {
    if n == 0 then 0 else 2 * ParseBits(s, n - 1) + if s[n - 1] == '1' then 1 else 0
  }

  // ----- sizes -----

  function Pow2(n: nat): nat {
    if n == 0 then 1 else 2 * Pow2(n - 1)
  }

  lemma {:induction false} BitsBelow(s: string, n: nat)
    requires IsBits(s) && n <= |s|
    ensures ParseBits(s, n) < Pow2(n)
    decreases n
  {
    if n > 0 {
      BitsBelow(s, n - 1);
    }
  }

  lemma {:induction false} BinarySize(v: nat, n: nat)
    requires n > 0 && v < Pow2(n)
    ensures |Binary(v)| <= n
    decreases n
  {
    if v >= 2 {
      BinarySize(v / 2, n - 1);
    }
  }

  lemma EightBits()
    ensures Pow2(8) == 256
  {
    assert Pow2(3) == 8;
    assert Pow2(6) == 64;
  }

  // ----- one byte -----

  function EncodeByte(bits: string): (hex: string)
    requires IsBits(bits) && |bits| == 8
    ensures |hex| == 2
  {
    BitsBelow(Reverse(bits), 8);
    EightBits();
    HexOfByte(ParseBits(Reverse(bits), 8));
    Rjust(Hex(ParseBits(Reverse(bits), 8)), 2)
  }

  function DecodeByte(hex: string): (bits: string)
    requires AllHex(hex) && 1 <= |hex| <= 2
    ensures |bits| == 8
  {
    EightBits();
    BinarySize(ParseHex(hex), 8);
    Reverse(Rjust(Binary(ParseHex(hex)), 8))
  }

  // ----- the conversions -----

  predicate Valid(bits: string) {
    |bits| == 168 && IsBits(bits)
  }

  function Byte(bits: string, k: nat): string
    requires Valid(bits) && k < 21
  {
    bits[8 * k..8 * k + 8]
  }

  /** `hex` holds the two digits of each of the first `n` bytes. */
  ghost predicate EncodesTo(bits: string, hex: string, n: nat)
    requires Valid(bits) && n <= 21
  {
    && |hex| == 2 * n
    && forall k :: 0 <= k < n ==> hex[2 * k..2 * k + 2] == EncodeByte(Byte(bits, k))
  }

  lemma EncodesFurther(bits: string, hex: string, n: nat)
    requires Valid(bits) && n < 21 && EncodesTo(bits, hex, n)
    ensures EncodesTo(bits, hex + EncodeByte(Byte(bits, n)), n + 1)
  {
    var more := hex + EncodeByte(Byte(bits, n));
    forall k | 0 <= k < n + 1 ensures more[2 * k..2 * k + 2] == EncodeByte(Byte(bits, k)) {
      if k < n {
        assert more[2 * k..2 * k + 2] == hex[2 * k..2 * k + 2];
      }
    }
  }

  /** `_convert_to_unicodestring`, on a valid value. `hex` is the text before it is turned to upper case. */
  method ToText(value: seq<string>) returns (text: seq<string>, ghost hex: string)
    requires value != [] ==> Valid(value[0])
    ensures value == [] ==> text == []
    ensures value != [] ==> EncodesTo(value[0], hex, 21) && text == [Upper(hex)]
  {
    hex := "";
    if value == [] { return value, hex; }
    var out := WriteBytes(value[0]);
    hex := out;
    text := [Upper(out)];
  }

  method WriteBytes(lstr: string) returns (out: string)
    requires Valid(lstr)
    ensures EncodesTo(lstr, out, 21)
  {
    out := "";
    for i := 0 to 21
      invariant EncodesTo(lstr, out, i)
    {
      var bits := lstr[i * 8..(i + 1) * 8];
      assert bits == Byte(lstr, i);
      EncodesFurther(lstr, out, i);
      var n := WriteByte(bits);
      out := out + n;
    }
  }

  /** The loop body: reversed bits, in hexadecimal, filled up to 2. */
  method WriteByte(bits: string) returns (n: string)
    requires IsBits(bits) && |bits| == 8
    ensures n == EncodeByte(bits)
  {
    n := bits[..4] + bits[4..];
    assert n == bits;
    n := Reverse(n);
    n := Rjust(Hex(ParseBits(n, 8)), 2);
  }

  /** Python's slice `s[i:i+2]`. */
  function Pair(s: string, i: nat): string {
    if i >= |s| then "" else if i + 1 == |s| then s[i..] else s[i..i + 2]
  }

  /** A pair that `int(pair, 16)` accepts. */
  predicate Readable(s: string, k: nat) {
    Pair(s, 2 * k) != "" && AllHex(Pair(s, 2 * k))
  }

  predicate AllReadable(s: string) {
    forall k :: 0 <= k < 21 ==> Readable(s, k)
  }

  /** `bits` are the bytes of the first `n` pairs of `hex`. */
  ghost predicate DecodesTo(hex: string, bits: string, n: nat) {
    && |bits| == 8 * n
    && forall k :: 0 <= k < n ==> Readable(hex, k) && bits[8 * k..8 * k + 8] == DecodeByte(Pair(hex, 2 * k))
  }

  lemma DecodesFurther(hex: string, bits: string, n: nat)
    requires DecodesTo(hex, bits, n) && Readable(hex, n)
    ensures DecodesTo(hex, bits + DecodeByte(Pair(hex, 2 * n)), n + 1)
  {
    var more := bits + DecodeByte(Pair(hex, 2 * n));
    forall k | 0 <= k < n + 1 ensures more[8 * k..8 * k + 8] == DecodeByte(Pair(hex, 2 * k)) {
      if k < n {
        assert more[8 * k..8 * k + 8] == bits[8 * k..8 * k + 8];
      }
    }
  }

  /** `int((168 + timezone / 3600) % 168)` */
  function Shift(timezone: int): (k: nat)
    ensures k < 168
  {
    (168 * 3600 + timezone) % (168 * 3600) / 3600
  }

  /** Left rotation. */
  function Rotate(s: string, k: nat): string
    requires k <= |s|
  {
    s[k..] + s[..k]
  }

  /** `_convert_from_unicodestring`; fails where Python's `int` raises. `bits` is the week before the rotation. */
  method FromText(value: seq<string>, timezone: int) returns (r: Result<seq<string>, string>, ghost bits: string)
    ensures value == [] ==> r == Success([])
    ensures value != [] ==> (r.Success? <==> AllReadable(value[0]))
    ensures value != [] && r.Success? ==> DecodesTo(value[0], bits, 21) && r.value == [Rotate(bits, Shift(timezone))]
  {
    bits := "";
    if value == [] { return Success(value), bits; }
    var text := value[0];
    var lstr := "";
    for i := 0 to 21
      invariant DecodesTo(text, lstr, i)
    {
      var pair := Pair(text, 2 * i);
      if pair == "" || !AllHex(pair) {
        assert !Readable(text, i);
        return Failure("ValueError"), bits;
      }
      var n := ReadByte(pair);
      DecodesFurther(text, lstr, i);
      lstr := lstr + n;
    }
    bits := lstr;
    var shift := Shift(timezone);
    r := Success([lstr[shift..] + lstr[..shift]]);
  }

  /** The loop body: binary digits, filled up to 8, reversed. */
  method ReadByte(pair: string) returns (n: string)
    requires AllHex(pair) && 1 <= |pair| <= 2
    ensures n == DecodeByte(pair)
  {
    n := Rjust(Binary(ParseHex(pair)), 8);
    n := Reverse(n);
    assert n == DecodeByte(pair);
    assert n[..4] + n[4..] == n;
    n := n[..4] + n[4..];
  }

  // ----- round trips -----

  lemma {:induction false} BinaryOfBits(s: string, n: nat)
    requires IsBits(s) && 0 < n <= |s|
    ensures Rjust(Binary(ParseBits(s, n)), n) == s[..n]
    decreases n
  {
    if n > 1 {
      BinaryOfBits(s, n - 1);
    }
    BinaryStep(s[..n - 1], ParseBits(s, n - 1), s[n - 1]);
    assert s[..n] == s[..n - 1] + [s[n - 1]];
  }

  lemma BinaryStep(init: string, v: nat, last: char)
    requires last == '0' || last == '1'
    requires if init == [] then v == 0 else Rjust(Binary(v), |init|) == init
    ensures Rjust(Binary(2 * v + if last == '1' then 1 else 0), |init| + 1) == init + [last]
  {
    var head := if v == 0 then "" else Binary(v);
    NumeralStep(v, last);
    RjustAppend(head, last, |init|);
    if v == 0 && init != [] {
      assert Rjust("0", |init|) == Rjust("", |init|);
    }
  }

  lemma NumeralStep(v: nat, last: char)
    requires last == '0' || last == '1'
    ensures Binary(2 * v + if last == '1' then 1 else 0) == (if v == 0 then "" else Binary(v)) + [last]
  {
  }

  lemma RjustAppend(s: string, c: char, n: nat)
    ensures Rjust(s + [c], n + 1) == Rjust(s, n) + [c]
  {
  }

  lemma ReverseTwice(s: string)
    ensures Reverse(Reverse(s)) == s
  {
  }

  /** Two upper-case digits give a byte back. */
  lemma HexOfByte(v: nat)
    requires v < 256
    ensures var h := Upper(Rjust(Hex(v), 2)); |h| == 2 && AllHex(h) && ParseHex(h) == v
  {
    var hi, lo := v / 16, v % 16;
    assert Rjust(Hex(v), 2) == [Digit(hi), Digit(lo)] by {
      if v < 16 {
        assert Repeat('0', 1) == "0";
      } else {
        assert Hex(hi) == [Digit(hi)];
      }
    }
    DigitValue(hi);
    DigitValue(lo);
    var h := Upper([Digit(hi), Digit(lo)]);
    assert h == [UpperChar(Digit(hi)), UpperChar(Digit(lo))];
  }

  lemma DigitValue(n: nat)
    requires n < 16
    ensures IsHex(UpperChar(Digit(n))) && HexValue(UpperChar(Digit(n))) == n
  {
  }

  lemma ByteRoundTrip(bits: string)
    requires IsBits(bits) && |bits| == 8
    ensures var h := Upper(EncodeByte(bits)); |h| == 2 && AllHex(h) && DecodeByte(h) == bits
  {
    var r := Reverse(bits);
    BitsBelow(r, 8);
    EightBits();
    HexOfByte(ParseBits(r, 8));
    BinaryOfBits(r, 8);
    assert r[..8] == r;
    ReverseTwice(bits);
  }

  function Bit(bits: string, j: nat): nat
    requires j < |bits|
  {
    if bits[j] == '1' then 1 else 0
  }

  /** The number that eight hours stand for: the first hour is the lowest bit. */
  function Number(bits: string): nat
    requires |bits| == 8
  {
    Bit(bits, 0) + 2 * Bit(bits, 1) + 4 * Bit(bits, 2) + 8 * Bit(bits, 3)
    + 16 * Bit(bits, 4) + 32 * Bit(bits, 5) + 64 * Bit(bits, 6) + 128 * Bit(bits, 7)
  }

  lemma ReverseAt(s: string, j: nat)
    requires j < |s|
    ensures Reverse(s)[j] == s[|s| - 1 - j]
  {
  }

  lemma ParseStep(bits: string, n: nat)
    requires IsBits(bits) && |bits| == 8 && n < 8
    ensures IsBits(Reverse(bits))
    ensures ParseBits(Reverse(bits), n + 1) == 2 * ParseBits(Reverse(bits), n) + Bit(bits, 7 - n)
  {
    ReverseAt(bits, n);
  }

  lemma ReversedNumber(bits: string)
    requires IsBits(bits) && |bits| == 8
    ensures ParseBits(Reverse(bits), 8) == Number(bits)
  {
    ParseStep(bits, 0);
    ParseStep(bits, 1);
    ParseStep(bits, 2);
    ParseStep(bits, 3);
    ParseStep(bits, 4);
    ParseStep(bits, 5);
    ParseStep(bits, 6);
    ParseStep(bits, 7);
    NoBits(Reverse(bits));
  }

  lemma NoBits(s: string)
    requires IsBits(s)
    ensures ParseBits(s, 0) == 0
  {
  }

  /** A byte is written as the two digits of that number, the higher one first. */
  lemma ByteIsWritten(bits: string)
    requires IsBits(bits) && |bits| == 8
    ensures Number(bits) < 256
    ensures Upper(EncodeByte(bits)) == ["0123456789ABCDEF"[Number(bits) / 16], "0123456789ABCDEF"[Number(bits) % 16]]
  {
    BitsBelow(Reverse(bits), 8);
    EightBits();
    ReversedNumber(bits);
    TwoDigits(Number(bits));
  }

  lemma TwoDigits(v: nat)
    requires v < 256
    ensures Upper(Rjust(Hex(v), 2)) == ["0123456789ABCDEF"[v / 16], "0123456789ABCDEF"[v % 16]]
  {
    var hi, lo := v / 16, v % 16;
    assert Rjust(Hex(v), 2) == [Digit(hi), Digit(lo)] by {
      if v < 16 {
        assert Repeat('0', 1) == "0";
      } else {
        assert Hex(hi) == [Digit(hi)];
      }
    }
    UpperDigit(hi);
    UpperDigit(lo);
    assert Upper([Digit(hi), Digit(lo)]) == [UpperChar(Digit(hi)), UpperChar(Digit(lo))];
  }

  lemma UpperDigit(n: nat)
    requires n < 16
    ensures UpperChar(Digit(n)) == "0123456789ABCDEF"[n]
  {
  }

  /** Hour `i` is read from the hour that many places further on, round the week. */
  lemma RotateAt(s: string, k: nat, i: nat)
    requires k <= |s| && i < |s|
    ensures Rotate(s, k)[i] == s[(i + k) % |s|]
  {
    RoundTheWeek(i + k, |s|);
    if i + k < |s| {
      assert Rotate(s, k)[i] == s[k..][i];
    } else {
      assert Rotate(s, k)[i] == s[..k][i - (|s| - k)];
    }
  }

  lemma RoundTheWeek(i: nat, n: nat)
    requires 0 < n && i < 2 * n
    ensures i % n == if i < n then i else i - n
  {
    if i >= n {
      assert i == n + (i - n) && (i - n) / n == 0;
    }
  }

  /** The shift is the time zone in full hours, rounded down and counted round the week; one of minus one hour is a
      shift of 167. */
  lemma ShiftIsHours(hours: int, rest: nat)
    requires rest < 3600
    ensures Shift(3600 * hours + rest) == hours % 168
  {
    var weeks, hour := hours / 168, hours % 168;
    assert 168 * 3600 + 3600 * hours + rest == (weeks + 1) * 604800 + (3600 * hour + rest);
    Remainder(weeks + 1, 3600 * hour + rest);
    assert (3600 * hour + rest) / 3600 == hour;
  }

  lemma Remainder(q: int, r: nat)
    requires r < 604800
    ensures (q * 604800 + r) % 604800 == r
  {
  }

  lemma PairOfEncoded(bits: string, hex: string, k: nat)
    requires Valid(bits) && EncodesTo(bits, hex, 21) && k < 21
    ensures Pair(Upper(hex), 2 * k) == Upper(EncodeByte(Byte(bits, k)))
  {
    assert Pair(Upper(hex), 2 * k) == Upper(hex[2 * k..2 * k + 2]);
  }

  /** The written text is readable and stands for no other week than the one it was written from. */
  lemma DecodeEncoded(week: string, hex: string, bits: string)
    requires Valid(week) && EncodesTo(week, hex, 21)
    ensures AllReadable(Upper(hex))
    ensures DecodesTo(Upper(hex), bits, 21) <==> bits == week
  {
    var h := Upper(hex);
    forall k | 0 <= k < 21 ensures Readable(h, k) && DecodeByte(Pair(h, 2 * k)) == Byte(week, k) {
      PairOfEncoded(week, hex, k);
      ByteRoundTrip(Byte(week, k));
    }
    if DecodesTo(h, bits, 21) {
      forall k | 0 <= k < 21 ensures bits[8 * k..8 * k + 8] == week[8 * k..8 * k + 8] {
        assert Readable(h, k);
      }
      SameBytes(bits, week);
    }
  }

  lemma SameBytes(a: string, b: string)
    requires |a| == 168 && |b| == 168
    requires forall k :: 0 <= k < 21 ==> a[8 * k..8 * k + 8] == b[8 * k..8 * k + 8]
    ensures a == b
  {
    forall j | 0 <= j < 168 ensures a[j] == b[j] {
      var k := j / 8;
      assert a[8 * k..8 * k + 8][j % 8] == b[8 * k..8 * k + 8][j % 8];
    }
  }

  /** Reading back what was written rotates the week by the time-zone shift. */
  method RoundTrip(bits: string, timezone: int) returns (r: Result<seq<string>, string>)
    requires Valid(bits)
    ensures r == Success([Rotate(bits, Shift(timezone))])
  {
    var text;
    ghost var hex, plain;
    text, hex := ToText([bits]);
    r, plain := FromText(text, timezone);
    DecodeEncoded(bits, hex, plain);
  }

  function Ones(s: string): nat {
    if s == [] then 0 else (if s[0] == '1' then 1 else 0) + Ones(s[1..])
  }

  lemma {:induction false} OnesConcat(a: string, b: string)
    ensures Ones(a + b) == Ones(a) + Ones(b)
    decreases a
  {
    if a == [] {
      assert a + b == b;
    } else {
      assert (a + b)[1..] == a[1..] + b;
      OnesConcat(a[1..], b);
    }
  }

  /** The rotation keeps the number of allowed hours. */
  lemma RotateKeepsOnes(s: string, k: nat)
    requires k <= |s|
    ensures Ones(Rotate(s, k)) == Ones(s)
  {
    var a, b := s[..k], s[k..];
    OnesConcat(a, b);
    OnesConcat(b, a);
    assert s == a + b && Rotate(s, k) == b + a;
  }

  /** The two directions are inverse to each other for every week exactly when the shift is 0. */
  lemma IdentityIff(timezone: int)
    ensures (forall bits | Valid(bits) :: Rotate(bits, Shift(timezone)) == bits) <==> Shift(timezone) == 0
  {
    var k := Shift(timezone);
    if k == 0 {
      forall bits | Valid(bits) ensures Rotate(bits, k) == bits {
      }
    } else {
      var bits := "1" + Repeat('0', 167);
      assert Valid(bits);
      assert Rotate(bits, k)[0] == bits[k] == '0';
    }
  }
}
