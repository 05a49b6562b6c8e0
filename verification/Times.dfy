/** Times and their ASN.1 text forms (pki/parse_values.cc, pki/encode_values.cc). */
module Times {
  import opened Bytes
  import opened InputOrder
  import opened Modular

  type uint16 = x: int | 0 <= x < 0x1_0000

  datatype GeneralizedTime = GeneralizedTime(year: uint16, month: byte, day: byte, hours: byte, minutes: byte, seconds: byte) {
    predicate InUTCTimeRange() {
      1950 <= year && year < 2050
    }
  }

  const ZULU: byte := 0x5a
  const GENERALIZED_TIME_LENGTH := 15
  const UTC_TIME_LENGTH := 13

  predicate IsDigit(b: byte) {
    0x30 <= b <= 0x39
  }

  predicate AllDigits(s: Input) {
    forall i :: 0 <= i < |s| ==> IsDigit(s[i])
  }

  /** The number written by a string of decimal digits. */
  function DecimalValue(s: Input): nat
    requires AllDigits(s)
  {
    if s == [] then 0 else DecimalValue(s[..|s| - 1]) * 10 + (s[|s| - 1] - 0x30)
  }

  function TwoDigits(v: nat): (s: Input)
    requires v < 100
    ensures |s| == 2
  {
    [0x30 + v / 10, 0x30 + v % 10]
  }

  function FourDigits(v: nat): Input
    requires v < 10000
  {
    TwoDigits(v / 100) + TwoDigits(v % 100)
  }

  /** DecimalStringToUint, for an unsigned type that holds the values below modulus. */
  method DecimalStringToUint(reader: ByteReader, digits: nat, modulus: nat) returns (ok: bool, value: nat)
    requires modulus > 0
    modifies reader
    ensures ok <==> |old(reader.data)| >= digits && AllDigits(old(reader.data)[..digits])
    ensures ok ==> reader.data == old(reader.data)[digits..]
    ensures ok ==> value == DecimalValue(old(reader.data)[..digits]) % modulus
  {
    ghost var s := reader.data;
    value := 0;
    for i := 0 to digits
      invariant i <= |s| && AllDigits(s[..i]) && reader.data == s[i..]
      invariant value == DecimalValue(s[..i]) % modulus
    {
      var digit;
      ok, digit := reader.ReadByte();
      if !ok { return false, 0; }
      assert s[i] == digit && s[..i + 1][i] == digit;
      assert reader.data == s[i..][1..] == s[i + 1..];
      if digit < 0x30 || digit > 0x39 {
        if |s| >= digits { assert s[..digits][i] == digit; }
        return false, 0;
      }
      assert s[..i + 1][..i] == s[..i];
      ScaledRemainder(DecimalValue(s[..i]), digit - 0x30, modulus);
      value := (value * 10 + (digit - 0x30)) % modulus;
    }
    ok := true;
  }

  lemma ScaledRemainder(v: nat, d: nat, m: nat)
    requires m > 0
    ensures ((v % m) * 10 + d) % m == (v * 10 + d) % m
  {
    var q, x := v / m, (v % m) * 10 + d;
    assert v * 10 + d == x + (q * 10) * m by {
      assert v == q * m + v % m;
      assert (q * m) * 10 == (q * 10) * m;
    }
    RemainderUnique(x + (q * 10) * m, q * 10 + x / m, x % m, m) by {
      assert (q * 10 + x / m) * m == (q * 10) * m + (x / m) * m;
    }
  }

  function DaysInMonth(year: nat, month: nat): nat
    requires 1 <= month <= 12
  {
    if month in {4, 6, 9, 11} then 30
    else if month != 2 then 31
    else if year % 4 == 0 && (year % 100 != 0 || year % 400 == 0) then 29
    else 28
  }

  /** ValidateGeneralizedTime: a date of the calendar and a time of day that may be a leap second. */
  predicate Valid(t: GeneralizedTime) {
    && 1 <= t.month <= 12
    && 1 <= t.day <= DaysInMonth(t.year, t.month)
    && t.hours <= 23 && t.minutes <= 59 && t.seconds <= 60
  }

  /** Every field fits its digits; EncodeGeneralizedTime checks no more than this. */
  predicate Encodable(t: GeneralizedTime) {
    t.year < 10000 && t.month < 100 && t.day < 100 && t.hours < 100 && t.minutes < 100 && t.seconds < 100
  }

  /** Month to second, two digits each, and the zone. */
  function TailText(t: GeneralizedTime): (s: Input)
    requires Encodable(t)
    ensures |s| == 11
  {
    TwoDigits(t.month) + (TwoDigits(t.day) + (TwoDigits(t.hours) + (TwoDigits(t.minutes) + (TwoDigits(t.seconds) + [ZULU]))))
  }

  /** The text form YYYYMMDDHHMMSSZ. */
  function GeneralizedText(t: GeneralizedTime): (s: Input)
    requires Encodable(t)
    ensures |s| == GENERALIZED_TIME_LENGTH
  {
    FourDigits(t.year) + TailText(t)
  }

  /** The text form YYMMDDHHMMSSZ. */
  function UTCText(t: GeneralizedTime): (s: Input)
    requires Encodable(t)
    ensures |s| == UTC_TIME_LENGTH
  {
    TwoDigits(t.year % 100) + TailText(t)
  }

  // ----- writing

  method WriteTwoDigit(value: nat, out: array<byte>, off: nat) returns (ok: bool)
    requires off + 2 <= out.Length
    modifies out
    ensures ok <==> value < 100
    ensures ok ==> out[..off + 2] == old(out[..off]) + TwoDigits(value) && out[off + 2..] == old(out[off + 2..])
    ensures !ok ==> out[..] == old(out[..])
  {
    if value >= 100 { return false; }
    out[off] := 0x30 + value / 10;
    out[off + 1] := 0x30 + value % 10;
    return true;
  }

  method WriteFourDigit(v: uint16, out: array<byte>, off: nat) returns (ok: bool)
    requires off + 4 <= out.Length
    modifies out
    ensures ok <==> v < 10000
    ensures ok ==> out[..off + 4] == old(out[..off]) + FourDigits(v) && out[off + 4..] == old(out[off + 4..])
    ensures !ok ==> out[..] == old(out[..])
  {
    if v >= 10000 { return false; }
    var value := v;
    out[off + 3] := 0x30 + value % 10;
    value := value / 10;
    out[off + 2] := 0x30 + value % 10;
    value := value / 10;
    out[off + 1] := 0x30 + value % 10;
    value := value / 10;
    out[off] := 0x30 + value;
    DigitsOfHundreds(v);
    return true;
  }

  lemma DigitsOfHundreds(v: nat)
    requires v < 10000
    ensures v / 10 / 10 / 10 == v / 100 / 10 && v / 10 / 10 % 10 == v / 100 % 10
    ensures v / 10 % 10 == v % 100 / 10 && v % 10 == v % 100 % 10
  {
  }

  /** Writes the five two-digit fields and the zone behind a year of length off. */
  method WriteTail(t: GeneralizedTime, out: array<byte>, off: nat) returns (ok: bool)
    requires out.Length == off + 11
    requires t.year < 10000
    modifies out
    ensures ok <==> Encodable(t)
    ensures ok ==> out[..] == old(out[..off]) + TailText(t)
  {
    hide TwoDigits;
    ok := WriteTwoDigit(t.month, out, off);
    if !ok { return false; }
    ok := WriteTwoDigit(t.day, out, off + 2);
    if !ok { return false; }
    ok := WriteTwoDigit(t.hours, out, off + 4);
    if !ok { return false; }
    ok := WriteTwoDigit(t.minutes, out, off + 6);
    if !ok { return false; }
    ok := WriteTwoDigit(t.seconds, out, off + 8);
    if !ok { return false; }
    ghost var written := out[..off + 10];
    out[off + 10] := ZULU;
    assert out[..off + 10] == written && out[..] == written + [ZULU];
    TailPieces(t, old(out[..off]));
  }

  lemma TailPieces(t: GeneralizedTime, p: Input)
    requires Encodable(t)
    ensures p + TwoDigits(t.month) + TwoDigits(t.day) + TwoDigits(t.hours) + TwoDigits(t.minutes) + TwoDigits(t.seconds) + [ZULU]
            == p + TailText(t)
  {
    hide TwoDigits;
  }

  method EncodeGeneralizedTime(t: GeneralizedTime, out: array<byte>) returns (ok: bool)
    requires out.Length == GENERALIZED_TIME_LENGTH
    modifies out
    ensures ok <==> Encodable(t)
    ensures ok ==> out[..] == GeneralizedText(t)
  {
    hide FourDigits, TailText;
    ok := WriteFourDigit(t.year, out, 0);
    if !ok { return false; }
    assert out[..4] == FourDigits(t.year);
    ok := WriteTail(t, out, 4);
  }

  method EncodeUTCTime(t: GeneralizedTime, out: array<byte>) returns (ok: bool)
    requires out.Length == UTC_TIME_LENGTH
    modifies out
    ensures ok <==> t.InUTCTimeRange() && Encodable(t)
    ensures ok ==> out[..] == UTCText(t)
  {
    hide TwoDigits, TailText;
    if !t.InUTCTimeRange() { return false; }
    var year := t.year - 1900;
    if year >= 100 {
      year := year - 100;
    }
    assert year == t.year % 100;
    ok := WriteTwoDigit(year, out, 0);
    assert out[..2] == TwoDigits(year);
    ok := WriteTail(t, out, 2);
  }

  // ----- reading

  method ReadTwoDigits(reader: ByteReader) returns (ok: bool, value: byte)
    modifies reader
    ensures ok <==> |old(reader.data)| >= 2 && AllDigits(old(reader.data)[..2])
    ensures ok ==> value < 100 && old(reader.data) == TwoDigits(value) + reader.data
  {
    ghost var s := reader.data;
    var v;
    ok, v := DecimalStringToUint(reader, 2, 0x100);
    if !ok { return false, 0; }
    TwoDigitValue(s[..2]);
    value := v;
  }

  lemma TwoDigitValue(s: Input)
    requires |s| == 2 && AllDigits(s)
    ensures DecimalValue(s) < 100 && TwoDigits(DecimalValue(s)) == s
  {
    assert DecimalValue(s[..1]) == s[0] - 0x30 by { assert s[..1][..0] == []; }
    assert IsDigit(s[0]) && IsDigit(s[1]);
  }

  lemma FourDigitValue(s: Input)
    requires |s| == 4 && AllDigits(s)
    ensures DecimalValue(s) < 10000 && FourDigits(DecimalValue(s)) == s
  {
    var hi, lo := s[..2], s[2..];
    hide DecimalValue, TwoDigits;
    assert AllDigits(hi) && AllDigits(lo);
    TwoDigitValue(hi);
    TwoDigitValue(lo);
    FourAsTwoPairs(s);
    assert DecimalValue(s) / 100 == DecimalValue(hi) && DecimalValue(s) % 100 == DecimalValue(lo);
    assert s == hi + lo;
  }

  lemma FourAsTwoPairs(s: Input)
    requires |s| == 4 && AllDigits(s)
    ensures AllDigits(s[..2]) && AllDigits(s[2..])
    ensures DecimalValue(s) == DecimalValue(s[..2]) * 100 + DecimalValue(s[2..])
  {
    var a, b, c := s[..3], s[..2], s[2..];
    assert a[..2] == b && c[..1] == [s[2]] && [s[2]][..0] == [];
    assert DecimalValue(s) == DecimalValue(a) * 10 + (s[3] - 0x30);
    assert DecimalValue(a) == DecimalValue(b) * 10 + (s[2] - 0x30);
    assert DecimalValue(c) == DecimalValue(c[..1]) * 10 + (s[3] - 0x30);
    assert DecimalValue([s[2]]) == s[2] - 0x30;
  }

  /** The five two-digit fields and the zone, up to the end of the input. */
  method ReadTail(reader: ByteReader, year: uint16) returns (ok: bool, t: GeneralizedTime)
    requires year < 10000
    modifies reader
    ensures ok ==> t.year == year && Encodable(t) && old(reader.data) == TailText(t)
    ensures !ok ==> forall u: GeneralizedTime :: Encodable(u) ==> old(reader.data) != TailText(u)
  {
    hide TwoDigits;
    ghost var s := reader.data;
    t := GeneralizedTime(year, 0, 0, 0, 0, 0);
    var month, day, hours, minutes, seconds, zulu;
    ok, month := ReadTwoDigits(reader);
    if !ok { NotTail(s, 0); return false, t; }
    ghost var s1 := reader.data;
    ok, day := ReadTwoDigits(reader);
    if !ok { assert s1 == s[2..]; NotTail(s, 1); return false, t; }
    ghost var s2 := reader.data;
    ok, hours := ReadTwoDigits(reader);
    if !ok { assert s2 == s[4..]; NotTail(s, 2); return false, t; }
    ghost var s3 := reader.data;
    ok, minutes := ReadTwoDigits(reader);
    if !ok { assert s3 == s[6..]; NotTail(s, 3); return false, t; }
    ghost var s4 := reader.data;
    ok, seconds := ReadTwoDigits(reader);
    if !ok { assert s4 == s[8..]; NotTail(s, 4); return false, t; }
    ghost var s5 := reader.data;
    assert s5 == s[10..];
    ok, zulu := reader.ReadByte();
    if !ok || zulu != ZULU || reader.HasMore() {
      assert s5 != [ZULU] by {
        if ok { assert s5[0] == zulu && |s5| == 1 + |reader.data|; }
      }
      forall u: GeneralizedTime | Encodable(u) ensures s != TailText(u) {
        assert TailText(u)[10..] == [ZULU];
      }
      return false, t;
    }
    t := GeneralizedTime(year, month, day, hours, minutes, seconds);
    assert s == TailText(t);
  }

  /** Text whose i-th pair is not two digits is no time text. */
  lemma NotTail(s: Input, i: nat)
    requires i < 5 && 2 * i <= |s|
    requires |s[2 * i..]| < 2 || !AllDigits(s[2 * i..][..2])
    ensures forall u: GeneralizedTime :: Encodable(u) ==> s != TailText(u)
  {
    forall u: GeneralizedTime | Encodable(u) ensures s != TailText(u) {
      assert AllDigits(TailText(u)[2 * i..][..2]);
    }
  }

  /** Text without four leading digits, or with no tail after them, is no GeneralizedTime. */
  lemma NotGeneralized(input: Input)
    requires (|input| >= 4 && AllDigits(input[..4])) ==> forall u: GeneralizedTime :: Encodable(u) ==> input[4..] != TailText(u)
    ensures forall t: GeneralizedTime :: Encodable(t) ==> input != GeneralizedText(t)
  {
    forall t: GeneralizedTime | Encodable(t) ensures input != GeneralizedText(t) {
      hide TailText;
      var text := GeneralizedText(t);
      assert AllDigits(text[..4]) && text[4..] == TailText(t);
    }
  }

  /** The text of a time that is not valid is not the text of a valid one. */
  lemma NotValidGeneralized(time: GeneralizedTime)
    requires Encodable(time) && !Valid(time)
    ensures forall t: GeneralizedTime :: Valid(t) && Encodable(t) ==> GeneralizedText(time) != GeneralizedText(t)
  {
    hide GeneralizedText;
    forall t: GeneralizedTime | Valid(t) && Encodable(t) ensures GeneralizedText(time) != GeneralizedText(t) {
      if GeneralizedText(time) == GeneralizedText(t) { GeneralizedTextInjective(t, time); }
    }
  }

  /** ParseGeneralizedTime accepts the texts of valid times, each as the time it is the text of. */
  method ParseGeneralizedTime(input: Input) returns (ok: bool, value: GeneralizedTime)
    ensures ok ==> Valid(value) && Encodable(value) && input == GeneralizedText(value)
    ensures !ok ==> forall t: GeneralizedTime :: Valid(t) && Encodable(t) ==> input != GeneralizedText(t)
  {
    hide DecimalValue, Valid, FourDigits, TailText;
    var reader := new ByteReader(input);
    value := GeneralizedTime(0, 0, 0, 0, 0, 0);
    var year;
    ok, year := DecimalStringToUint(reader, 4, 0x1_0000);
    if !ok { NotGeneralized(input); return; }
    FourDigitValue(input[..4]);
    assert input == FourDigits(year) + input[4..];
    var time;
    ok, time := ReadTail(reader, year);
    if !ok { NotGeneralized(input); return; }
    assert input == GeneralizedText(time);
    if !Valid(time) {
      NotValidGeneralized(time);
      return false, value;
    }
    value := time;
  }

  /** The year a two-digit year stands for. */
  function CenturyOf(yy: nat): nat
    requires yy < 100
  {
    if yy < 50 then yy + 2000 else yy + 1900
  }

  lemma NotUTC(input: Input)
    requires (|input| >= 2 && AllDigits(input[..2])) ==> forall u: GeneralizedTime :: Encodable(u) ==> input[2..] != TailText(u)
    ensures forall t: GeneralizedTime :: Encodable(t) ==> input != UTCText(t)
  {
    forall t: GeneralizedTime | Encodable(t) ensures input != UTCText(t) {
      hide TailText;
      var text := UTCText(t);
      assert AllDigits(text[..2]) && text[2..] == TailText(t);
    }
  }

  lemma NotValidUTC(time: GeneralizedTime)
    requires Encodable(time) && time.InUTCTimeRange() && !Valid(time)
    ensures forall t: GeneralizedTime :: Valid(t) && t.InUTCTimeRange() && Encodable(t) ==> UTCText(time) != UTCText(t)
  {
    hide UTCText;
    forall t: GeneralizedTime | Valid(t) && t.InUTCTimeRange() && Encodable(t) ensures UTCText(time) != UTCText(t) {
      if UTCText(time) == UTCText(t) { UTCTextInjective(t, time); }
    }
  }

  /** The tail does not depend on the year. */
  lemma TailOfYear(t: GeneralizedTime, year: uint16)
    requires Encodable(t) && year < 10000
    ensures TailText(t.(year := year)) == TailText(t)
  {
    hide TwoDigits;
  }

  /** ParseUTCTime accepts the texts of valid times from 1950 to 2049. */
  method ParseUTCTime(input: Input) returns (ok: bool, value: GeneralizedTime)
    ensures ok ==> Valid(value) && value.InUTCTimeRange() && Encodable(value) && input == UTCText(value)
    ensures !ok ==> forall t: GeneralizedTime :: Valid(t) && t.InUTCTimeRange() && Encodable(t) ==> input != UTCText(t)
  {
    hide DecimalValue, Valid, TwoDigits, TailText;
    var reader := new ByteReader(input);
    value := GeneralizedTime(0, 0, 0, 0, 0, 0);
    var yy;
    ok, yy := DecimalStringToUint(reader, 2, 0x1_0000);
    if !ok { NotUTC(input); return; }
    TwoDigitValue(input[..2]);
    assert input == TwoDigits(yy) + input[2..];
    var time;
    ok, time := ReadTail(reader, yy);
    if !ok { NotUTC(input); return; }
    ghost var read := time;
    if time.year < 50 {
      time := time.(year := time.year + 2000);
    } else {
      time := time.(year := time.year + 1900);
    }
    TailOfYear(read, time.year);
    assert time.year % 100 == yy && input == UTCText(time);
    if !Valid(time) {
      NotValidUTC(time);
      return false, value;
    }
    value := time;
  }

  // ----- the text forms as encodings

  lemma TwoDigitsInjective(v: nat, w: nat)
    requires v < 100 && w < 100 && TwoDigits(v) == TwoDigits(w)
    ensures v == w
  {
    assert TwoDigits(v)[0] == TwoDigits(w)[0] && TwoDigits(v)[1] == TwoDigits(w)[1];
  }

  lemma TailTextInjective(t: GeneralizedTime, u: GeneralizedTime)
    requires Encodable(t) && Encodable(u) && TailText(t) == TailText(u)
    ensures t == u.(year := t.year)
  {
    var a, b := TailText(t), TailText(u);
    assert a[0..2] == TwoDigits(t.month) && b[0..2] == TwoDigits(u.month);
    assert a[2..4] == TwoDigits(t.day) && b[2..4] == TwoDigits(u.day);
    assert a[4..6] == TwoDigits(t.hours) && b[4..6] == TwoDigits(u.hours);
    assert a[6..8] == TwoDigits(t.minutes) && b[6..8] == TwoDigits(u.minutes);
    assert a[8..10] == TwoDigits(t.seconds) && b[8..10] == TwoDigits(u.seconds);
    TwoDigitsInjective(t.month, u.month);
    TwoDigitsInjective(t.day, u.day);
    TwoDigitsInjective(t.hours, u.hours);
    TwoDigitsInjective(t.minutes, u.minutes);
    TwoDigitsInjective(t.seconds, u.seconds);
  }

  /** No two times share a GeneralizedTime text, so parsing an encoding gives the time back. */
  lemma GeneralizedTextInjective(t: GeneralizedTime, u: GeneralizedTime)
    requires Encodable(t) && Encodable(u) && GeneralizedText(t) == GeneralizedText(u)
    ensures t == u
  {
    var a, b := GeneralizedText(t), GeneralizedText(u);
    assert a[..2] == TwoDigits(t.year / 100) && b[..2] == TwoDigits(u.year / 100);
    assert a[2..4] == TwoDigits(t.year % 100) && b[2..4] == TwoDigits(u.year % 100);
    assert a[4..] == TailText(t) && b[4..] == TailText(u);
    TwoDigitsInjective(t.year / 100, u.year / 100);
    TwoDigitsInjective(t.year % 100, u.year % 100);
    TailTextInjective(t, u);
  }

  lemma YearInWindow(y: nat)
    requires 1950 <= y < 2050
    ensures y == CenturyOf(y % 100)
  {
  }

  /** Within its century window, a UTCTime text belongs to one time. */
  lemma UTCTextInjective(t: GeneralizedTime, u: GeneralizedTime)
    requires Encodable(t) && Encodable(u) && UTCText(t) == UTCText(u)
    requires t.InUTCTimeRange() && u.InUTCTimeRange()
    ensures t == u
  {
    var a, b := UTCText(t), UTCText(u);
    assert a[..2] == TwoDigits(t.year % 100) && b[..2] == TwoDigits(u.year % 100);
    assert a[2..] == TailText(t) && b[2..] == TailText(u);
    TwoDigitsInjective(t.year % 100, u.year % 100);
    YearInWindow(t.year);
    YearInWindow(u.year);
    TailTextInjective(t, u);
  }

  /** Outside the window a UTCTime text cannot be told from the one a century away. */
  lemma UTCTextAmbiguous(t: GeneralizedTime)
    requires Encodable(t) && t.year < 9900
    ensures var u := t.(year := t.year + 100);
            Encodable(u) && UTCText(u) == UTCText(t) && !(t.InUTCTimeRange() && u.InUTCTimeRange())
  {
    hide TwoDigits;
    TailOfYear(t, t.year + 100);
    assert (t.year + 100) % 100 == t.year % 100;
  }

  /** Encoding then parsing gives every valid time back, when it can be encoded. */
  method RoundTripGeneralized(t: GeneralizedTime) returns (ok: bool, u: GeneralizedTime)
    requires Valid(t)
    ensures ok <==> t.year < 10000
    ensures ok ==> u == t
  {
    var out := new byte[15](_ => 0);
    u := t;
    ok := EncodeGeneralizedTime(t, out);
    if ok {
      ok, u := ParseGeneralizedTime(out[..]);
      if ok { GeneralizedTextInjective(t, u); }
    }
  }

  method RoundTripUTC(t: GeneralizedTime) returns (ok: bool, u: GeneralizedTime)
    requires Valid(t)
    ensures ok <==> 1950 <= t.year <= 2049
    ensures ok ==> u == t
  {
    var out := new byte[13](_ => 0);
    u := t;
    ok := EncodeUTCTime(t, out);
    if ok {
      ok, u := ParseUTCTime(out[..]);
      if ok { UTCTextInjective(t, u); }
    }
  }

  /** Whatever is accepted re-encodes to the same octets. */
  method ReencodeGeneralized(input: Input) returns (ok: bool, text: Input)
    ensures ok ==> text == input
    ensures ok <==> exists t: GeneralizedTime :: Valid(t) && Encodable(t) && input == GeneralizedText(t)
  {
    text := [];
    var t;
    ok, t := ParseGeneralizedTime(input);
    if ok {
      var out := new byte[15](_ => 0);
      ok := EncodeGeneralizedTime(t, out);
      text := out[..];
    }
  }

  method ReencodeUTC(input: Input) returns (ok: bool, text: Input)
    ensures ok ==> text == input
    ensures ok <==> exists t: GeneralizedTime :: Valid(t) && t.InUTCTimeRange() && Encodable(t) && input == UTCText(t)
  {
    text := [];
    var t;
    ok, t := ParseUTCTime(input);
    if ok {
      var out := new byte[13](_ => 0);
      ok := EncodeUTCTime(t, out);
      text := out[..];
    }
  }

  // ----- the texts, octet by octet

  /** Two ASCII digits from position i on that write v. */
  predicate WritesAt(s: Input, i: nat, v: nat) {
    i + 1 < |s| && 0x30 <= s[i] <= 0x39 && 0x30 <= s[i + 1] <= 0x39 && v == 10 * (s[i] - 0x30) + (s[i + 1] - 0x30)
  }

  /** Month, day, hour, minute and second from position i on, and the letter Z at the end. */
  predicate WritesTail(s: Input, i: nat, t: GeneralizedTime) {
    && |s| == i + 11 && s[i + 10] == 0x5a
    && WritesAt(s, i, t.month) && WritesAt(s, i + 2, t.day) && WritesAt(s, i + 4, t.hours)
    && WritesAt(s, i + 6, t.minutes) && WritesAt(s, i + 8, t.seconds)
  }

  lemma TwoDigitsExactly(s: Input, i: nat, v: nat)
    requires v < 100 && i + 1 < |s|
    ensures WritesAt(s, i, v) <==> s[i] == TwoDigits(v)[0] && s[i + 1] == TwoDigits(v)[1]
  {
  }

  lemma TailExactly(s: Input, i: nat, t: GeneralizedTime)
    requires Encodable(t) && i <= |s|
    ensures WritesTail(s, i, t) <==> s[i..] == TailText(t)
  {
    if |s| == i + 11 {
      TwoDigitsExactly(s, i, t.month);
      TwoDigitsExactly(s, i + 2, t.day);
      TwoDigitsExactly(s, i + 4, t.hours);
      TwoDigitsExactly(s, i + 6, t.minutes);
      TwoDigitsExactly(s, i + 8, t.seconds);
      hide TwoDigits, WritesAt;
      TailOctets(t);
      var u := TailText(t);
      hide TailText;
      assert s[i..] == u <==> forall k :: 0 <= k < 11 ==> s[i + k] == u[k];
    }
  }

  lemma TailOctets(t: GeneralizedTime)
    requires Encodable(t)
    ensures var u := TailText(t);
            && u[0] == TwoDigits(t.month)[0] && u[1] == TwoDigits(t.month)[1] && u[2] == TwoDigits(t.day)[0] && u[3] == TwoDigits(t.day)[1]
            && u[4] == TwoDigits(t.hours)[0] && u[5] == TwoDigits(t.hours)[1] && u[6] == TwoDigits(t.minutes)[0]
            && u[7] == TwoDigits(t.minutes)[1] && u[8] == TwoDigits(t.seconds)[0] && u[9] == TwoDigits(t.seconds)[1] && u[10] == ZULU
  {
    hide TwoDigits;
  }

  /** The GeneralizedTime text of a time is its fields in decimal digits, four for the year and two for each other, and Z. */
  lemma GeneralizedTextExactly(t: GeneralizedTime, s: Input)
    requires Encodable(t)
    ensures s == GeneralizedText(t) <==> WritesAt(s, 0, t.year / 100) && WritesAt(s, 2, t.year % 100) && WritesTail(s, 4, t)
  {
    if |s| == 15 {
      TwoDigitsExactly(s, 0, t.year / 100);
      TwoDigitsExactly(s, 2, t.year % 100);
      TailExactly(s, 4, t);
      hide TwoDigits, WritesAt, TailText, WritesTail;
      assert s == s[..4] + s[4..];
      assert GeneralizedText(t)[..4] == FourDigits(t.year) && GeneralizedText(t)[4..] == TailText(t);
    } else {
      hide TwoDigits, WritesAt, TailText;
    }
  }

  /** The UTCTime text of a time is the same with the last two digits of the year. */
  lemma UTCTextExactly(t: GeneralizedTime, s: Input)
    requires Encodable(t)
    ensures s == UTCText(t) <==> WritesAt(s, 0, t.year % 100) && WritesTail(s, 2, t)
  {
    if |s| == 13 {
      TwoDigitsExactly(s, 0, t.year % 100);
      TailExactly(s, 2, t);
      hide TwoDigits, WritesAt, TailText, WritesTail;
      assert s == s[..2] + s[2..];
      assert UTCText(t)[..2] == TwoDigits(t.year % 100) && UTCText(t)[2..] == TailText(t);
    } else {
      hide TwoDigits, WritesAt, TailText;
    }
  }

  // ----- the order of times

  /** operator<: field by field, the year first. */
  predicate Before(t: GeneralizedTime, u: GeneralizedTime) {
    t.year < u.year || (t.year == u.year &&
    (t.month < u.month || (t.month == u.month &&
    (t.day < u.day || (t.day == u.day &&
    (t.hours < u.hours || (t.hours == u.hours &&
    (t.minutes < u.minutes || (t.minutes == u.minutes && t.seconds < u.seconds)))))))))
  }

  lemma TwoDigitsOrder(v: nat, w: nat)
    requires v < 100 && w < 100
    ensures Less(TwoDigits(v), TwoDigits(w)) <==> v < w
  {
    var a, b := TwoDigits(v), TwoDigits(w);
    if v < w {
      assert LessAt(a, b, 0) || LessAt(a, b, 1);
    } else {
      forall k: nat ensures !LessAt(a, b, k) {
        if k == 1 { assert a[..1] == b[..1] ==> a[0] == b[0]; }
      }
    }
  }

  lemma TwoDigitsThen(v: nat, s: Input, w: nat, r: Input)
    requires v < 100 && w < 100
    ensures Less(TwoDigits(v) + s, TwoDigits(w) + r) <==> v < w || (v == w && Less(s, r))
  {
    LessConcat(TwoDigits(v), s, TwoDigits(w), r);
    TwoDigitsOrder(v, w);
    if TwoDigits(v) == TwoDigits(w) { TwoDigitsInjective(v, w); }
  }

  lemma TailOrder(t: GeneralizedTime, u: GeneralizedTime)
    requires Encodable(t) && Encodable(u)
    ensures Less(TailText(t), TailText(u)) <==> Before(t.(year := 0), u.(year := 0))
  {
    var z := [ZULU];
    Irreflexive(z);
    var t5, u5 := TwoDigits(t.seconds) + z, TwoDigits(u.seconds) + z;
    TwoDigitsThen(t.seconds, z, u.seconds, z);
    var t4, u4 := TwoDigits(t.minutes) + t5, TwoDigits(u.minutes) + u5;
    TwoDigitsThen(t.minutes, t5, u.minutes, u5);
    var t3, u3 := TwoDigits(t.hours) + t4, TwoDigits(u.hours) + u4;
    TwoDigitsThen(t.hours, t4, u.hours, u4);
    var t2, u2 := TwoDigits(t.day) + t3, TwoDigits(u.day) + u3;
    TwoDigitsThen(t.day, t3, u.day, u3);
    TwoDigitsThen(t.month, t2, u.month, u2);
  }

  /** Comparing GeneralizedTime texts octet by octet compares the times. */
  lemma TextOrderIsTimeOrder(t: GeneralizedTime, u: GeneralizedTime)
    requires Encodable(t) && Encodable(u)
    ensures Less(GeneralizedText(t), GeneralizedText(u)) <==> Before(t, u)
  {
    var a, b := TwoDigits(t.year % 100) + TailText(t), TwoDigits(u.year % 100) + TailText(u);
    TailOrder(t, u);
    TwoDigitsThen(t.year % 100, TailText(t), u.year % 100, TailText(u));
    TwoDigitsThen(t.year / 100, a, u.year / 100, b);
    assert GeneralizedText(t) == TwoDigits(t.year / 100) + a;
    assert GeneralizedText(u) == TwoDigits(u.year / 100) + b;
  }

  lemma UTCTextOrder(t: GeneralizedTime, u: GeneralizedTime)
    requires Encodable(t) && Encodable(u)
    ensures Less(UTCText(t), UTCText(u)) <==>
            t.year % 100 < u.year % 100 || (t.year % 100 == u.year % 100 && Before(t.(year := 0), u.(year := 0)))
  {
    hide TailText, TwoDigits, Less, Before;
    TailOrder(t, u);
    TwoDigitsThen(t.year % 100, TailText(t), u.year % 100, TailText(u));
  }

  /** UTCTime texts compare as the times do exactly when both years are in the same century. */
  lemma UTCTextOrderExact(t: GeneralizedTime, u: GeneralizedTime)
    requires Encodable(t) && Encodable(u) && t.InUTCTimeRange() && u.InUTCTimeRange()
    ensures (Less(UTCText(t), UTCText(u)) <==> Before(t, u)) <==> (t.year < 2000 <==> u.year < 2000)
  {
    hide UTCText, Less;
    UTCTextOrder(t, u);
    YearInWindow(t.year);
    YearInWindow(u.year);
  }

  /** Across the century it is the other way round: 2049 sorts below 1950. */
  lemma UTCTextOrderDiffers()
    ensures var t, u := GeneralizedTime(1950, 1, 1, 0, 0, 0), GeneralizedTime(2049, 1, 1, 0, 0, 0);
            Before(t, u) && !Less(UTCText(t), UTCText(u))
  {
    hide UTCText, Less;
    UTCTextOrderExact(GeneralizedTime(1950, 1, 1, 0, 0, 0), GeneralizedTime(2049, 1, 1, 0, 0, 0));
  }
}
