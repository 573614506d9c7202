/**
 The key rotation of rekey/rekey.go: the token payload, the decimal counter inside the KDF's
 info string, and the derivation of new key material.
 */
module KeyRotation {
  import opened Modular
  import opened ByteStrings
  import opened Words

  datatype PayloadError = InvalidRekeyPayload | InvalidSaltLength

  datatype Parsed = Fields(salt: Bytes, counter: int) | Malformed(error: PayloadError)

  const MIN_INT := -0x8000_0000_0000_0000
  const MAX_INT := 0x7fff_ffff_ffff_ffff

  type Int64 = i: int | MIN_INT <= i <= MAX_INT

  /** Go's wrap-around of an integer result to 64 bits. */
  function Wrap64(x: int): Int64 {
    (x - MIN_INT) % CLOCK_RANGE + MIN_INT
  }

  lemma WrapInRange(x: int)
    requires MIN_INT <= x <= -MIN_INT
    ensures Wrap64(x) == if x == -MIN_INT then MIN_INT else x
  {
    if x == -MIN_INT {
      ModIs(x - MIN_INT, CLOCK_RANGE, 1, 0);
    } else {
      SmallMod(x - MIN_INT, CLOCK_RANGE);
    }
  }

  // ------------------------------------------------------------ the payload

  /** The payload layout: magic, counter in four little-endian bytes, salt. */
  function Payload(salt: Bytes, counter: int): (r: Bytes)
    ensures |r| == 5 + |salt|
  {
    [0x51] + ToLE(counter % WORD_RANGE, 4) + salt
  }

  /** BuildRekeyPayload, byte by byte. */
  method BuildRekeyPayload(salt: seq<bv8>, counter: int) returns (payload: array<bv8>)
    ensures fresh(payload) && payload[..] == Payload(salt, counter)
  {
    payload := new bv8[1 + 4 + |salt|];
    payload[0] := 0x51;
    payload[1] := ByteOf(counter % 256);
    payload[2] := ByteOf(counter / 256 % 256);
    payload[3] := ByteOf(counter / 0x1_0000 % 256);
    payload[4] := ByteOf(counter / 0x100_0000 % 256);
    forall i | 0 <= i < |salt| {
      payload[5 + i] := salt[i];
    }
    CounterBytes(counter);
    assert payload[..5] == Payload(salt, counter)[..5];
    assert payload[5..] == salt;
    assert payload[..] == payload[..5] + payload[5..];
  }

  lemma ByteOfMod(x: nat)
    ensures ByteOf(x % 256) == ByteOf(x)
  {
  }

  /** The shifted and masked bytes are the little-endian bytes of the counter modulo 2^32. */
  lemma CounterBytes(counter: int)
    ensures ToLE(counter % WORD_RANGE, 4)
         == [ByteOf(counter % 256), ByteOf(counter / 256 % 256), ByteOf(counter / 0x1_0000 % 256),
             ByteOf(counter / 0x100_0000 % 256)]
  {
    var c := counter % WORD_RANGE;
    ShiftedByte(counter, 1, 0x100_0000);
    ShiftedByte(counter, 0x100, 0x1_0000);
    ShiftedByte(counter, 0x1_0000, 0x100);
    ShiftedByte(counter, 0x100_0000, 1);
    FourBytes(c);
  }

  /** Shifting and masking sees only the low 32 bits. */
  lemma ShiftedByte(counter: int, d: int, e: int)
    requires d > 0 && e > 0 && d * (e * 256) == WORD_RANGE
    ensures ByteOf(counter / d % 256) == ByteOf(counter % WORD_RANGE / d)
  {
    var q, c := counter / WORD_RANGE, counter % WORD_RANGE;
    assert q * (d * (e * 256)) == d * ((q * e) * 256);
    assert counter == d * ((q * e) * 256 + c / d) + c % d;
    DivIs(counter, d, (q * e) * 256 + c / d, c % d);
    ModIs((q * e) * 256 + c / d, 256, q * e + c / d / 256, c / d % 256);
    ByteOfMod(c / d);
  }

  lemma DivDiv(c: nat, d: int)
    requires d > 0
    ensures c / d / 256 == c / (256 * d)
  {
    var x := c / d;
    var q, r := x / 256, x % 256;
    assert c == x * d + c % d;
    assert (256 * q + r) * d == q * (256 * d) + r * d;
    LowPart(r, d, c % d);
    DivIs(c, 256 * d, q, r * d + c % d);
  }

  lemma LowPart(r: int, d: int, t: int)
    requires 0 <= r <= 255 && 0 <= t < d
    ensures 0 <= r * d + t < 256 * d
  {
    assert r * d >= 0 && (255 - r) * d >= 0;
  }

  lemma FourBytes(c: nat)
    ensures ToLE(c, 4) == [ByteOf(c), ByteOf(c / 0x100), ByteOf(c / 0x1_0000), ByteOf(c / 0x100_0000)]
  {
    hide ByteOf;
    DivDiv(c, 0x100);
    DivDiv(c, 0x1_0000);
    assert ToLE(c / 0x1_0000, 2) == [ByteOf(c / 0x1_0000), ByteOf(c / 0x100_0000)];
    assert ToLE(c / 0x100, 3) == [ByteOf(c / 0x100)] + ToLE(c / 0x1_0000, 2);
  }

  /** ParseRekeyPayload. */
  function Parse(payload: Bytes): (r: Parsed) {
    if |payload| < 5 || payload[0] != 0x51 then Malformed(InvalidRekeyPayload)
    else if |payload[5..]| != 32 then Malformed(InvalidSaltLength)
    else Fields(payload[5..], FromLE(payload[1..5]))
  }

  /** What comes back: the salt, and the counter modulo 2^32; other salt lengths are refused. */
  lemma ParsePayload(salt: Bytes, counter: int)
    ensures Parse(Payload(salt, counter))
         == if |salt| == 32 then Fields(salt, counter % WORD_RANGE) else Malformed(InvalidSaltLength)
  {
    var p := Payload(salt, counter);
    assert p[5..] == salt && p[1..5] == ToLE(counter % WORD_RANGE, 4);
    WordRange();
    FromToLESmall(counter % WORD_RANGE, 4);
  }

  /** A counter survives the trip exactly when it fits 32 bits. */
  lemma CounterSurvives(salt: Bytes, counter: int)
    requires |salt| == 32
    ensures Parse(Payload(salt, counter)) == Fields(salt, counter) <==> 0 <= counter < WORD_RANGE
  {
    ParsePayload(salt, counter);
  }

  /** Every accepted payload is the one built from what was parsed. */
  lemma PayloadParse(payload: Bytes)
    requires Parse(payload).Fields?
    ensures Parse(payload).counter < WORD_RANGE
    ensures Payload(Parse(payload).salt, Parse(payload).counter) == payload
  {
    hide FromLE, ToLE;
    var c := payload[1..5];
    FromLEBound(c);
    WordRange();
    ToFromLE(c);
    SmallMod(FromLE(c), WORD_RANGE);
    assert payload == [payload[0]] + c + payload[5..];
  }

  lemma {:induction false} ToFromLE(b: Bytes)
    ensures ToLE(FromLE(b), |b|) == b
  {
    if b != [] {
      var n := FromLE(b);
      ToFromLE(b[1..]);
      DivIs(n, 256, FromLE(b[1..]), b[0] as int);
      ByteFromValue(n % 256, b[0]);
    }
  }

  // ------------------------------------------------------------ itoa

  function Ten(n: nat): (p: nat)
    ensures p >= 1
  {
    if n == 0 then 1 else 10 * Ten(n - 1)
  }

  function Digit(d: nat): char
    requires d < 10
  {
    '0' + (d as char)
  }

  /** The decimal digits of a positive number, most significant first; none for zero. */
  function Digits(n: nat): string {
    if n == 0 then "" else Digits(n / 10) + [Digit(n % 10)]
  }

  /** The text itoa produces for a 64-bit integer. Negating the least one leaves it negative. */
  function Decimal(n: Int64): string {
    if n == 0 then "0"
    else if n == MIN_INT then "-"
    else if n < 0 then "-" + Digits(-n)
    else Digits(n)
  }

  /** The loop of itoa: the digits of n, written backwards, with a place left over for a sign. */
  method WriteDigits(buf: array<char>, num: int) returns (i: int)
    requires buf.Length == 20 && num <= MAX_INT
    modifies buf
    ensures 1 <= i <= 20 && buf[i..] == Digits(if num > 0 then num else 0)
  {
    var n := num;
    ghost var digits := Digits(if num > 0 then num else 0);
    i := buf.Length;
    NineteenDigits();
    while n > 0
      invariant 1 <= i <= 20 && n < Ten(i - 1)
      invariant Digits(if n > 0 then n else 0) + buf[i..] == digits
    {
      ghost var tail := buf[i..];
      i := i - 1;
      buf[i] := Digit(n % 10);
      assert buf[i..] == [Digit(n % 10)] + tail;
      n := n / 10;
    }
  }

  /** itoa: twenty characters always suffice. */
  method Itoa(num: Int64) returns (text: string)
    ensures text == Decimal(num)
  {
    assert Digits(0) == "";
    hide Wrap64, Digits;
    if num == 0 {
      return "0";
    }
    var n: int, neg := num, false;
    if n < 0 {
      neg := true;
      WrapInRange(-n);
      n := Wrap64(-n);
    }
    var buf := new char[20];
    var i := WriteDigits(buf, n);
    if neg {
      ghost var digits := buf[i..];
      i := i - 1;
      buf[i] := '-';
      assert buf[i..] == "-" + digits;
    }
    return buf[i..];
  }

  lemma NineteenDigits()
    ensures Ten(19) > MAX_INT
  {
    assert Ten(5) == 100000;
    assert Ten(10) == 10000000000;
    assert Ten(15) == 1000000000000000;
    assert Ten(19) == 10000000000000000000;
  }

  /** The number a string of digits denotes. */
  function Value(digits: string): int {
    if digits == "" then 0
    else 10 * Value(digits[..|digits| - 1]) + (digits[|digits| - 1] as int - '0' as int)
  }

  /** The integer a decimal text denotes. */
  function Denoted(text: string): int {
    if text != "" && text[0] == '-' then -Value(text[1..]) else Value(text)
  }

  lemma {:induction false} DigitsValue(n: nat)
    ensures Value(Digits(n)) == n
    ensures n > 0 ==> Digits(n) != "" && Digits(n)[0] != '-'
  {
    if n > 0 {
      DigitsValue(n / 10);
      assert Digits(n)[..|Digits(n)| - 1] == Digits(n / 10);
    }
  }

  lemma SignedValue(digits: string)
    ensures Denoted("-" + digits) == -Value(digits)
  {
    hide Value;
    assert ("-" + digits)[1..] == digits;
  }

  /** itoa prints the number, except for the least 64-bit integer, where it prints only a sign. */
  lemma DecimalDenotes(n: Int64)
    ensures Denoted(Decimal(n)) == n <==> n != MIN_INT
  {
    hide Digits;
    if n > 0 {
      DigitsValue(n);
    } else if n == MIN_INT {
      assert "-"[1..] == "";
    } else if MIN_INT < n < 0 {
      DigitsValue(-n);
      assert Decimal(n) == "-" + Digits(-n);
      SignedValue(Digits(-n));
    }
  }

  /** Different integers have different texts, the least one included. */
  lemma DecimalInjective(m: Int64, n: Int64)
    ensures Decimal(m) == Decimal(n) <==> m == n
  {
    DecimalDenotes(m);
    DecimalDenotes(n);
    if m < 0 && m != MIN_INT {
      DigitsValue(-m);
    }
    if n < 0 && n != MIN_INT {
      DigitsValue(-n);
    }
  }

  // ------------------------------------------------------------ new key material

  type Material = m: Bytes | |m| == 64 witness seq(64, i => 0)

  /** A KDF at the one output length used: key material, salt and info give 64 bytes. */
  type Kdf = (Bytes, Bytes, Bytes) -> Material

  /** TextToBytes on ASCII text. */
  function TextToBytes(s: string): (r: Bytes)
    ensures |r| == |s|
  {
    seq(|s|, i requires 0 <= i < |s| => ByteOf(s[i] as int))
  }

  const REKEY_LABEL := "quarkdash-rekey-v1:"

  function RekeyInfo(counter: Int64, infoExtra: string): Bytes {
    TextToBytes(REKEY_LABEL + Decimal(counter) + ":" + infoExtra)
  }

  function RekeyMaterial(kdf: Kdf, oldKey: Bytes, oldMac: Bytes, salt: Bytes, counter: Int64, infoExtra: string)
    : Material
  {
    kdf(oldKey + oldMac, salt, RekeyInfo(counter, infoExtra))
  }

  method DeriveRekeyMaterial(kdf: Kdf, oldKey: seq<bv8>, oldMac: seq<bv8>, salt: seq<bv8>, counter: Int64,
                             infoExtra: string) returns (out: seq<bv8>)
    ensures out == RekeyMaterial(kdf, oldKey, oldMac, salt, counter, infoExtra)
  {
    var text := Itoa(counter);
    out := kdf(oldKey + oldMac, salt, TextToBytes(REKEY_LABEL + text + ":" + infoExtra));
  }

  predicate Ascii(s: string) {
    forall i :: 0 <= i < |s| ==> s[i] as int < 128
  }

  lemma TextInjective(s: string, t: string)
    requires Ascii(s) && Ascii(t) && TextToBytes(s) == TextToBytes(t)
    ensures s == t
  {
    forall i | 0 <= i < |s|
      ensures s[i] == t[i]
    {
      assert TextToBytes(s)[i] == TextToBytes(t)[i];
      ByteOfValue(s[i] as int);
      ByteOfValue(t[i] as int);
    }
  }

  lemma {:induction false} DigitsAscii(n: nat)
    ensures Ascii(Digits(n))
  {
    if n > 0 {
      DigitsAscii(n / 10);
    }
  }

  lemma DecimalAscii(n: Int64)
    ensures Ascii(Decimal(n))
  {
    if MIN_INT < n < 0 {
      DigitsAscii(-n);
    } else if n > 0 {
      DigitsAscii(n);
    }
  }

  /** The info strings of a session's rotations are pairwise different. */
  lemma RekeyInfoInjective(m: Int64, n: Int64)
    ensures RekeyInfo(m, "") == RekeyInfo(n, "") <==> m == n
  {
    hide TextToBytes, Decimal;
    RekeyTextAscii(m);
    RekeyTextAscii(n);
    if RekeyInfo(m, "") == RekeyInfo(n, "") {
      TextInjective(REKEY_LABEL + Decimal(m) + ":" + "", REKEY_LABEL + Decimal(n) + ":" + "");
      Framed(REKEY_LABEL, Decimal(m), ":", "");
      Framed(REKEY_LABEL, Decimal(n), ":", "");
      DecimalInjective(m, n);
    }
  }

  lemma RekeyTextAscii(n: Int64)
    ensures Ascii(REKEY_LABEL + Decimal(n) + ":" + "")
  {
    hide Decimal;
    DecimalAscii(n);
    assert Ascii(REKEY_LABEL);
    assert Ascii(REKEY_LABEL + Decimal(n));
  }

  lemma Framed(before: string, middle: string, after: string, extra: string)
    ensures var s := before + middle + after + extra; s[|before|..|s| - |after| - |extra|] == middle
  {
  }

  /**
   What the KDF is given determines the old keys, the salt and the counter: no two different
   rotations share a KDF input.
   */
  lemma RekeyInputsDistinct(key: Key, mac: Key, salt: Bytes, m: Int64, key': Key, mac': Key, salt': Bytes, n: Int64)
    ensures key + mac == key' + mac' && salt == salt' && RekeyInfo(m, "") == RekeyInfo(n, "")
       <==> key == key' && mac == mac' && salt == salt' && m == n
  {
    RekeyInfoInjective(m, n);
    if key + mac == key' + mac' {
      assert key == (key + mac)[..32] && mac == (key + mac)[32..];
      assert key' == (key' + mac')[..32] && mac' == (key' + mac')[32..];
    }
  }

  // ------------------------------------------------------------ byte by byte

  /** Magic byte, counter in four bytes with the lowest first, salt. */
  lemma PayloadBytes(salt: Bytes, counter: int)
    ensures var p := Payload(salt, counter);
            && |p| == 5 + |salt| && p[0] == 0x51 && p[5..] == salt
            && p[1] as int + 0x100 * (p[2] as int) + 0x1_0000 * (p[3] as int) + 0x100_0000 * (p[4] as int)
               == counter % WORD_RANGE
  {
    hide ToLE, FromLE;
    var p := Payload(salt, counter);
    assert p[1..5] == ToLE(counter % WORD_RANGE, 4);
    WordRange();
    FromToLESmall(counter % WORD_RANGE, 4);
    FromFourBytes(p[1..5]);
  }

  const LABEL_BYTES: Bytes := [
    0x71, 0x75, 0x61, 0x72, 0x6b, 0x64, 0x61, 0x73, 0x68,
    0x2d, 0x72, 0x65, 0x6b, 0x65, 0x79, 0x2d, 0x76, 0x31, 0x3a]

  /** The info string is the ASCII label, the decimal counter and a colon. */
  lemma RekeyInfoBytes(counter: Int64)
    ensures RekeyInfo(counter, "") == LABEL_BYTES + TextToBytes(Decimal(counter)) + [0x3a]
  {
    hide TextToBytes, Decimal;
    LabelBytes();
    TextJoins(REKEY_LABEL, Decimal(counter));
    TextJoins(REKEY_LABEL + Decimal(counter), ":");
    TextJoins(REKEY_LABEL + Decimal(counter) + ":", "");
    assert TextToBytes("") == [];
  }

  lemma TextJoins(s: string, t: string)
    ensures TextToBytes(s + t) == TextToBytes(s) + TextToBytes(t)
  {
  }

  lemma LabelBytes()
    ensures TextToBytes(REKEY_LABEL) == LABEL_BYTES && TextToBytes(":") == [0x3a]
  {
    AsciiByte('q', 0x71);
    AsciiByte('u', 0x75);
    AsciiByte('a', 0x61);
    AsciiByte('r', 0x72);
    AsciiByte('k', 0x6b);
    AsciiByte('d', 0x64);
    AsciiByte('s', 0x73);
    AsciiByte('h', 0x68);
    AsciiByte('-', 0x2d);
    AsciiByte('e', 0x65);
    AsciiByte('y', 0x79);
    AsciiByte('v', 0x76);
    AsciiByte('1', 0x31);
    AsciiByte(':', 0x3a);
  }

  lemma AsciiByte(c: char, b: bv8)
    requires c as int < 256 && b as int == c as int
    ensures ByteOf(c as int) == b
  {
    SmallMod(c as int, 256);
    ByteFromValue(c as int, b);
  }
}
