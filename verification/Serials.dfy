/**
 Certificate serial numbers and key identifiers as text: how they are issued, stored, looked up and
 put on a revocation list.
*/
module Serials {
  import opened Basics
  import opened Strings

  type Byte = x: int | 0 <= x < 256

  function Digit(d: nat): (c: char)
    requires d < 16
    ensures c as int == if d < 10 then '0' as int + d else 'a' as int + (d - 10)
  {
    "0123456789abcdef"[d]
  }

  function DigitValue(c: char): Option<nat> {
    if '0' <= c <= '9' then Some(c as int - '0' as int)
    else if 'a' <= c <= 'f' then Some(c as int - 'a' as int + 10)
    else if 'A' <= c <= 'F' then Some(c as int - 'A' as int + 10)
    else None
  }

  /** big.Int's decimal (base 10) and %x (base 16) forms of a non-negative number. */
  function Render(n: nat, base: nat): (s: string)
    requires 2 <= base <= 16
    ensures s != ""
  {
    if n < base then [Digit(n)] else Render(n / base, base) + [Digit(n % base)]
  }

  /** big.Int.SetString on unsigned digits. */
  function Parse(s: string, base: nat): Option<nat>
    requires 2 <= base <= 16
  {
    if s == "" then None
    else
      match DigitValue(s[|s| - 1])
      case None => None
      case Some(d) =>
        if d >= base then None
        else if |s| == 1 then Some(d)
        else match Parse(s[..|s| - 1], base)
             case None => None
             case Some(hi) => Some(hi * base + d)
  }

  /** GetSerialAsHex. */
  function Hex(n: nat): string {
    Render(n, 16)
  }

  /** hex.EncodeToString. */
  function EncodeToString(bytes: seq<Byte>): string {
    if bytes == [] then "" else [Digit(bytes[0] / 16), Digit(bytes[0] % 16)] + EncodeToString(bytes[1..])
  }

  /** The serial column InsertCertificate writes for a record carrying the decimal serial of a certificate. */
  function StoredSerial(decimal: string): string {
    match Parse(decimal, 10)
    case Some(n) => Hex(n)
    case None => Hex(0)
  }

  function StoredAki(akiHex: string): string {
    TrimLeft(akiHex, '0')
  }

  /** The key TokenAuthentication looks a presented certificate up with. */
  function LookupKey(hex: string): string {
    ToLower(TrimLeft(hex, '0'))
  }

  /** The key revokeHandler makes of a serial or AKI in a request. */
  function RequestKey(text: string): string {
    TrimLeft(ToLower(text), '0')
  }

  /** SetBytes: big-endian. */
  function BigEndian(bytes: seq<Byte>): nat {
    if bytes == [] then 0 else BigEndian(bytes[..|bytes| - 1]) * 256 + bytes[|bytes| - 1]
  }

  function Pow256(k: nat): nat {
    if k == 0 then 1 else 256 * Pow256(k - 1)
  }

  // ----- round trips

  lemma DigitRoundTrip(d: nat)
    requires d < 16
    ensures DigitValue(Digit(d)) == Some(d)
  {
    assert "0123456789abcdef"[d] == if d < 10 then ('0' as int + d) as char else ('a' as int + d - 10) as char;
  }

  /** What counts as a digit: capitals too. */
  lemma DigitValueIff(c: char, d: nat)
    requires d < 16
    ensures DigitValue(c) == Some(d) <==> LowerChar(c) == Digit(d)
  {
  }

  /** Exactly the texts of digits below the base are numbers. */
  lemma {:induction false} ParseSomeIff(s: string, base: nat)
    requires 2 <= base <= 16
    ensures Parse(s, base).Some? <==>
            s != "" && forall i | 0 <= i < |s| :: exists d | 0 <= d < base :: LowerChar(s[i]) == Digit(d)
  {
    if s == "" {
    } else {
      var last := s[|s| - 1];
      if d :| 0 <= d < base && LowerChar(last) == Digit(d) {
        DigitValueIff(last, d);
      }
      if DigitValue(last).Some? {
        DigitValueIff(last, DigitValue(last).value);
      }
      if |s| > 1 {
        ParseSomeIff(s[..|s| - 1], base);
        forall i | 0 <= i < |s| - 1 ensures s[..|s| - 1][i] == s[i] {
        }
      }
    }
  }

  lemma Division(n: nat, base: nat)
    requires 2 <= base
    ensures n / base * base + n % base == n && n % base < base
    ensures n >= base ==> 1 <= n / base < n
  {
  }

  lemma ParseSnoc(hi: string, d: nat, base: nat)
    requires 2 <= base <= 16 && d < base && hi != ""
    ensures Parse(hi + [Digit(d)], base) ==
            match Parse(hi, base) case None => None case Some(h) => Some(h * base + d)
  {
    DigitRoundTrip(d);
    assert (hi + [Digit(d)])[..|hi|] == hi;
  }

  lemma {:induction false} ParseRender(n: nat, base: nat)
    requires 2 <= base <= 16
    ensures Parse(Render(n, base), base) == Some(n)
  {
    if n < base {
      DigitRoundTrip(n);
    } else {
      Division(n, base);
      ParseRender(n / base, base);
      ParseSnoc(Render(n / base, base), n % base, base);
    }
  }

  lemma {:induction false} RenderShape(n: nat, base: nat)
    requires 2 <= base <= 16
    ensures Render(n, base)[0] == '0' <==> n == 0
    ensures forall i | 0 <= i < |Render(n, base)| :: LowerChar(Render(n, base)[i]) == Render(n, base)[i]
  {
    if n >= base {
      Division(n, base);
      RenderShape(n / base, base);
    }
  }

  lemma LowerFixed(s: string)
    requires forall i | 0 <= i < |s| :: LowerChar(s[i]) == s[i]
    ensures ToLower(s) == s
  {
  }

  lemma {:induction false} TrimLeftLower(s: string)
    ensures ToLower(TrimLeft(s, '0')) == TrimLeft(ToLower(s), '0')
  {
    if s == "" {
    } else {
      assert ToLower(s)[1..] == ToLower(s[1..]);
      TrimLeftLower(s[1..]);
    }
  }

  lemma {:induction false} TrimLeftShrinks(s: string)
    ensures |TrimLeft(s, '0')| <= |s|
    ensures s != "" ==> (TrimLeft(s, '0') == s <==> s[0] != '0')
    ensures (forall i | 0 <= i < |s| :: LowerChar(s[i]) == s[i]) ==>
              forall i | 0 <= i < |TrimLeft(s, '0')| :: LowerChar(TrimLeft(s, '0')[i]) == TrimLeft(s, '0')[i]
  {
    if s != "" && s[0] == '0' {
      TrimLeftShrinks(s[1..]);
    }
  }

  /** The stored key is the hexadecimal form of the very serial in the certificate, and the CRL reads it back. */
  lemma SerialSurvives(n: nat)
    ensures StoredSerial(Render(n, 10)) == Hex(n)
    ensures Parse(StoredSerial(Render(n, 10)), 16) == Some(n)
  {
    ParseRender(n, 10);
    ParseRender(n, 16);
  }

  /** Both lookups use the stored key exactly when the serial is positive. */
  lemma SerialLookup(n: nat)
    ensures LookupKey(Hex(n)) == Hex(n) <==> n > 0
    ensures RequestKey(Hex(n)) == LookupKey(Hex(n))
    ensures n == 0 ==> LookupKey(Hex(n)) == ""
  {
    RenderShape(n, 16);
    TrimLeftShrinks(Hex(n));
    TrimLeftLower(Hex(n));
    LowerFixed(Hex(n));
    if n > 0 {
      assert TrimLeft(Hex(n), '0') == Hex(n);
    } else {
      assert Hex(0) == "0";
      assert TrimLeft("0"[1..], '0') == "";
    }
  }

  lemma {:induction false} ParseLower(s: string)
    ensures Parse(ToLower(s), 16) == Parse(s, 16)
  {
    if s == "" {
    } else {
      var front := s[..|s| - 1];
      ParseLower(front);
      assert ToLower(s)[..|s| - 1] == ToLower(front);
    }
  }

  lemma {:induction false} ParseZero(s: string)
    requires s != ""
    ensures Parse("0" + s, 16) == Parse(s, 16)
  {
    var whole := "0" + s;
    if |s| == 1 {
      assert whole[..1] == "0" && "0"[..0] == "";
    } else {
      ParseZero(s[..|s| - 1]);
      assert whole[..|s|] == "0" + s[..|s| - 1];
    }
  }

  lemma {:induction false} ParseTrimmed(s: string)
    ensures TrimLeft(s, '0') != "" ==> Parse(TrimLeft(s, '0'), 16) == Parse(s, 16)
    ensures TrimLeft(s, '0') == "" ==> s == "" || Parse(s, 16) == Some(0)
  {
    if s != "" && s[0] == '0' {
      ParseTrimmed(s[1..]);
      assert s == "0" + s[1..];
      if s[1..] != "" {
        ParseZero(s[1..]);
      }
    }
  }

  /** A number has one form in lower case without leading zeros. */
  lemma {:induction false} FormIsHex(s: string, n: nat)
    requires s != "" && s[0] != '0' && Parse(s, 16) == Some(n)
    requires forall i | 0 <= i < |s| :: LowerChar(s[i]) == s[i]
    ensures s == Hex(n)
  {
    var front, d := s[..|s| - 1], DigitValue(s[|s| - 1]).value;
    DigitValueIff(s[|s| - 1], d);
    if |s| == 1 {
      assert s == [Digit(d)];
    } else {
      var hi := Parse(front, 16).value;
      FormIsHex(front, hi);
      RenderShape(hi, 16);
      assert n == hi * 16 + d && n / 16 == hi && n % 16 == d;
      assert s == front + [Digit(d)];
    }
  }

  /**
   A request names a certificate by any way of writing its number: capitals and leading zeros make no
   difference, and nothing else is looked up under the stored key.
  */
  lemma RequestKeyIff(text: string, n: nat)
    requires n > 0
    ensures RequestKey(text) == Hex(n) <==> Parse(text, 16) == Some(n)
    ensures LookupKey(text) == RequestKey(text)
  {
    hide Parse, Render;
    var lower, key := ToLower(text), RequestKey(text);
    TrimLeftLower(text);
    ParseLower(text);
    ParseTrimmed(lower);
    TrimLeftIs(lower, '0');
    if Parse(text, 16) == Some(n) {
      assert Parse("", 16) == None by {
        ParseSomeIff("", 16);
      }
      forall i | 0 <= i < |key| ensures LowerChar(key[i]) == key[i] {
        assert key[i] == lower[|lower| - |key| + i];
      }
      FormIsHex(key, n);
    }
    if key == Hex(n) {
      ParseRender(n, 16);
    }
  }

  lemma {:induction false} EncodeIsLower(bytes: seq<Byte>)
    ensures forall i | 0 <= i < |EncodeToString(bytes)| ::
              LowerChar(EncodeToString(bytes)[i]) == EncodeToString(bytes)[i]
  {
    if bytes == [] {
    } else {
      EncodeIsLower(bytes[1..]);
    }
  }

  /** Two digits a byte, the high half first. */
  lemma {:induction false} HexPairs(bytes: seq<Byte>, i: nat)
    requires i < |bytes|
    ensures |EncodeToString(bytes)| == 2 * |bytes|
    ensures EncodeToString(bytes)[2 * i] == Digit(bytes[i] / 16)
    ensures EncodeToString(bytes)[2 * i + 1] == Digit(bytes[i] % 16)
  {
    var rest := EncodeToString(bytes[1..]);
    if |bytes| > 1 {
      HexPairs(bytes[1..], if i == 0 then 0 else i - 1);
    }
    assert EncodeToString(bytes) == [Digit(bytes[0] / 16), Digit(bytes[0] % 16)] + rest;
    hide *;
    if i > 0 {
      assert bytes[1..][i - 1] == bytes[i];
    }
  }

  /** For key identifiers the trimmed, lower-cased lookup keys always equal the stored key. */
  lemma AkiLookup(bytes: seq<Byte>)
    ensures LookupKey(EncodeToString(bytes)) == StoredAki(EncodeToString(bytes))
    ensures forall text | ToLower(text) == EncodeToString(bytes) ::
              RequestKey(text) == StoredAki(EncodeToString(bytes))
    ensures RequestKey(EncodeToString(bytes)) == StoredAki(EncodeToString(bytes))
  {
    var hex := EncodeToString(bytes);
    EncodeIsLower(bytes);
    TrimLeftShrinks(hex);
    LowerFixed(TrimLeft(hex, '0'));
    TrimLeftLower(hex);
  }

  // ----- issuing

  lemma {:induction false} BigEndianBound(bytes: seq<Byte>)
    ensures BigEndian(bytes) < Pow256(|bytes|)
    ensures BigEndian(bytes) == 0 <==> forall i | 0 <= i < |bytes| :: bytes[i] == 0
  {
    if bytes == [] {
    } else {
      var front := bytes[..|bytes| - 1];
      BigEndianBound(front);
      assert forall i | 0 <= i < |front| :: front[i] == bytes[i];
    }
  }

  lemma {:induction false} BigEndianSplit(bytes: seq<Byte>)
    requires bytes != []
    ensures BigEndian(bytes) == bytes[0] * Pow256(|bytes| - 1) + BigEndian(bytes[1..])
  {
    if |bytes| > 1 {
      var front, last := bytes[..|bytes| - 1], bytes[|bytes| - 1];
      BigEndianSplit(front);
      assert bytes[1..][..|bytes| - 2] == front[1..];
      Shift(bytes[0], Pow256(|bytes| - 2), BigEndian(front[1..]));
      assert BigEndian(bytes) == BigEndian(front) * 256 + last;
    }
  }

  lemma Shift(high: nat, unit: nat, low: nat)
    ensures (high * unit + low) * 256 == high * (256 * unit) + low * 256
  {
  }

  lemma MaskedBound(bytes: seq<Byte>)
    requires |bytes| == 20 && bytes[0] < 128
    ensures BigEndian(bytes) < 128 * Pow256(19)
  {
    BigEndianSplit(bytes);
    BigEndianBound(bytes[1..]);
    Scale(bytes[0], Pow256(19), BigEndian(bytes[1..]));
  }

  lemma Scale(high: nat, unit: nat, low: nat)
    requires high < 128 && low < unit
    ensures high * unit + low < 128 * unit
  {
    assert (high + 1) * unit <= 128 * unit;
  }

  /** Serial generation: random bytes, the sign bit of the first one cleared in place. */
  method NewSerial(buf: array<Byte>) returns (serial: nat)
    requires buf.Length == 20
    modifies buf
    ensures serial < 128 * Pow256(19)
    ensures buf[..] == [old(buf[0]) % 128] + old(buf[1..])
    ensures serial == BigEndian(buf[..])
    ensures serial == 0 <==> forall i | 0 <= i < 20 :: buf[i] == 0
  {
    buf[0] := buf[0] % 128;
    ghost var bytes := buf[..];
    serial := BigEndian(buf[..]);
    MaskedBound(bytes);
    BigEndianBound(bytes);
    assert forall i | 0 <= i < 20 :: buf[i] == bytes[i];
  }
}
