/**
 `encodeURIComponent` (ECMAScript 2024, section 19.2.6.5) on strings of Unicode
 scalar values: letters, digits and `- _ . ! ~ * ' ( )` stay as they are; every
 other character becomes its UTF-8 encoding (RFC 3629, section 3), each octet
 written as `%` and two upper-case hex digits. `Decode` is the matching
 `decodeURIComponent`, the reference the encoder is checked against.
 */
module UriComponent {
  import opened Wrappers

  predicate Unescaped(c: char) {
    ('A' <= c <= 'Z') || ('a' <= c <= 'z') || ('0' <= c <= '9')
    || c == '-' || c == '_' || c == '.' || c == '!' || c == '~' || c == '*' || c == '\'' || c == '(' || c == ')'
  }

  /** An upper-case hex digit. */
  function HexDigit(d: int): char
    requires 0 <= d < 16
  {
    if d < 10 then ('0' as int + d) as char else ('A' as int + d - 10) as char
  }

  predicate IsByte(b: int) {
    0 <= b < 256
  }

  /** The UTF-8 octets of one scalar value. */
  function Utf8(c: char): (bs: seq<int>)
    ensures 1 <= |bs| <= 4
    ensures forall i | 0 <= i < |bs| :: IsByte(bs[i])
  {
    var n := c as int;
    if n < 0x80 then [n]
    else if n < 0x800 then [0xC0 + n / 0x40, 0x80 + n % 0x40]
    else if n < 0x10000 then [0xE0 + n / 0x1000, 0x80 + (n / 0x40) % 0x40, 0x80 + n % 0x40]
    else [0xF0 + n / 0x40000, 0x80 + (n / 0x1000) % 0x40, 0x80 + (n / 0x40) % 0x40, 0x80 + n % 0x40]
  }

  /** `%XY` for each octet. */
  function Escape(bs: seq<int>): (r: string)
    requires forall i | 0 <= i < |bs| :: IsByte(bs[i])
    ensures |r| == 3 * |bs|
  {
    if bs == [] then []
    else
      assert IsByte(bs[0]);
      ['%', HexDigit(bs[0] / 16), HexDigit(bs[0] % 16)] + Escape(bs[1..])
  }

  function EncodeChar(c: char): string {
    if Unescaped(c) then [c] else Escape(Utf8(c))
  }

  /**
   The output uses only unescaped characters and `%`, so it never contains `&`,
   `=`, `#` or a space; it is canonical, so no unescaped character is written
   as an escape and every escape is upper-case. `CanonicalIsEncode` shows that
   this and the round trip leave no other output.
   */
  function Encode(s: string): (r: string)
    ensures forall i | 0 <= i < |r| :: Unescaped(r[i]) || r[i] == '%'
    ensures Canonical(r)
    ensures |s| <= |r|
  {
    if s == [] then []
    else
      var head := EncodeChar(s[0]);
      var tail := Encode(s[1..]);
      if Unescaped(s[0]) then
        assert Canonical(head);
        CanonicalAppend(head, tail);
        head + tail
      else
        EscapeUsesSafeCharacters(Utf8(s[0]));
        Utf8NotUnescaped(s[0]);
        EscapeCanonical(Utf8(s[0]));
        CanonicalAppend(head, tail);
        head + tail
  }

  /** `0`-`9` or `A`-`F`: the digits `encodeURIComponent` writes. */
  predicate IsUpperHex(c: char) {
    ('0' <= c <= '9') || ('A' <= c <= 'F')
  }

  /** An upper-case escape at `i` of an octet that is not an unescaped character. */
  predicate CanonicalEscapeAt(r: string, i: nat) {
    && i + 3 <= |r| && r[i] == '%' && IsUpperHex(r[i + 1]) && IsUpperHex(r[i + 2])
    && OctetAt(r, i).Some? && !Unescaped(OctetAt(r, i).value as char)
  }

  /**
   Every character is unescaped or starts a canonical escape: the shape of
   `encodeURIComponent`'s output, which never escapes a letter, a digit or one
   of `- _ . ! ~ * ' ( )`, and writes hex digits in upper case.
   */
  predicate Canonical(r: string) {
    forall i | 0 <= i < |r| :: Unescaped(r[i]) || CanonicalEscapeAt(r, i)
  }

  /** The octet written at `i` is read from those three characters alone. */
  lemma OctetAtShift(a: string, i: nat, b: string, j: nat)
    requires i + 3 <= |a| && j + 3 <= |b|
    requires a[i] == b[j] && a[i + 1] == b[j + 1] && a[i + 2] == b[j + 2]
    ensures OctetAt(a, i) == OctetAt(b, j)
    ensures CanonicalEscapeAt(a, i) <==> CanonicalEscapeAt(b, j)
  {
  }

  lemma CanonicalAppend(a: string, b: string)
    requires Canonical(a) && Canonical(b)
    ensures Canonical(a + b)
  {
    var r := a + b;
    forall i | 0 <= i < |r|
      ensures Unescaped(r[i]) || CanonicalEscapeAt(r, i)
    {
      if i < |a| {
        assert r[i] == a[i];
        if !Unescaped(a[i]) {
          OctetAtShift(a, i, r, i);
        }
      } else {
        assert r[i] == b[i - |a|];
        if !Unescaped(b[i - |a|]) {
          OctetAtShift(b, i - |a|, r, i);
        }
      }
    }
  }

  lemma CanonicalDrop(r: string, k: nat)
    requires Canonical(r) && k <= |r|
    ensures Canonical(r[k..])
  {
    var t := r[k..];
    forall i | 0 <= i < |t|
      ensures Unescaped(t[i]) || CanonicalEscapeAt(t, i)
    {
      if !Unescaped(r[k + i]) {
        OctetAtShift(r, k + i, t, i);
      }
    }
  }

  /** An escaped character's octets are never unescaped characters themselves. */
  lemma Utf8NotUnescaped(c: char)
    requires !Unescaped(c)
    ensures forall j | 0 <= j < |Utf8(c)| :: !Unescaped(Utf8(c)[j] as char)
  {
  }

  lemma {:induction false} EscapeCanonical(bs: seq<int>)
    requires forall j | 0 <= j < |bs| :: IsByte(bs[j]) && !Unescaped(bs[j] as char)
    ensures Canonical(Escape(bs))
  {
    if bs != [] {
      var head: string := ['%', HexDigit(bs[0] / 16), HexDigit(bs[0] % 16)];
      HexDigitRoundTrip(bs[0] / 16);
      HexDigitRoundTrip(bs[0] % 16);
      assert OctetAt(head, 0) == Some(bs[0]);
      assert CanonicalEscapeAt(head, 0);
      assert Canonical(head);
      EscapeCanonical(bs[1..]);
      CanonicalAppend(head, Escape(bs[1..]));
    }
  }

  /** Escapes are `%` at every third position and a hex digit everywhere else. */
  lemma {:induction false} EscapeUsesSafeCharacters(bs: seq<int>)
    requires forall i | 0 <= i < |bs| :: IsByte(bs[i])
    ensures forall i | 0 <= i < |Escape(bs)| :: Unescaped(Escape(bs)[i]) || Escape(bs)[i] == '%'
    ensures forall i | 0 <= i < |Escape(bs)| :: Escape(bs)[i] == '%' <==> i % 3 == 0
    ensures forall i | 0 <= i < |Escape(bs)| && i % 3 != 0 :: HexValue(Escape(bs)[i]).Some?
  {
    if bs != [] {
      EscapeUsesSafeCharacters(bs[1..]);
      var r := Escape(bs);
      var rest := Escape(bs[1..]);
      HexDigitRoundTrip(bs[0] / 16);
      HexDigitRoundTrip(bs[0] % 16);
      forall i | 0 <= i < |r|
        ensures Unescaped(r[i]) || r[i] == '%'
        ensures r[i] == '%' <==> i % 3 == 0
        ensures i % 3 != 0 ==> HexValue(r[i]).Some?
      {
        if i >= 3 {
          assert r[i] == rest[i - 3];
          assert (i - 3) % 3 == i % 3;
        }
      }
    }
  }

  /** The value of one hex digit, either case, as `decodeURIComponent` accepts. */
  function HexValue(c: char): (v: Option<int>)
    ensures v.Some? ==> 0 <= v.value < 16
  {
    if '0' <= c <= '9' then Some(c as int - '0' as int)
    else if 'A' <= c <= 'F' then Some(c as int - 'A' as int + 10)
    else if 'a' <= c <= 'f' then Some(c as int - 'a' as int + 10)
    else None
  }

  /** The octet written as `%XY` at position `i`. */
  function OctetAt(s: string, i: nat): (b: Option<int>)
    ensures b.Some? ==> IsByte(b.value)
  {
    if i + 3 <= |s| && s[i] == '%' && HexValue(s[i + 1]).Some? && HexValue(s[i + 2]).Some? then
      Some(HexValue(s[i + 1]).value * 16 + HexValue(s[i + 2]).value)
    else None
  }

  predicate IsContinuation(b: Option<int>) {
    b.Some? && 0x80 <= b.value < 0xC0
  }

  /** A scalar value: not a surrogate, at most U+10FFFF. */
  predicate IsScalar(n: int) {
    (0 <= n < 0xD800) || (0xE000 <= n < 0x110000)
  }

  /**
   The character encoded by the escaped octets at the start of `s`, and how many
   characters of `s` they take; overlong forms and surrogates are rejected.
   */
  function DecodeEscaped(s: string): (r: Option<(char, nat)>)
    ensures r.Some? ==> 3 <= r.value.1 <= |s|
  {
    var b0 := OctetAt(s, 0);
    if b0.None? then None
    else if b0.value < 0x80 then
      Some((b0.value as char, 3))
    else if 0xC0 <= b0.value < 0xE0 && IsContinuation(OctetAt(s, 3)) then
      var n := (b0.value - 0xC0) * 0x40 + (OctetAt(s, 3).value - 0x80);
      if 0x80 <= n then Some((n as char, 6)) else None
    else if 0xE0 <= b0.value < 0xF0 && IsContinuation(OctetAt(s, 3)) && IsContinuation(OctetAt(s, 6)) then
      var n := (b0.value - 0xE0) * 0x1000 + (OctetAt(s, 3).value - 0x80) * 0x40 + (OctetAt(s, 6).value - 0x80);
      if 0x800 <= n && IsScalar(n) then Some((n as char, 9)) else None
    else if 0xF0 <= b0.value < 0xF8 && IsContinuation(OctetAt(s, 3)) && IsContinuation(OctetAt(s, 6))
            && IsContinuation(OctetAt(s, 9)) then
      var n := (b0.value - 0xF0) * 0x40000 + (OctetAt(s, 3).value - 0x80) * 0x1000
               + (OctetAt(s, 6).value - 0x80) * 0x40 + (OctetAt(s, 9).value - 0x80);
      if 0x10000 <= n && IsScalar(n) then Some((n as char, 12)) else None
    else None
  }

  function Decode(s: string): Option<string>
    decreases |s|
  {
    if s == [] then Some([])
    else if s[0] != '%' then
      match Decode(s[1..])
      case Some(rest) => Some([s[0]] + rest)
      case None => None
    else
      match DecodeEscaped(s)
      case None => None
      case Some((c, k)) =>
        match Decode(s[k..])
        case Some(rest) => Some([c] + rest)
        case None => None
  }

  lemma HexDigitRoundTrip(d: int)
    requires 0 <= d < 16
    ensures HexValue(HexDigit(d)) == Some(d)
  {
  }

  /** Escaped octets read back one by one. */
  lemma {:induction false} EscapedOctets(bs: seq<int>, t: string, i: nat)
    requires forall j | 0 <= j < |bs| :: IsByte(bs[j])
    requires i < |bs|
    ensures OctetAt(Escape(bs) + t, 3 * i) == Some(bs[i])
    decreases i
  {
    var s := Escape(bs) + t;
    if i == 0 {
      HexDigitRoundTrip(bs[0] / 16);
      HexDigitRoundTrip(bs[0] % 16);
      assert s[0] == '%' && s[1] == HexDigit(bs[0] / 16) && s[2] == HexDigit(bs[0] % 16);
    } else {
      EscapedOctets(bs[1..], t, i - 1);
      assert s == ['%', HexDigit(bs[0] / 16), HexDigit(bs[0] % 16)] + (Escape(bs[1..]) + t);
      var s' := Escape(bs[1..]) + t;
      assert s[3 * i .. 3 * i + 3] == s'[3 * (i - 1) .. 3 * (i - 1) + 3];
    }
  }

  /** An escaped character decodes to itself and consumes exactly its own escape. */
  lemma EscapedCharRoundTrip(c: char, t: string)
    requires !Unescaped(c)
    ensures DecodeEscaped(Escape(Utf8(c)) + t) == Some((c, 3 * |Utf8(c)|))
  {
    var n := c as int;
    if n < 0x80 {
      EscapedOctets(Utf8(c), t, 0);
    } else if n < 0x800 {
      TwoOctetRoundTrip(c, t);
    } else if n < 0x10000 {
      ThreeOctetRoundTrip(c, t);
    } else {
      FourOctetRoundTrip(c, t);
    }
  }

  lemma TwoOctetRoundTrip(c: char, t: string)
    requires 0x80 <= c as int < 0x800
    ensures DecodeEscaped(Escape(Utf8(c)) + t) == Some((c, 6))
  {
    var bs := Utf8(c);
    EscapedOctets(bs, t, 0);
    EscapedOctets(bs, t, 1);
    TwoOctets(c as int);
  }

  lemma ThreeOctetRoundTrip(c: char, t: string)
    requires 0x800 <= c as int < 0x10000
    ensures DecodeEscaped(Escape(Utf8(c)) + t) == Some((c, 9))
  {
    var bs := Utf8(c);
    EscapedOctets(bs, t, 0);
    EscapedOctets(bs, t, 1);
    EscapedOctets(bs, t, 2);
    ThreeOctets(c as int);
  }

  lemma FourOctetRoundTrip(c: char, t: string)
    requires 0x10000 <= c as int
    ensures DecodeEscaped(Escape(Utf8(c)) + t) == Some((c, 12))
  {
    var bs := Utf8(c);
    EscapedOctets(bs, t, 0);
    EscapedOctets(bs, t, 1);
    EscapedOctets(bs, t, 2);
    EscapedOctets(bs, t, 3);
    FourOctets(c as int);
  }

  lemma TwoOctets(n: int)
    requires 0x80 <= n < 0x800
    ensures 0xC0 <= 0xC0 + n / 0x40 < 0xE0
    ensures (n / 0x40) * 0x40 + n % 0x40 == n
  {
  }

  lemma ThreeOctets(n: int)
    requires 0x800 <= n < 0x10000
    ensures 0xE0 <= 0xE0 + n / 0x1000 < 0xF0
    ensures (n / 0x1000) * 0x1000 + ((n / 0x40) % 0x40) * 0x40 + n % 0x40 == n
  {
    assert n / 0x1000 == (n / 0x40) / 0x40;
  }

  lemma FourOctets(n: int)
    requires 0x10000 <= n < 0x110000
    ensures 0xF0 <= 0xF0 + n / 0x40000 < 0xF8
    ensures (n / 0x40000) * 0x40000 + ((n / 0x1000) % 0x40) * 0x1000 + ((n / 0x40) % 0x40) * 0x40 + n % 0x40 == n
  {
    assert n / 0x1000 == (n / 0x40) / 0x40;
    assert n / 0x40000 == (n / 0x1000) / 0x40;
  }

  /** `decodeURIComponent(encodeURIComponent(s)) == s`: the encoding loses nothing. */
  lemma {:induction false} DecodeEncode(s: string)
    ensures Decode(Encode(s)) == Some(s)
    decreases |s|
  {
    if s != [] {
      var c := s[0];
      var t := Encode(s[1..]);
      assert s == [c] + s[1..];
      DecodeEncode(s[1..]);
      assert Encode(s) == EncodeChar(c) + t;
      if Unescaped(c) {
        assert (EncodeChar(c) + t)[0] == c != '%';
        assert (EncodeChar(c) + t)[1..] == t;
      } else {
        var k := 3 * |Utf8(c)|;
        EscapedCharRoundTrip(c, t);
        assert (EncodeChar(c) + t)[k..] == t;
      }
    }
  }

  /** An upper-case hex digit is the one `HexDigit` writes for its value. */
  lemma UpperHexRoundTrip(x: char)
    requires IsUpperHex(x)
    ensures HexValue(x).Some? && HexDigit(HexValue(x).value) == x
  {
  }

  /** A canonical escape is exactly the `%XY` that `Escape` writes for its octet. */
  lemma EscapeAtIsTriple(r: string, i: nat)
    requires CanonicalEscapeAt(r, i)
    ensures var b := OctetAt(r, i).value;
            r[i..i + 3] == ['%', HexDigit(b / 16), HexDigit(b % 16)]
  {
    UpperHexRoundTrip(r[i + 1]);
    UpperHexRoundTrip(r[i + 2]);
  }

  /** Canonical escapes of the octets `bs`, one after the other, are `Escape(bs)`. */
  lemma {:induction false} EscapesFromOctets(r: string, bs: seq<int>)
    requires forall j | 0 <= j < |bs| :: IsByte(bs[j])
    requires 3 * |bs| <= |r|
    requires forall j | 0 <= j < |bs| :: CanonicalEscapeAt(r, 3 * j) && OctetAt(r, 3 * j) == Some(bs[j])
    ensures r[..3 * |bs|] == Escape(bs)
  {
    if bs != [] {
      assert CanonicalEscapeAt(r, 3 * 0) && OctetAt(r, 3 * 0) == Some(bs[0]);
      EscapeAtIsTriple(r, 0);
      var t := r[3..];
      forall j | 0 <= j < |bs| - 1
        ensures CanonicalEscapeAt(t, 3 * j) && OctetAt(t, 3 * j) == Some(bs[1..][j])
      {
        assert CanonicalEscapeAt(r, 3 * (j + 1)) && OctetAt(r, 3 * (j + 1)) == Some(bs[j + 1]);
        OctetAtShift(r, 3 * j + 3, t, 3 * j);
      }
      EscapesFromOctets(t, bs[1..]);
      assert r[..3 * |bs|] == r[..3] + t[..3 * (|bs| - 1)];
    }
  }

  lemma DivMod64(q: int, d: int)
    requires 0 <= d < 0x40
    ensures (q * 0x40 + d) / 0x40 == q && (q * 0x40 + d) % 0x40 == d
  {
  }

  /** A well-formed two-octet sequence is the UTF-8 encoding of the value it decodes to. */
  lemma Utf8OfTwo(b0: int, b1: int)
    requires 0xC0 <= b0 < 0xE0 && 0x80 <= b1 < 0xC0
    requires 0x80 <= (b0 - 0xC0) * 0x40 + (b1 - 0x80)
    ensures Utf8(((b0 - 0xC0) * 0x40 + (b1 - 0x80)) as char) == [b0, b1]
  {
    DivMod64(b0 - 0xC0, b1 - 0x80);
  }

  lemma Utf8OfThree(b0: int, b1: int, b2: int)
    requires 0xE0 <= b0 < 0xF0 && 0x80 <= b1 < 0xC0 && 0x80 <= b2 < 0xC0
    requires var n := (b0 - 0xE0) * 0x1000 + (b1 - 0x80) * 0x40 + (b2 - 0x80);
             0x800 <= n && IsScalar(n)
    ensures Utf8(((b0 - 0xE0) * 0x1000 + (b1 - 0x80) * 0x40 + (b2 - 0x80)) as char) == [b0, b1, b2]
  {
    var n := (b0 - 0xE0) * 0x1000 + (b1 - 0x80) * 0x40 + (b2 - 0x80);
    var m := (b0 - 0xE0) * 0x40 + (b1 - 0x80);
    assert n == m * 0x40 + (b2 - 0x80);
    DivMod64(m, b2 - 0x80);
    DivMod64(b0 - 0xE0, b1 - 0x80);
    assert n / 0x1000 == (n / 0x40) / 0x40;
  }

  lemma Utf8OfFour(b0: int, b1: int, b2: int, b3: int)
    requires 0xF0 <= b0 < 0xF8 && 0x80 <= b1 < 0xC0 && 0x80 <= b2 < 0xC0 && 0x80 <= b3 < 0xC0
    requires var n := (b0 - 0xF0) * 0x40000 + (b1 - 0x80) * 0x1000 + (b2 - 0x80) * 0x40 + (b3 - 0x80);
             0x10000 <= n && IsScalar(n)
    ensures Utf8(((b0 - 0xF0) * 0x40000 + (b1 - 0x80) * 0x1000 + (b2 - 0x80) * 0x40 + (b3 - 0x80)) as char)
            == [b0, b1, b2, b3]
  {
    var n := (b0 - 0xF0) * 0x40000 + (b1 - 0x80) * 0x1000 + (b2 - 0x80) * 0x40 + (b3 - 0x80);
    var m1 := b0 - 0xF0;
    var m2 := m1 * 0x40 + (b1 - 0x80);
    var m3 := m2 * 0x40 + (b2 - 0x80);
    assert n == m3 * 0x40 + (b3 - 0x80);
    DivMod64(m3, b3 - 0x80);
    DivMod64(m2, b2 - 0x80);
    DivMod64(m1, b1 - 0x80);
    assert n / 0x1000 == (n / 0x40) / 0x40;
    assert n / 0x40000 == (n / 0x1000) / 0x40;
  }

  /**
   The octets `decodeURIComponent` reads as one character are the UTF-8
   encoding of that character, one per escape.
   */
  lemma DecodedOctets(r: string)
    requires DecodeEscaped(r).Some?
    ensures var (c, k) := DecodeEscaped(r).value;
            && k == 3 * |Utf8(c)|
            && (c as int < 0x80 ==> OctetAt(r, 0) == Some(c as int))
            && forall j | 0 <= j < |Utf8(c)| :: OctetAt(r, 3 * j) == Some(Utf8(c)[j])
  {
    var b0 := OctetAt(r, 0).value;
    if b0 < 0x80 {
    } else if 0xC0 <= b0 < 0xE0 {
      Utf8OfTwo(b0, OctetAt(r, 3).value);
    } else if 0xE0 <= b0 < 0xF0 {
      Utf8OfThree(b0, OctetAt(r, 3).value, OctetAt(r, 6).value);
    } else {
      Utf8OfFour(b0, OctetAt(r, 3).value, OctetAt(r, 6).value, OctetAt(r, 9).value);
    }
  }

  /**
   In a canonical string, the escapes `decodeURIComponent` reads as one
   character are exactly `encodeURIComponent`'s escape of that character.
   */
  lemma EscapedPrefix(r: string)
    requires Canonical(r) && DecodeEscaped(r).Some?
    ensures var (c, k) := DecodeEscaped(r).value;
            !Unescaped(c) && k <= |r| && r[..k] == Escape(Utf8(c))
  {
    var (c, k) := DecodeEscaped(r).value;
    var bs := Utf8(c);
    DecodedOctets(r);
    EscapeIsCanonical(r, 0);
    forall j | 0 <= j < |bs|
      ensures CanonicalEscapeAt(r, 3 * j) && OctetAt(r, 3 * j) == Some(bs[j])
    {
      EscapeIsCanonical(r, 3 * j);
    }
    EscapesFromOctets(r, bs);
  }

  /** In a canonical string, every octet escape is a canonical one. */
  lemma EscapeIsCanonical(r: string, i: nat)
    requires Canonical(r) && OctetAt(r, i).Some?
    ensures CanonicalEscapeAt(r, i)
  {
    assert r[i] == '%';
  }

  /**
   `Encode(s)` is the only canonical string that decodes to `s`: together with
   `DecodeEncode` and `Encode`'s own contract this pins the encoder down to
   `encodeURIComponent`.
   */
  lemma {:induction false} CanonicalIsEncode(r: string, s: string)
    requires Canonical(r) && Decode(r) == Some(s)
    ensures r == Encode(s)
    decreases |r|
  {
    if r != [] {
      var k := DecodeStep(r, s);
      CanonicalIsEncode(r[k..], s[1..]);
      EncodeCons(s);
      SplitAt(r, k, EncodeChar(s[0]), Encode(s[1..]));
    }
  }

  lemma SplitAt(r: string, k: nat, a: string, b: string)
    requires k <= |r| && r[..k] == a && r[k..] == b
    ensures r == a + b
  {
    assert r == r[..k] + r[k..];
  }

  /** `Encode` works one character at a time. */
  lemma EncodeCons(s: string)
    requires s != []
    ensures Encode(s) == EncodeChar(s[0]) + Encode(s[1..])
  {
  }

  /**
   One step of decoding a canonical string: its first `k` characters are
   the encoding of the first decoded character, and the rest is canonical and
   decodes to the rest.
   */
  lemma DecodeStep(r: string, s: string) returns (k: nat)
    requires Canonical(r) && Decode(r) == Some(s) && r != []
    ensures 0 < k <= |r| && s != []
    ensures r[..k] == EncodeChar(s[0])
    ensures Canonical(r[k..]) && Decode(r[k..]) == Some(s[1..])
  {
    if r[0] != '%' {
      k := 1;
      assert Unescaped(r[0]);
      assert r[..1] == [r[0]];
    } else {
      var c;
      c, k := DecodeEscaped(r).value.0, DecodeEscaped(r).value.1;
      EscapedPrefix(r);
    }
    CanonicalDrop(r, k);
  }

  /** The encoding of `s` is exactly the canonical string that decodes to `s`. */
  lemma EncodeIsCanonicalDecoding(r: string, s: string)
    ensures r == Encode(s) <==> Canonical(r) && Decode(r) == Some(s)
  {
    if r == Encode(s) {
      DecodeEncode(s);
    }
    if Canonical(r) && Decode(r) == Some(s) {
      CanonicalIsEncode(r, s);
    }
  }

  /** Different strings never encode alike. */
  lemma EncodeIsInjective(a: string, b: string)
    requires Encode(a) == Encode(b)
    ensures a == b
  {
    DecodeEncode(a);
    DecodeEncode(b);
  }
}
