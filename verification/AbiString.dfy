/**
 The ABI string codecs of the mobile gateway resolvers (GatewayResolver.kt and GatewayResolver.swift) and the
 encoding of type string in the Solidity ABI specification. Bytes are numbers below 256; decoded text is a list
 of code units.
 */
module AbiString {

  /** Byte strings are lists of numbers below 256. */
  predicate AllBytes(s: seq<int>) {
    forall i :: 0 <= i < |s| ==> 0 <= s[i] < 256
  }

  datatype Option<T> = None | Some(value: T)

  // ---------- hexadecimal ----------

  const DIGITS := "0123456789abcdef"

  /** The value of a hexadecimal digit. */
  function DigitValue(c: char): Option<nat> {
    if '0' <= c <= '9' then Some(c as int - '0' as int)
    else if 'a' <= c <= 'f' then Some(c as int - 'a' as int + 10)
    else if 'A' <= c <= 'F' then Some(c as int - 'A' as int + 10)
    else None
  }

  lemma DigitRoundTrip(d: nat)
    requires d < 16
    ensures DigitValue(DIGITS[d]) == Some(d) && DIGITS[d] != 'x' && DIGITS[d] != '-' && DIGITS[d] != '+'
  {
  }

  /** The value of a list of digits, or None if some character is no digit. */
  function DigitsValue(s: string): Option<nat> {
    if s == "" then Some(0) else
      var n := |s| - 1;
      var init, last := DigitsValue(s[..n]), DigitValue(s[n]);
      if init.None? || last.None? then None else Some(16 * init.value + last.value)
  }

  /** n in hexadecimal without leading zeros. */
  function ToHex(n: nat): (s: string)
    ensures |s| > 0
  {
    if n < 16 then [DIGITS[n]] else ToHex(n / 16) + [DIGITS[n % 16]]
  }

  /** "%02x" */
  function ByteHex(b: int): (s: string)
    ensures |s| == 2
  {
    [DIGITS[(b / 16) % 16], DIGITS[b % 16]]
  }

  function BytesHex(bytes: seq<int>): (s: string)
    ensures |s| == 2 * |bytes|
  {
    if bytes == [] then "" else ByteHex(bytes[0]) + BytesHex(bytes[1..])
  }

  function Zeros(n: nat): (s: string)
    ensures |s| == n && forall i :: 0 <= i < n ==> s[i] == '0'
  {
    if n == 0 then "" else Zeros(n - 1) + "0"
  }

  function PadStart(s: string, n: nat): string {
    if |s| < n then Zeros(n - |s|) + s else s
  }

  function PadEnd(s: string, n: nat): string {
    if |s| < n then s + Zeros(n - |s|) else s
  }

  lemma {:induction false} ToHexValue(n: nat)
    ensures DigitsValue(ToHex(n)) == Some(n)
    ensures forall i :: 0 <= i < |ToHex(n)| ==> ToHex(n)[i] != '-' && ToHex(n)[i] != '+' && ToHex(n)[i] != 'x'
  {
    DigitRoundTrip(n % 16);
    if n < 16 {
      AppendDigit("", 0, n);
    } else {
      ToHexValue(n / 16);
      hide DigitsValue;
      AppendDigit(ToHex(n / 16), n / 16, n % 16);
    }
  }

  lemma AppendDigit(s: string, n: nat, d: nat)
    requires DigitsValue(s) == Some(n) && d < 16
    ensures DigitsValue(s + [DIGITS[d]]) == Some(16 * n + d)
  {
    DigitRoundTrip(d);
    assert (s + [DIGITS[d]])[..|s|] == s;
  }

  lemma {:induction false} LeadingZeros(k: nat, s: string)
    ensures DigitsValue(Zeros(k) + s) == DigitsValue(s)
  {
    if s == "" {
      assert Zeros(k) + s == Zeros(k);
      if k != 0 {
        LeadingZeros(k - 1, "");
        assert Zeros(k)[..k - 1] == Zeros(k - 1) + "";
      }
    } else {
      var n := |s| - 1;
      LeadingZeros(k, s[..n]);
      assert (Zeros(k) + s)[..k + n] == Zeros(k) + s[..n];
    }
  }

  function Power16(k: nat): nat {
    if k == 0 then 1 else 16 * Power16(k - 1)
  }

  lemma {:induction false} ToHexLength(n: nat, k: nat)
    requires 0 < k && n < Power16(k)
    ensures |ToHex(n)| <= k
  {
    assert Power16(k) == 16 * Power16(k - 1);
    if n >= 16 {
      ToHexLength(n / 16, k - 1);
    }
  }

  // ---------- parsing ----------

  /** The common syntax of String.toInt(16) and Int(_:radix: 16): an optional sign and at least one digit. */
  function ParseHex(s: string): Option<int> {
    if s == "" then None
    else if s[0] == '-' || s[0] == '+' then
      if |s| == 1 then None
      else match DigitsValue(s[1..])
        case Some(v) => var value: int := v; Some(if s[0] == '-' then -value else value)
        case None => None
    else
      match DigitsValue(s)
      case Some(v) => Some(v)
      case None => None
  }

  /** Out-of-range values are rejected. */
  function ParseWithin(s: string, low: int, high: int): Option<int> {
    match ParseHex(s)
    case Some(v) => if low <= v <= high then Some(v) else None
    case None => None
  }

  function RemovePrefix(s: string): string {
    if |s| >= 2 && s[0] == '0' && s[1] == 'x' then s[2..] else s
  }

  // ---------- the encoders ----------

  /** One 32-byte word. */
  function Word(n: nat): string {
    PadStart(ToHex(n), 64)
  }

  /** The offset word as the Kotlin source writes it: 62 zeros and "20". */
  function AndroidOffset(): (s: string)
    ensures |s| == 64
  {
    Zeros(62) + "20"
  }

  /** abiEncodeString of GatewayResolver.kt: the data is padded to one word, and only if it is shorter. */
  function AndroidEncode(bytes: seq<int>): string {
    AndroidOffset() + Word(|bytes|) + PadEnd(BytesHex(bytes), 64)
  }

  /** Foundation's padding(toLength:): pads or truncates. */
  function FitTo(s: string, n: nat): string {
    if |s| < n then PadEnd(s, n) else s[..n]
  }

  /** abiEncodeString of GatewayResolver.swift: the offset is 63 zeros and "20", one digit too many. */
  function IosEncode(bytes: seq<int>): string {
    (Zeros(63) + "20") + Word(|bytes|) + FitTo(BytesHex(bytes), 64)
  }

  /** The Solidity ABI: offset 0x20, byte length, bytes padded with zeros to a multiple of 32. */
  function SpecEncode(bytes: seq<int>): string {
    Word(32) + Word(|bytes|) + BytesHex(bytes) + Zeros((64 - 2 * |bytes| % 64) % 64)
  }

  // ---------- the Android decoder ----------

  const MAX_INT32 := 0x7fff_ffff

  /** Int arithmetic wraps around. */
  function Wrap32(x: int): int {
    (x + 0x8000_0000) % 0x1_0000_0000 - 0x8000_0000
  }

  /** substring throws outside the bounds. */
  function Substring(s: string, i: int, j: int): Option<string> {
    if 0 <= i <= j <= |s| then Some(s[i..j]) else None
  }

  function ToInt32(s: string): Option<int> {
    ParseWithin(s, -MAX_INT32 - 1, MAX_INT32)
  }

  /** chunked(2).map { it.toInt(16).toChar() } */
  function ChunkUnits(s: string): Option<seq<int>> {
    if s == "" then Some([]) else
      var k := if |s| == 1 then 1 else 2;
      var unit, rest := ToInt32(s[..k]), ChunkUnits(s[k..]);
      if unit.None? || rest.None? then None else Some([unit.value % 0x1_0000] + rest.value)
  }

  /** decodeABIString of GatewayResolver.kt: any exception gives null. */
  function AndroidDecode(hex: string): Option<seq<int>> {
    var clean := RemovePrefix(hex);
    var offsetField := Substring(clean, 0, 64);
    if offsetField.None? then None else
      var first := ToInt32(offsetField.value);
      if first.None? then None else
        var offset := Wrap32(first.value * 2);
        var lengthField := Substring(clean, offset, Wrap32(offset + 64));
        if lengthField.None? then None else
          var len := ToInt32(lengthField.value);
          if len.None? then None else
            var strHex := Substring(clean, Wrap32(offset + 64), Wrap32(Wrap32(offset + 64) + Wrap32(len.value * 2)));
            if strHex.None? then None else ChunkUnits(strHex.value)
  }

  // ---------- the iOS decoder ----------

  const MAX_INT64 := 0x7fff_ffff_ffff_ffff

  /** Swift traps on arithmetic overflow and on an index before the start. */
  datatype SwiftResult = Trap | Nil | Text(units: seq<int>)

  function ToInt64(s: string): Option<int> {
    ParseWithin(s, -MAX_INT64 - 1, MAX_INT64)
  }

  predicate Fits64(x: int) {
    -MAX_INT64 - 1 <= x <= MAX_INT64
  }

  /** The bytes of the well-formed pairs; a pair that is no UInt8 is skipped. */
  function PairUnits(s: string): seq<int>
    requires |s| % 2 == 0
  {
    if s == "" then [] else
      (match ParseWithin(s[..2], 0, 255) case Some(v) => [v] case None => []) + PairUnits(s[2..])
  }

  lemma PairStep(s: string, i: nat)
    requires i + 2 <= |s| && (|s| - i) % 2 == 0
    ensures PairUnits(s[i..])
         == (match ParseWithin(s[i..i + 2], 0, 255) case Some(v) => [v] case None => []) + PairUnits(s[i + 2..])
  {
    assert s[i..][..2] == s[i..i + 2] && s[i..][2..] == s[i + 2..];
  }

  lemma PairEnd(s: string)
    ensures PairUnits(s[|s|..]) == []
  {
  }

  function IosDecode(hex: string): SwiftResult {
    var clean := RemovePrefix(hex);
    if |clean| < 128 then Nil else
      match ToInt64(clean[..64])
      case None => Nil
      case Some(offset) =>
        var charOffset := offset * 2;
        if !Fits64(charOffset) || !Fits64(charOffset + 64) then Trap
        else if |clean| < charOffset + 64 then Nil
        else if charOffset < 0 then Trap
        else
          match ToInt64(clean[charOffset..charOffset + 64])
          case None => Nil
          case Some(len) =>
            if len <= 0 then Nil
            else if !Fits64(len * 2) || !Fits64(charOffset + 64 + len * 2) then Trap
            else if |clean| < charOffset + 64 + len * 2 then Nil
            else Text(PairUnits(clean[charOffset + 64..charOffset + 64 + len * 2]))
  }

  /** decodeABIString of GatewayResolver.swift, with its loop over the pairs. */
  method DecodeABIString(hex: string) returns (result: SwiftResult)
    ensures result == IosDecode(hex)
  {
    hide ParseHex, ToInt64, RemovePrefix, PairUnits;
    var clean := RemovePrefix(hex);
    if |clean| < 128 { return Nil; }
    var offset := ToInt64(clean[..64]);
    if offset.None? { return Nil; }
    var charOffset := offset.value * 2;
    if !Fits64(charOffset) || !Fits64(charOffset + 64) { return Trap; }
    if |clean| < charOffset + 64 { return Nil; }
    if charOffset < 0 { return Trap; }
    var len := ToInt64(clean[charOffset..charOffset + 64]);
    if len.None? || len.value <= 0 { return Nil; }
    var strStart := charOffset + 64;
    if !Fits64(len.value * 2) || !Fits64(strStart + len.value * 2) { return Trap; }
    if |clean| < strStart + len.value * 2 { return Nil; }
    var strHex := clean[strStart..strStart + len.value * 2];
    var units: seq<int> := [];
    var i := 0;
    assert strHex[0..] == strHex;
    while i < |strHex|
      invariant 0 <= i <= |strHex| && (|strHex| - i) % 2 == 0
      invariant PairUnits(strHex) == units + PairUnits(strHex[i..])
    {
      var next := i + 2;
      PairStep(strHex, i);
      var parsed := ParseWithin(strHex[i..next], 0, 255);
      if parsed.Some? {
        units := units + [parsed.value];
      }
      i := next;
    }
    PairEnd(strHex);
    result := Text(units);
  }

  // ---------- words and byte strings read back ----------

  lemma SmallNumbers(n: nat)
    requires n <= MAX_INT64
    ensures |ToHex(n)| <= 16
  {
    assert Power16(4) == 65536;
    assert Power16(8) == 65536 * 65536 by { PowerAdds(4, 4); }
    assert Power16(16) == 65536 * 65536 * 65536 * 65536 by { PowerAdds(8, 8); }
    ToHexLength(n, 16);
  }

  lemma {:induction false} PowerAdds(j: nat, k: nat)
    ensures Power16(j + k) == Power16(j) * Power16(k)
  {
    if j != 0 {
      PowerAdds(j - 1, k);
      assert 16 * Power16(j - 1) * Power16(k) == 16 * (Power16(j - 1) * Power16(k));
    }
  }

  lemma WordReads(n: nat)
    requires n <= MAX_INT64
    ensures |Word(n)| == 64 && Word(n)[0] == '0' && Word(n)[1] == '0' && Word(n)[2] == '0'
    ensures ParseHex(Word(n)) == Some(n)
  {
    SmallNumbers(n);
    ToHexValue(n);
    LeadingZeros(64 - |ToHex(n)|, ToHex(n));
  }

  lemma OffsetWord()
    ensures AndroidOffset() == Word(32)
  {
    assert ToHex(2) == "2";
    assert ToHex(32) == ToHex(2) + [DIGITS[0]];
  }

  lemma ByteReads(b: int)
    requires 0 <= b < 256
    ensures ParseHex(ByteHex(b)) == Some(b)
  {
    DigitRoundTrip(b / 16);
    DigitRoundTrip(b % 16);
    TwoDigits(DIGITS[b / 16], DIGITS[b % 16], b / 16, b % 16);
  }

  lemma TwoDigits(c: char, d: char, m: nat, n: nat)
    requires DigitValue(c) == Some(m) && DigitValue(d) == Some(n)
    ensures DigitsValue([c, d]) == Some(16 * m + n)
  {
    var s, t := [c, d], [c];
    assert s[..1] == t && t[..0] == "";
    assert DigitsValue("") == Some(0);
    assert DigitsValue(t) == Some(m);
  }

  lemma BytesHexSplit(bytes: seq<int>)
    requires bytes != []
    ensures BytesHex(bytes)[..2] == ByteHex(bytes[0]) && BytesHex(bytes)[2..] == BytesHex(bytes[1..])
  {
  }

  lemma FirstUnit(s: string, b: int, rest: seq<int>)
    requires |s| >= 2 && |s| % 2 == 0 && 0 <= b < 256 && ParseHex(s[..2]) == Some(b)
    requires ChunkUnits(s[2..]) == Some(rest) && PairUnits(s[2..]) == rest
    ensures ChunkUnits(s) == Some([b] + rest) && PairUnits(s) == [b] + rest
  {
    hide ParseHex;
  }

  lemma NoUnits(s: string)
    requires s == ""
    ensures ChunkUnits(s) == Some([]) && PairUnits(s) == []
  {
  }

  lemma {:induction false} UnitsRead(bytes: seq<int>)
    requires AllBytes(bytes)
    ensures ChunkUnits(BytesHex(bytes)) == Some(bytes)
    ensures PairUnits(BytesHex(bytes)) == bytes
  {
    hide *;
    if bytes == [] {
      NoUnits(BytesHex(bytes));
    } else {
      TailBytes(bytes);
      BytesHexSplit(bytes);
      ByteReads(bytes[0]);
      UnitsRead(bytes[1..]);
      FirstUnit(BytesHex(bytes), bytes[0], bytes[1..]);
      assert bytes == [bytes[0]] + bytes[1..];
    }
  }

  lemma TailBytes(bytes: seq<int>)
    requires AllBytes(bytes) && bytes != []
    ensures AllBytes(bytes[1..]) && 0 <= bytes[0] < 256
  {
  }

  /** How the three parts of an encoding are found again. */
  lemma Layout(a: string, b: string, c: string, d: string)
    requires |a| == 64 && |b| == 64
    ensures var s := a + b + c + d;
            && s[..64] == a && s[64..128] == b && s[128..128 + |c|] == c
  {
  }

  /** What both decoders see in an encoding: offset 32, the length, the digits of the bytes. */
  lemma Fields(bytes: seq<int>, rest: string)
    requires |bytes| <= MAX_INT32
    ensures var e := Word(32) + Word(|bytes|) + BytesHex(bytes) + rest;
            && |e| == 128 + 2 * |bytes| + |rest| && RemovePrefix(e) == e
            && ParseHex(e[..64]) == Some(32) && ParseHex(e[64..128]) == Some(|bytes|)
            && e[128..128 + 2 * |bytes|] == BytesHex(bytes)
  {
    hide ParseHex, BytesHex, ByteHex, Word, RemovePrefix, Zeros;
    var e := Word(32) + Word(|bytes|) + BytesHex(bytes) + rest;
    WordReads(32);
    WordReads(|bytes|);
    Layout(Word(32), Word(|bytes|), BytesHex(bytes), rest);
    NoPrefix(e);
  }

  /** Both decoders read offset 0x20, the length and the bytes, whatever follows. */
  lemma AndroidReads(bytes: seq<int>, rest: string)
    requires AllBytes(bytes) && 128 + 2 * |bytes| + |rest| <= MAX_INT32
    ensures AndroidDecode(Word(32) + Word(|bytes|) + BytesHex(bytes) + rest) == Some(bytes)
  {
    hide ParseHex, ChunkUnits, BytesHex, Word, RemovePrefix, AllBytes;
    Fields(bytes, rest);
    UnitsRead(bytes);
    var e := Word(32) + Word(|bytes|) + BytesHex(bytes) + rest;
    AndroidSteps(e, 32, |bytes|);
  }

  lemma AndroidSteps(e: string, o: nat, n: nat)
    requires RemovePrefix(e) == e && 2 * o + 64 + 2 * n <= |e| <= MAX_INT32 && |e| >= 64
    requires ParseHex(e[..64]) == Some(o) && ParseHex(e[2 * o..2 * o + 64]) == Some(n)
    ensures AndroidDecode(e) == ChunkUnits(e[2 * o + 64..2 * o + 64 + 2 * n])
  {
    hide ParseHex, ChunkUnits, RemovePrefix, Wrap32;
    InRange32(o * 2);
    InRange32(o * 2 + 64);
    InRange32(n * 2);
    InRange32(o * 2 + 64 + n * 2);
  }

  lemma InRange32(x: int)
    requires 0 <= x <= MAX_INT32
    ensures Wrap32(x) == x
  {
  }

  lemma IosReads(bytes: seq<int>, rest: string)
    requires AllBytes(bytes) && 128 + 2 * |bytes| + |rest| <= MAX_INT32
    ensures IosDecode(Word(32) + Word(|bytes|) + BytesHex(bytes) + rest) == if bytes == [] then Nil else Text(bytes)
  {
    hide ParseHex, PairUnits, BytesHex, Word, RemovePrefix, AllBytes, IosDecode;
    Fields(bytes, rest);
    UnitsRead(bytes);
    var e := Word(32) + Word(|bytes|) + BytesHex(bytes) + rest;
    IosSteps(e, 32, |bytes|);
  }

  lemma IosSteps(e: string, o: nat, n: nat)
    requires RemovePrefix(e) == e && 2 * o + 64 + 2 * n <= |e| <= MAX_INT32 && |e| >= 128
    requires ParseHex(e[..64]) == Some(o) && ParseHex(e[2 * o..2 * o + 64]) == Some(n)
    ensures IosDecode(e) == if n == 0 then Nil else Text(PairUnits(e[2 * o + 64..2 * o + 64 + 2 * n]))
  {
    hide ParseHex, PairUnits, RemovePrefix;
    assert n * 2 == 2 * n;
  }

  lemma NoPrefix(s: string)
    requires |s| >= 2 && s[1] != 'x'
    ensures RemovePrefix(s) == s
  {
  }

  // ---------- Android ----------

  /**
   Round trip on Android, for every byte string whose encoding fits a JVM string: the bytes come back as code
   units. For ASCII text the code units are the text.
   */
  lemma AndroidRoundTrip(bytes: seq<int>)
    requires AllBytes(bytes) && |AndroidEncode(bytes)| <= MAX_INT32
    ensures AndroidDecode(AndroidEncode(bytes)) == Some(bytes)
  {
    hide AndroidDecode, Word, AndroidOffset, PadEnd, BytesHex, AllBytes;
    OffsetWord();
    WordReads(32);
    PadEndIs(BytesHex(bytes), 64);
    var rest := Zeros(if 2 * |bytes| < 64 then 64 - 2 * |bytes| else 0);
    WordLength(|bytes|);
    assert AndroidEncode(bytes) == Word(32) + Word(|bytes|) + BytesHex(bytes) + rest;
    AndroidReads(bytes, rest);
  }

  lemma WordLength(n: nat)
    ensures |Word(n)| >= 64
  {
  }

  lemma PadEndIs(s: string, n: nat)
    ensures PadEnd(s, n) == s + Zeros(if |s| < n then n - |s| else 0)
  {
    assert s + "" == s;
  }

  /** A string is a list of Unicode scalar values. */
  predicate Scalars(text: seq<int>) {
    forall i :: 0 <= i < |text| ==> 0 <= text[i] < 0x11_0000 && !(0xd800 <= text[i] < 0xe000)
  }

  predicate Ascii(text: seq<int>) {
    forall i :: 0 <= i < |text| ==> 0 <= text[i] < 128
  }

  function Utf8Bytes(c: int): seq<int> {
    if c < 0x80 then [c]
    else if c < 0x800 then [0xc0 + c / 0x40, 0x80 + c % 0x40]
    else if c < 0x1_0000 then [0xe0 + c / 0x1000, 0x80 + c / 0x40 % 0x40, 0x80 + c % 0x40]
    else [0xf0 + c / 0x4_0000, 0x80 + c / 0x1000 % 0x40, 0x80 + c / 0x40 % 0x40, 0x80 + c % 0x40]
  }

  function Utf16Units(c: int): seq<int> {
    if c < 0x1_0000 then [c] else [0xd800 + (c - 0x1_0000) / 0x400, 0xdc00 + (c - 0x1_0000) % 0x400]
  }

  /** toByteArray() */
  function Utf8(text: seq<int>): seq<int> {
    if text == [] then [] else Utf8Bytes(text[0]) + Utf8(text[1..])
  }

  /** The code units of the same string. */
  function Utf16(text: seq<int>): seq<int> {
    if text == [] then [] else Utf16Units(text[0]) + Utf16(text[1..])
  }

  lemma ScalarLengths(c: int)
    requires 0 <= c < 0x11_0000
    ensures AllBytes(Utf8Bytes(c))
    ensures c < 128 ==> Utf8Bytes(c) == Utf16Units(c) == [c]
    ensures c >= 128 ==> |Utf16Units(c)| < |Utf8Bytes(c)|
  {
  }

  lemma AsciiTail(text: seq<int>)
    requires text != []
    ensures Ascii(text) <==> 0 <= text[0] < 128 && Ascii(text[1..])
  {
    if 0 <= text[0] < 128 && Ascii(text[1..]) {
      forall i | 0 <= i < |text| ensures 0 <= text[i] < 128 {
        if i > 0 { assert text[i] == text[1..][i - 1]; }
      }
    }
  }

  lemma {:induction false} Utf8Lengths(text: seq<int>)
    requires Scalars(text)
    ensures AllBytes(Utf8(text)) && |Utf16(text)| <= |Utf8(text)|
    ensures if Ascii(text) then Utf8(text) == Utf16(text) == text else |Utf16(text)| < |Utf8(text)|
  {
    if text != [] {
      hide Utf8Bytes, Utf16Units, Ascii;
      Utf8Lengths(text[1..]);
      ScalarLengths(text[0]);
      AsciiTail(text);
    } else {
      assert Ascii(text);
    }
  }

  /** On Android a string comes back exactly when it is ASCII. */
  lemma AndroidTextRoundTrip(text: seq<int>)
    requires Scalars(text) && |AndroidEncode(Utf8(text))| <= MAX_INT32
    ensures AndroidDecode(AndroidEncode(Utf8(text))) == Some(Utf16(text)) <==> Ascii(text)
  {
    hide AndroidDecode, AndroidEncode;
    Utf8Lengths(text);
    AndroidRoundTrip(Utf8(text));
  }

  // ---------- against the ABI specification ----------

  /** Both decoders read what the specification writes; iOS answers nil for the empty string. */
  lemma DecodersReadSpec(bytes: seq<int>)
    requires AllBytes(bytes) && 2 * |bytes| + 192 <= MAX_INT32
    ensures AndroidDecode(SpecEncode(bytes)) == Some(bytes)
    ensures IosDecode(SpecEncode(bytes)) == if bytes == [] then Nil else Text(bytes)
  {
    hide AndroidDecode, IosDecode, Word, BytesHex, AllBytes;
    var rest := Zeros((64 - 2 * |bytes| % 64) % 64);
    AndroidReads(bytes, rest);
    IosReads(bytes, rest);
  }

  /** The Android encoder follows the specification for 1 to 32 bytes and for whole words, and nowhere else. */
  lemma AndroidEncodesSpec(bytes: seq<int>)
    requires |bytes| <= MAX_INT32
    ensures AndroidEncode(bytes) == SpecEncode(bytes) <==> 0 < |bytes| && (|bytes| <= 32 || |bytes| % 32 == 0)
  {
    hide Word, AndroidOffset, BytesHex, PadEnd;
    OffsetWord();
    WordReads(32);
    WordReads(|bytes|);
    PadEndIs(BytesHex(bytes), 64);
    var n := 2 * |bytes|;
    var pad, specPad := if n < 64 then 64 - n else 0, (64 - n % 64) % 64;
    var head := Word(32) + Word(|bytes|) + BytesHex(bytes);
    assert AndroidEncode(bytes) == head + Zeros(pad) && SpecEncode(bytes) == head + Zeros(specPad);
    PaddingAgrees(|bytes|);
    if pad != specPad {
      assert |AndroidEncode(bytes)| != |SpecEncode(bytes)|;
    }
  }

  lemma PaddingAgrees(n: nat)
    ensures (if 2 * n < 64 then 64 - 2 * n else 0) == (64 - 2 * n % 64) % 64 <==> 0 < n && (n <= 32 || n % 32 == 0)
  {
  }

  // ---------- iOS ----------

  /**
   The iOS encoder shifts everything after the offset by one digit, so the iOS decoder reads offset 2 and, at
   character 4, the length 0x20000. Decoding an encoded string gives nil for every string.
   */
  lemma IosRoundTripFails(bytes: seq<int>)
    requires |bytes| <= MAX_INT64
    ensures IosDecode(IosEncode(bytes)) == Nil
  {
    hide ParseHex, Word, BytesHex, RemovePrefix, IosDecode;
    var e := IosEncode(bytes);
    WordReads(|bytes|);
    assert |e| == 193 && e[..63] == Zeros(63) && e[63] == '2' && e[64] == '0';
    assert e[65..129] == Word(|bytes|);
    NoPrefix(e);
    ShiftedOffset(e);
    ShiftedLength(e);
    IosMisreads(e);
  }

  lemma ShiftedOffset(e: string)
    requires |e| == 193 && e[..63] == Zeros(63) && e[63] == '2'
    ensures ParseHex(e[..64]) == Some(2)
  {
    assert e[..64] == Zeros(63) + "2";
    LeadingZeros(63, "2");
    assert "2"[..0] == "";
    assert e[..64][0] == '0' by { assert e[..63][0] == '0'; }
  }

  lemma ShiftedLength(e: string)
    requires |e| == 193 && e[..63] == Zeros(63) && e[63] == '2' && e[64] == '0'
    requires e[65] == '0' && e[66] == '0' && e[67] == '0'
    ensures ParseHex(e[4..68]) == Some(0x20000)
  {
    var f := e[4..68];
    forall i | 0 <= i < 59 ensures f[i] == '0' { assert e[..63][i + 4] == '0'; }
    assert f == Zeros(59) + "20000";
    LeadingZeros(59, "20000");
    assert "20000"[..4] == "2000" && "2000"[..3] == "200" && "200"[..2] == "20" && "20"[..1] == "2" && "2"[..0] == "";
    assert DigitsValue("2") == Some(0x2) && DigitsValue("20") == Some(0x20) && DigitsValue("200") == Some(0x200);
    assert DigitsValue("2000") == Some(0x2000) && DigitsValue("20000") == Some(0x20000);
  }

  lemma IosMisreads(e: string)
    requires |e| == 193 && RemovePrefix(e) == e && ParseHex(e[..64]) == Some(2) && ParseHex(e[4..68]) == Some(0x20000)
    ensures IosDecode(e) == Nil
  {
    hide ParseHex, RemovePrefix, PairUnits;
  }
}
