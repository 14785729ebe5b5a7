/** How the gateway resolvers decode what eth_call answers: "0x" and an ABI encoding. */
module GatewayAnswers {
  import opened AbiString

  // ---------- the prefix ----------

  /** The prefix makes no difference to a text that has none: both decoders answer the same with it and without. */
  lemma PrefixIsIgnored(s: string)
    requires !("0x" <= s)
    ensures AndroidDecode("0x" + s) == AndroidDecode(s) && IosDecode("0x" + s) == IosDecode(s)
  {
    hide RemovePrefix, AndroidDecode, IosDecode;
    Stripped(s);
    PayloadDecides("0x" + s, s);
  }

  lemma PayloadDecides(s: string, t: string)
    requires RemovePrefix(s) == RemovePrefix(t)
    ensures AndroidDecode(s) == AndroidDecode(t) && IosDecode(s) == IosDecode(t)
  {
    hide RemovePrefix, Substring, ToInt32, ToInt64, ChunkUnits, PairUnits, Wrap32, Fits64;
  }

  lemma Stripped(s: string)
    ensures RemovePrefix("0x" + s) == s
    ensures !("0x" <= s) ==> RemovePrefix(s) == s
  {
    assert ("0x" + s)[2..] == s;
  }

  /** An answer that encodes a string by the ABI gives the bytes back; iOS answers nil for the empty string. */
  lemma AnswersDecode(bytes: seq<int>)
    requires AllBytes(bytes) && 2 * |bytes| + 192 <= MAX_INT32
    ensures AndroidDecode("0x" + SpecEncode(bytes)) == Some(bytes)
    ensures IosDecode("0x" + SpecEncode(bytes)) == if bytes == [] then Nil else Text(bytes)
  {
    DecodersReadSpec(bytes);
    EncodingHasNoPrefix(bytes);
    hide AndroidDecode, IosDecode, SpecEncode, AllBytes;
    PrefixIsIgnored(SpecEncode(bytes));
  }

  lemma EncodingHasNoPrefix(bytes: seq<int>)
    ensures !("0x" <= SpecEncode(bytes))
  {
    WordReads(32);
    hide Word, BytesHex;
    assert SpecEncode(bytes)[1] == Word(32)[1];
  }

  // ---------- offsets ----------

  lemma FieldsAt(o: nat, between: string, bytes: seq<int>, rest: string)
    requires o <= MAX_INT32 && |bytes| <= MAX_INT32 && 64 + |between| == 2 * o
    ensures var e := Word(o) + between + Word(|bytes|) + BytesHex(bytes) + rest;
      && |e| == 2 * o + 64 + 2 * |bytes| + |rest| && RemovePrefix(e) == e
      && ParseHex(e[..64]) == Some(o) && ParseHex(e[2 * o..2 * o + 64]) == Some(|bytes|)
      && e[2 * o + 64..2 * o + 64 + 2 * |bytes|] == BytesHex(bytes)
  {
    hide ParseHex, BytesHex, ByteHex, Word, RemovePrefix, Zeros;
    var e := Word(o) + between + Word(|bytes|) + BytesHex(bytes) + rest;
    WordReads(o);
    WordReads(|bytes|);
    Layout(Word(o) + between, 2 * o, Word(|bytes|), BytesHex(bytes), rest);
    assert e[..64] == Word(o);
    NoPrefix(e);
  }

  lemma Layout(a: string, k: nat, b: string, c: string, d: string)
    requires |a| == k && |b| == 64
    ensures var s := a + b + c + d; s[k..k + 64] == b && s[k + 64..k + 64 + |c|] == c
  {
  }

  /** The string is found wherever the offset says, whatever stands before and after it. */
  lemma AnyOffsetDecodes(o: nat, between: string, bytes: seq<int>, rest: string)
    requires AllBytes(bytes) && 64 + |between| == 2 * o && 2 * o + 64 + 2 * |bytes| + |rest| <= MAX_INT32
    ensures var e := "0x" + (Word(o) + between + Word(|bytes|) + BytesHex(bytes) + rest);
      && AndroidDecode(e) == Some(bytes)
      && IosDecode(e) == if bytes == [] then Nil else Text(bytes)
  {
    hide ParseHex, ChunkUnits, PairUnits, BytesHex, Word, RemovePrefix, AllBytes, AndroidDecode, IosDecode;
    var e := Word(o) + between + Word(|bytes|) + BytesHex(bytes) + rest;
    FieldsAt(o, between, bytes, rest);
    UnitsRead(bytes);
    AndroidSteps(e, o, |bytes|);
    IosSteps(e, o, |bytes|);
    UnprefixedFields(e);
    PrefixIsIgnored(e);
  }

  lemma UnprefixedFields(e: string)
    requires RemovePrefix(e) == e
    ensures !("0x" <= e)
  {
  }

  // ---------- truncated answers ----------

  /** No answer that was cut off within the data decodes: it gives null on Android and nil on iOS. */
  lemma TruncatedAnswersFail(bytes: seq<int>, n: nat)
    requires AllBytes(bytes) && 2 * |bytes| + 192 <= MAX_INT32 && n < 128 + 2 * |bytes|
    ensures n <= |SpecEncode(bytes)|
    ensures AndroidDecode("0x" + SpecEncode(bytes)[..n]) == None && IosDecode("0x" + SpecEncode(bytes)[..n]) == Nil
  {
    hide ParseHex, BytesHex, Word, RemovePrefix, AndroidDecode, IosDecode;
    var e := SpecEncode(bytes);
    Fields(bytes, Zeros((64 - 2 * |bytes| % 64) % 64));
    UnprefixedFields(e);
    var t := e[..n];
    assert !("0x" <= t);
    PrefixIsIgnored(t);
    Stripped(t);
    if n >= 64 { assert t[..64] == e[..64]; }
    if n >= 128 { assert t[64..128] == e[64..128]; }
    AndroidFails(t, |bytes|);
    IosFails(t, |bytes|);
  }

  lemma AndroidFails(t: string, len: nat)
    requires RemovePrefix(t) == t && |t| < 128 + 2 * len <= MAX_INT32
    requires |t| >= 64 ==> ParseHex(t[..64]) == Some(32)
    requires |t| >= 128 ==> ParseHex(t[64..128]) == Some(len)
    ensures AndroidDecode(t) == None
  {
    hide ParseHex, ChunkUnits, RemovePrefix, Wrap32;
    InRange32(64);
    InRange32(128);
    InRange32(len * 2);
    InRange32(128 + len * 2);
  }

  lemma IosFails(t: string, len: nat)
    requires RemovePrefix(t) == t && |t| < 128 + 2 * len <= MAX_INT32
    requires |t| >= 64 ==> ParseHex(t[..64]) == Some(32)
    requires |t| >= 128 ==> ParseHex(t[64..128]) == Some(len)
    ensures IosDecode(t) == Nil
  {
    hide ParseHex, PairUnits, RemovePrefix;
  }

  // ---------- the case of digits ----------

  /** The same text but for the case of hexadecimal digits. */
  predicate SameText(s: string, t: string) {
    |s| == |t| && forall i :: 0 <= i < |s| ==> SameDigit(s[i], t[i])
  }

  predicate SameDigit(c: char, d: char) {
    Capital(c) == Capital(d)
  }

  function Capital(c: char): char {
    if 'a' <= c <= 'f' then c - 'a' + 'A' else c
  }

  lemma {:induction false} SameValue(s: string, t: string)
    requires SameText(s, t)
    ensures DigitsValue(s) == DigitsValue(t)
  {
    if s != "" {
      var n := |s| - 1;
      SameValue(s[..n], t[..n]);
      assert SameDigit(s[n], t[n]);
    }
  }

  lemma SameParse(s: string, t: string)
    requires SameText(s, t)
    ensures ParseHex(s) == ParseHex(t)
  {
    SameValue(s, t);
    if s != "" {
      SameValue(s[1..], t[1..]);
      assert SameDigit(s[0], t[0]);
    }
    hide DigitsValue, SameText;
  }

  lemma SamePayload(s: string, t: string)
    requires SameText(s, t)
    ensures SameText(RemovePrefix(s), RemovePrefix(t))
  {
    if |s| >= 2 {
      assert SameDigit(s[0], t[0]) && SameDigit(s[1], t[1]);
    }
  }

  lemma {:induction false} SameChunks(s: string, t: string)
    requires SameText(s, t)
    ensures ChunkUnits(s) == ChunkUnits(t)
  {
    if s != "" {
      var k := if |s| == 1 then 1 else 2;
      SameParse(s[..k], t[..k]);
      SameChunks(s[k..], t[k..]);
      hide ParseHex, SameText;
    }
  }

  lemma {:induction false} SamePairs(s: string, t: string)
    requires SameText(s, t) && |s| % 2 == 0
    ensures PairUnits(s) == PairUnits(t)
  {
    if s != "" {
      SameParse(s[..2], t[..2]);
      SamePairs(s[2..], t[2..]);
      hide ParseHex, SameText;
    }
  }

  lemma SameSlices(s: string, t: string)
    requires SameText(s, t)
    ensures forall i, j :: 0 <= i <= j <= |s| ==> SameText(s[i..j], t[i..j])
  {
  }

  lemma SameFields(s: string, t: string)
    requires SameText(s, t)
    ensures forall i, j :: 0 <= i <= j <= |s| ==>
      (ParseHex(s[i..j]) == ParseHex(t[i..j]) && ChunkUnits(s[i..j]) == ChunkUnits(t[i..j])
       && ((j - i) % 2 == 0 ==> PairUnits(s[i..j]) == PairUnits(t[i..j])))
  {
    hide ParseHex, ChunkUnits, PairUnits, SameText;
    SameSlices(s, t);
    SameLength(s, t);
    forall i, j | 0 <= i <= j <= |s|
      ensures ParseHex(s[i..j]) == ParseHex(t[i..j]) && ChunkUnits(s[i..j]) == ChunkUnits(t[i..j])
              && ((j - i) % 2 == 0 ==> PairUnits(s[i..j]) == PairUnits(t[i..j])) {
      SameParse(s[i..j], t[i..j]);
      SameChunks(s[i..j], t[i..j]);
      if (j - i) % 2 == 0 { SamePairs(s[i..j], t[i..j]); }
    }
  }

  lemma SameLength(s: string, t: string)
    requires SameText(s, t)
    ensures |s| == |t|
  {
  }

  /** Upper and lower case digits decode alike. */
  lemma CaseIsIgnored(s: string, t: string)
    requires SameText(s, t)
    ensures AndroidDecode(s) == AndroidDecode(t) && IosDecode(s) == IosDecode(t)
  {
    hide ParseHex, ChunkUnits, PairUnits, RemovePrefix, SameText, Wrap32, Fits64;
    SamePayload(s, t);
    var u, v := RemovePrefix(s), RemovePrefix(t);
    SameFields(u, v);
    SameLength(u, v);
    AndroidSame(s, t);
    IosSame(s, t);
  }

  ghost predicate FieldsAgree(u: string, v: string) {
    |u| == |v| && forall i, j :: 0 <= i <= j <= |u| ==>
      (ParseHex(u[i..j]) == ParseHex(v[i..j]) && ChunkUnits(u[i..j]) == ChunkUnits(v[i..j])
       && ((j - i) % 2 == 0 ==> PairUnits(u[i..j]) == PairUnits(v[i..j])))
  }

  lemma AndroidSame(s: string, t: string)
    requires FieldsAgree(RemovePrefix(s), RemovePrefix(t))
    ensures AndroidDecode(s) == AndroidDecode(t)
  {
    hide ParseHex, ChunkUnits, PairUnits, RemovePrefix, Wrap32;
  }

  lemma IosSame(s: string, t: string)
    requires FieldsAgree(RemovePrefix(s), RemovePrefix(t))
    ensures IosDecode(s) == IosDecode(t)
  {
    hide ParseHex, ChunkUnits, PairUnits, RemovePrefix, Fits64;
    var u, v := RemovePrefix(s), RemovePrefix(t);
    if |u| >= 128 {
      assert u[..64] == u[0..64] && v[..64] == v[0..64];
    }
  }

  // ---------- offsets beyond the end ----------

  lemma WideWordReads(n: nat)
    requires n < Power16(64)
    ensures |Word(n)| == 64 && Word(n)[1] != 'x' && ParseHex(Word(n)) == Some(n)
  {
    hide Power16, ToHex, DigitsValue;
    ToHexLength(n, 64);
    ToHexValue(n);
    LeadingZeros(64 - |ToHex(n)|, ToHex(n));
  }

  /**
   An offset that leads beyond the end gives null on Android, whatever its size. On iOS it gives nil unless it fits an
   Int of 64 bits and twice the offset plus the length field does not: then the app traps.
   */
  lemma WildOffsets(n: nat, rest: string)
    requires n < Power16(64) && 64 <= |rest| && 64 + |rest| <= MAX_INT32 && 2 * n > |rest|
    ensures AndroidDecode("0x" + Word(n) + rest) == None
    ensures IosDecode("0x" + Word(n) + rest) == if MAX_INT64 / 2 - 32 < n <= MAX_INT64 then Trap else Nil
  {
    hide ParseHex, Power16, RemovePrefix, AndroidDecode, IosDecode, Word;
    WideWordReads(n);
    var e := Word(n) + rest;
    assert "0x" + Word(n) + rest == "0x" + e && e[..64] == Word(n) && e[1] == Word(n)[1];
    NoPrefix(e);
    UnprefixedFields(e);
    PrefixIsIgnored(e);
    AndroidBeyond(e, n);
    IosBeyond(e, n);
  }

  lemma AndroidBeyond(e: string, n: nat)
    requires RemovePrefix(e) == e && 128 <= |e| <= MAX_INT32 && 2 * n + 64 > |e| && ParseHex(e[..64]) == Some(n)
    ensures AndroidDecode(e) == None
  {
    hide ParseHex, ChunkUnits, RemovePrefix;
  }

  lemma IosBeyond(e: string, n: nat)
    requires RemovePrefix(e) == e && 128 <= |e| <= MAX_INT32 && 2 * n + 64 > |e| && ParseHex(e[..64]) == Some(n)
    ensures IosDecode(e) == if MAX_INT64 / 2 - 32 < n <= MAX_INT64 then Trap else Nil
  {
    hide ParseHex, PairUnits, RemovePrefix;
  }

  // ---------- signs ----------

  /** A field of 64 characters with a sign in front. */
  function Signed(sign: char, n: nat): string {
    [sign] + PadStart(ToHex(n), 63)
  }

  lemma SignedReads(sign: char, n: nat)
    requires n <= MAX_INT64 && (sign == '-' || sign == '+')
    ensures |Signed(sign, n)| == 64 && ParseHex(Signed(sign, n)) == Some(if sign == '-' then 0 - n else n)
  {
    SmallNumbers(n);
    ToHexValue(n);
    LeadingZeros(63 - |ToHex(n)|, ToHex(n));
    hide ToHex, DigitsValue;
    assert Signed(sign, n)[1..] == PadStart(ToHex(n), 63);
  }

  /**
   A negative offset stops the app on iOS. On Android it gives null, unless it lies between 2^30 and 2^31 below zero:
   then its double wraps around to a position that is not negative.
   */
  lemma NegativeOffsetTraps(n: nat, rest: string)
    requires 0 < n <= MAX_INT64 && 64 <= |rest| && 64 + |rest| <= MAX_INT32
    ensures IosDecode("0x" + Signed('-', n) + rest) == Trap
    ensures !(0x4000_0000 < n <= 0x8000_0000) ==> AndroidDecode("0x" + Signed('-', n) + rest) == None
    ensures n == 0x8000_0000 ==> AndroidDecode("0x" + Signed('-', n) + rest) == Some([])
  {
    hide ParseHex, RemovePrefix, AndroidDecode, IosDecode;
    SignedReads('-', n);
    hide Signed;
    SignFirst('-', n);
    var e := Signed('-', n) + rest;
    assert "0x" + Signed('-', n) + rest == "0x" + e && e[..64] == Signed('-', n) && e[0] == '-';
    NoZeroFirst(e);
    PrefixIsIgnored(e);
    NegativeFails(e, 0 - n);
    if n == 0x8000_0000 { NegativeWraps(e); }
  }

  lemma SignFirst(sign: char, n: nat)
    ensures Signed(sign, n)[0] == sign
  {
  }

  lemma NoZeroFirst(e: string)
    requires e != "" && e[0] != '0'
    ensures RemovePrefix(e) == e && !("0x" <= e)
  {
  }

  lemma NegativeFails(e: string, v: int)
    requires RemovePrefix(e) == e && 128 <= |e| <= MAX_INT32 && ParseHex(e[..64]) == Some(v) && -MAX_INT64 <= v < 0
    ensures IosDecode(e) == Trap
    ensures !(-0x8000_0000 <= v < -0x4000_0000) ==> AndroidDecode(e) == None
  {
    hide ParseHex, PairUnits, ChunkUnits, RemovePrefix;
  }

  lemma NegativeWraps(e: string)
    requires RemovePrefix(e) == e && 128 <= |e| <= MAX_INT32 && ParseHex(e[..64]) == Some(-0x8000_0000)
    ensures AndroidDecode(e) == Some([])
  {
    NoUnits("");
    hide ParseHex, PairUnits, ChunkUnits, RemovePrefix;
    assert e[0..64] == e[..64] && e[64..64] == "";
  }

  lemma {:induction false} BadDigits(s: string, i: nat)
    requires i < |s| && DigitValue(s[i]).None?
    ensures DigitsValue(s) == None
  {
    if i < |s| - 1 { BadDigits(s[..|s| - 1], i); }
  }

  /** A field with a character after the first that is no digit gives null and nil. */
  lemma BadFieldFails(field: string, rest: string, i: nat)
    requires |field| == 64 && 1 <= i < 64 && DigitValue(field[i]).None? && !("0x" <= field)
    requires 64 <= |rest| && 64 + |rest| <= MAX_INT32
    ensures AndroidDecode("0x" + field + rest) == None && IosDecode("0x" + field + rest) == Nil
  {
    hide AndroidDecode, IosDecode, RemovePrefix;
    NoNumber(field, i);
    hide ParseHex;
    var e := field + rest;
    assert "0x" + field + rest == "0x" + e && e[..64] == field;
    assert !("0x" <= e) by { assert e[0] == field[0] && e[1] == field[1]; }
    Stripped(e);
    PrefixIsIgnored(e);
    NoNumberFails(e);
  }

  lemma NoNumber(field: string, i: nat)
    requires 1 <= i < |field| && DigitValue(field[i]).None?
    ensures ParseHex(field) == None
  {
    BadDigits(field, i);
    BadDigits(field[1..], i - 1);
    hide DigitsValue, DigitValue;
  }

  lemma NoNumberFails(e: string)
    requires RemovePrefix(e) == e && 128 <= |e| && ParseHex(e[..64]) == None
    ensures AndroidDecode(e) == None && IosDecode(e) == Nil
  {
    hide ParseHex, PairUnits, ChunkUnits, RemovePrefix;
  }

  // ---------- malformed data ----------

  /** Every pair of characters is a number that is not negative: two digits, or a plus sign and a digit, or "-0". */
  predicate PairsAreBytes(d: string)
    requires |d| % 2 == 0
  {
    d == "" || (ParseHex(d[..2]).Some? && 0 <= ParseHex(d[..2]).value && PairsAreBytes(d[2..]))
  }

  /** A pair is worth less than 256 in absolute value. */
  lemma PairRange(s: string)
    requires |s| == 2 && ParseHex(s).Some?
    ensures -16 < ParseHex(s).value < 256
  {
    OneDigit(s[1]);
    assert s[1..] == [s[1]];
    if s[0] != '-' && s[0] != '+' && DigitValue(s[0]).Some? && DigitValue(s[1]).Some? {
      assert s == [s[0], s[1]];
      TwoDigits(s[0], s[1], DigitValue(s[0]).value, DigitValue(s[1]).value);
    } else if s[0] != '-' && s[0] != '+' {
      BadDigits(s, if DigitValue(s[0]).None? then 0 else 1);
    }
  }

  lemma OneDigit(c: char)
    ensures DigitsValue([c]) == DigitValue(c)
    ensures DigitValue(c).Some? ==> DigitValue(c).value < 16
  {
    assert [c][..0] == "" && DigitsValue("") == Some(0);
  }

  /** What Android makes of the pairs: null for a malformed one, and a code unit near 65536 for a negative one. */
  lemma {:induction false} ChunksOfPairs(d: string)
    requires |d| % 2 == 0
    ensures var chunks := ChunkUnits(d);
      && (PairsAreBytes(d) ==> chunks == Some(PairUnits(d)) && |PairUnits(d)| == |d| / 2)
      && (!PairsAreBytes(d) ==> |PairUnits(d)| < |d| / 2)
      && (chunks.Some? ==> |chunks.value| == |d| / 2)
  {
    if d != "" {
      ChunksOfPairs(d[2..]);
      if ParseHex(d[..2]).Some? { PairRange(d[..2]); }
      hide ParseHex;
    }
  }

  /**
   For an answer with at least one byte of data, whatever its characters: both apps give the same text exactly if every
   pair is a number that is not negative. Otherwise iOS skips pairs, and Android gives null or other code units.
   */
  lemma AppsAgreeExactly(d: string, rest: string)
    requires |d| % 2 == 0 && d != "" && 128 + |d| + |rest| <= MAX_INT32
    ensures var e := "0x" + (Word(32) + Word(|d| / 2) + d + rest);
      && IosDecode(e) == Text(PairUnits(d)) && AndroidDecode(e) == ChunkUnits(d)
      && (AndroidDecode(e) == Some(PairUnits(d)) <==> PairsAreBytes(d))
  {
    hide ParseHex, ChunkUnits, PairUnits, Word, RemovePrefix, AndroidDecode, IosDecode, PairsAreBytes;
    var n := |d| / 2;
    var e := Word(32) + Word(n) + d + rest;
    WordReads(32);
    WordReads(n);
    Layout(Word(32), 64, Word(n), d, rest);
    assert e[..64] == Word(32) && e[1] == Word(32)[1];
    NoPrefix(e);
    UnprefixedFields(e);
    AndroidSteps(e, 32, n);
    IosSteps(e, 32, n);
    PrefixIsIgnored(e);
    ChunksOfPairs(d);
  }

  /** A negative pair, such as "-f", is a code unit near 65536 on Android and nothing on iOS. */
  lemma NegativePair(c: char, m: nat)
    requires DigitValue(c) == Some(m) && 0 < m
    ensures ChunkUnits(['-', c]) == Some([0x1_0000 - m]) && PairUnits(['-', c]) == []
  {
    var s := ['-', c];
    OneDigit(c);
    assert s[..2] == s && s[2..] == "" && s[1..] == [c];
    hide DigitsValue;
    assert ParseHex(s) == Some(0 - m);
    NoUnits("");
    PairThenNothing(s, 0 - m);
  }

  lemma PairThenNothing(s: string, v: int)
    requires |s| == 2 && ParseHex(s) == Some(v) && -16 < v < 0
    ensures ChunkUnits(s) == Some([v + 0x1_0000]) && PairUnits(s) == []
  {
    NoUnits("");
    hide ParseHex;
    assert s[..2] == s && s[2..] == "";
    assert v % 0x1_0000 == v + 0x1_0000;
    assert [v % 0x1_0000] + [] == [v + 0x1_0000];
  }
}
