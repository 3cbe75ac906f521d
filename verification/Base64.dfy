/** Base64: the encoder that turns signing keys into text, and the verifier's own decoder. */
module Base64 {
  import opened Arithmetic
  import opened Bits
  import opened Wrappers

  type digit = x: int | 0 <= x < 64

  /** `count` characters in sequence. */
  function Run(first: char, count: nat): string
    requires first as int + count < 128
  {
    seq(count, i requires 0 <= i < count => (first as int + i) as char)
  }

  /** The alphabet of section 4 of RFC 4648. */
  function Table(): (r: string)
    ensures |r| == 64
  {
    Run('A', 26) + Run('a', 26) + Run('0', 10) + "+/"
  }

  /** Position of a character in the table. */
  function DigitOf(c: char): (r: Option<digit>)
    ensures r.Some? ==> Table()[r.value] == c
    ensures r.None? ==> c !in Table()
  {
    if 'A' <= c <= 'Z' then Some(c as int - 'A' as int)
    else if 'a' <= c <= 'z' then Some(c as int - 'a' as int + 26)
    else if '0' <= c <= '9' then Some(c as int - '0' as int + 52)
    else if c == '+' then Some(62)
    else if c == '/' then Some(63)
    else None
  }

  lemma TableDigits(v: digit)
    ensures DigitOf(Table()[v]) == Some(v)
  {}

  method Position(c: char) returns (r: Option<digit>)
    ensures r == DigitOf(c)
  {
    var table := Table();
    for k := 0 to |table|
      invariant forall j | 0 <= j < k :: table[j] != c
    {
      if table[k] == c {
        TableDigits(k);
        return Some(k);
      }
    }
    r := None;
  }

  // ----- encoding

  /** Four characters for up to three bytes. Shifts and masks are written as divisions and remainders. */
  function Group(chunk: seq<byte>): (r: string)
    requires 1 <= |chunk| <= 3
    ensures |r| == 4
  {
    var b0 := chunk[0] as nat;
    var b1 := if |chunk| > 1 then chunk[1] as nat else 0;
    var b2 := if |chunk| > 2 then chunk[2] as nat else 0;
    [ Table()[b0 / 4],
      Table()[b0 % 4 * 16 + b1 / 16],
      if |chunk| > 1 then Table()[b1 % 16 * 4 + b2 / 64] else '=',
      if |chunk| > 2 then Table()[b2 % 64] else '=' ]
  }

  /** What a character counts in a group; padding counts nothing. */
  function ValueOf(c: char): nat {
    if DigitOf(c).Some? then DigitOf(c).value else 0
  }

  /** The four characters are the bytes of the group as one number in base 64, and padding stands for missing bytes. */
  lemma GroupIs(chunk: seq<byte>)
    requires 1 <= |chunk| <= 3
    ensures var b0, b1 := chunk[0] as nat, if |chunk| > 1 then chunk[1] as nat else 0;
      var b2 := if |chunk| > 2 then chunk[2] as nat else 0;
      var g := Group(chunk);
      && 0x1_0000 * b0 + 0x100 * b1 + b2
         == 0x4_0000 * ValueOf(g[0]) + 0x1000 * ValueOf(g[1]) + 0x40 * ValueOf(g[2]) + ValueOf(g[3])
      && g[0] != '=' && g[1] != '=' && (g[2] == '=' <==> |chunk| < 2) && (g[3] == '=' <==> |chunk| < 3)
  {
    var b0, b1 := chunk[0] as nat, if |chunk| > 1 then chunk[1] as nat else 0;
    var b2 := if |chunk| > 2 then chunk[2] as nat else 0;
    TableDigits(b0 / 4);
    TableDigits(b0 % 4 * 16 + b1 / 16);
    TableDigits(b1 % 16 * 4 + b2 / 64);
    TableDigits(b2 % 64);
    hide Table;
  }

  function Encoded(input: seq<byte>): string {
    if |input| == 0 then ""
    else if |input| < 3 then Group(input)
    else Group(input[..3]) + Encoded(input[3..])
  }

  lemma EncodedStep(rest: seq<byte>, k: nat)
    requires 0 < |rest| && k == if |rest| < 3 then |rest| else 3
    ensures Encoded(rest) == Group(rest[..k]) + Encoded(rest[k..])
  {
    if |rest| < 3 {
      assert rest[..k] == rest;
    }
  }

  method Base64Encode(input: seq<byte>) returns (out: string)
    ensures out == Encoded(input)
  {
    hide Group, Encoded;
    out := "";
    var i := 0;
    assert input[0..] == input;
    while i < |input|
      invariant i <= |input| && out + Encoded(input[i..]) == Encoded(input)
    {
      var end := if i + 3 < |input| then i + 3 else |input|;
      var chunk := input[i..end];
      ghost var rest := input[i..];
      EncodedStep(rest, end - i);
      assert rest[..end - i] == chunk && rest[end - i..] == input[end..];
      out := out + Group(chunk);
      i := end;
    }
    assert Encoded(input[i..]) == "" by { EncodedNothing(input[i..]); }
  }

  lemma EncodedNothing(s: seq<byte>)
    requires |s| == 0
    ensures Encoded(s) == ""
  {}

  // ----- decoding

  predicate Skipped(c: char) {
    c == '=' || c == ' ' || c == '\t' || c == '\n' || c as int == 12 || c == '\r'
  }

  /** The digits of a text without padding and white space, if all are in the table. */
  function Digits(s: string): Option<seq<digit>>
  {
    if |s| == 0 then Some([])
    else
      var rest := Digits(s[1..]);
      if Skipped(s[0]) then rest
      else if DigitOf(s[0]).None? || rest.None? then None
      else Some([DigitOf(s[0]).value] + rest.value)
  }

  /** The decoder's variables: bytes out, and `bits` bits waiting in the buffer. */
  datatype Decoder = Decoder(out: seq<byte>, buf: nat, bits: nat)
  {
    predicate Valid() {
      (bits == 0 || bits == 2 || bits == 4 || bits == 6) && buf < Pow2(bits)
    }

    function Feed(digit: digit): (d: Decoder)
      requires Valid()
      ensures d.Valid()
    {
      var wide := buf * 64 + digit;
      if bits == 0 then Decoder(out, wide, 6)
      else if bits == 2 then Decoder(out + [wide], 0, 0)
      else if bits == 4 then Decoder(out + [wide / 4], wide % 4, 2)
      else Decoder(out + [wide / 16], wide % 16, 4)
    }

    function FeedAll(digits: seq<digit>): (d: Decoder)
      requires Valid()
      ensures d.Valid()
      decreases |digits|
    {
      if |digits| == 0 then this
      else Feed(digits[0]).FeedAll(digits[1..])
    }
  }

  const START := Decoder([], 0, 0)

  function Decoded(s: string): Option<seq<byte>> {
    var digits := Digits(s);
    if digits.None? then None
    else
      assert START.Valid();
      Some(START.FeedAll(digits.value).out)
  }

  method Base64Decode(input: string) returns (r: Option<seq<byte>>)
    ensures r == Decoded(input)
  {
    hide Decoder.Feed, Decoder.FeedAll, DigitOf, Pow2;
    assert START.Valid() by { PowerValues(); }
    var out: seq<byte>, buf: nat, bits: nat := [], 0, 0;
    assert input[0..] == input;
    for i := 0 to |input|
      invariant Decoder(out, buf, bits).Valid()
      invariant Digits(input).None? <==> Digits(input[i..]).None?
      invariant Digits(input).Some? ==>
        START.FeedAll(Digits(input).value) == Decoder(out, buf, bits).FeedAll(Digits(input[i..]).value)
    {
      ghost var rest, d := input[i..], Decoder(out, buf, bits);
      assert rest[0] == input[i] && rest[1..] == input[i + 1..];
      var c := input[i];
      if c == '=' || c == ' ' || c == '\t' || c == '\n' || c as int == 12 || c == '\r' {
        continue;
      }
      var digit := Position(input[i]);
      if digit.None? {
        return None;
      }
      var val := digit.value;
      if Digits(rest).Some? {
        FeedFirst(d, val, Digits(rest[1..]).value);
      }
      FeedBits(d, val);
      buf := buf * 64 + val;
      bits := bits + 6;
      if bits >= 8 {
        bits := bits - 8;
        out := out + [buf / Pow2(bits) % 256];
        buf := buf % Pow2(bits);
      }
    }
    assert Digits(input[|input|..]) == Some([]);
    FeedNothing(Decoder(out, buf, bits));
    r := Some(out);
  }

  /** One digit, by the decoder's own arithmetic. */
  lemma FeedBits(d: Decoder, val: digit)
    requires d.Valid()
    ensures var wide, bits := d.buf * 64 + val, d.bits + 6;
      d.Feed(val) ==
      if bits >= 8 then Decoder(d.out + [wide / Pow2(bits - 8) % 256], wide % Pow2(bits - 8), bits - 8)
      else Decoder(d.out, wide, bits)
  {
    PowerValues();
    hide Pow2;
  }

  lemma FeedFirst(d: Decoder, digit: digit, digits: seq<digit>)
    requires d.Valid()
    ensures d.FeedAll([digit] + digits) == d.Feed(digit).FeedAll(digits)
  {
    assert ([digit] + digits)[1..] == digits;
  }

  lemma FeedNothing(d: Decoder)
    requires d.Valid()
    ensures d.FeedAll([]) == d
  {}

  // ----- the round trip

  /** The digits of one group of characters, padding left out. */
  function GroupDigits(chunk: seq<byte>): seq<digit>
    requires 1 <= |chunk| <= 3
  {
    var b0 := chunk[0] as nat;
    var b1 := if |chunk| > 1 then chunk[1] as nat else 0;
    var b2 := if |chunk| > 2 then chunk[2] as nat else 0;
    if |chunk| == 1 then [b0 / 4, b0 % 4 * 16]
    else if |chunk| == 2 then [b0 / 4, b0 % 4 * 16 + b1 / 16, b1 % 16 * 4]
    else [b0 / 4, b0 % 4 * 16 + b1 / 16, b1 % 16 * 4 + b2 / 64, b2 % 64]
  }

  lemma DigitsOfChar(v: digit, rest: string)
    ensures Digits([Table()[v]] + rest) == if Digits(rest).Some? then Some([v] + Digits(rest).value) else None
  {
    TableDigits(v);
    assert ([Table()[v]] + rest)[1..] == rest;
    assert !Skipped(Table()[v]);
  }

  lemma DigitsOfPadding(rest: string)
    ensures Digits(['='] + rest) == Digits(rest)
  {
    assert (['='] + rest)[1..] == rest;
  }

  lemma DigitsOfGroup(chunk: seq<byte>, rest: string)
    requires 1 <= |chunk| <= 3 && Digits(rest).Some?
    ensures Digits(Group(chunk) + rest) == Some(GroupDigits(chunk) + Digits(rest).value)
  {
    hide Digits, Table;
    var g, n := Group(chunk), GroupDigits(chunk);
    assert g + rest == [g[0]] + ([g[1]] + ([g[2]] + ([g[3]] + rest)));
    if |chunk| > 2 {
      DigitsOfChar(n[3], rest);
    } else {
      DigitsOfPadding(rest);
    }
    if |chunk| > 1 {
      DigitsOfChar(n[2], [g[3]] + rest);
    } else {
      DigitsOfPadding([g[3]] + rest);
    }
    DigitsOfChar(n[1], [g[2]] + ([g[3]] + rest));
    DigitsOfChar(n[0], [g[1]] + ([g[2]] + ([g[3]] + rest)));
    var tail := Digits(rest).value;
    if |chunk| == 3 {
      assert n + tail == [n[0]] + ([n[1]] + ([n[2]] + ([n[3]] + tail)));
    } else if |chunk| == 2 {
      assert n + tail == [n[0]] + ([n[1]] + ([n[2]] + tail));
    } else {
      assert n + tail == [n[0]] + ([n[1]] + tail);
    }
  }

  lemma {:induction false} FeedJoins(d: Decoder, a: seq<digit>, b: seq<digit>)
    requires d.Valid()
    ensures d.FeedAll(a + b) == d.FeedAll(a).FeedAll(b)
    decreases |a|
  {
    if |a| == 0 {
      assert a + b == b;
    } else {
      assert (a + b)[1..] == a[1..] + b;
      FeedJoins(d.Feed(a[0]), a[1..], b);
    }
  }

  /** Each step of decoding the characters of a group. */
  lemma GroupSteps(out: seq<byte>, b0: byte, b1: byte, b2: byte)
    ensures Decoder(out, 0, 0).Valid() && Decoder(out, b0 / 4, 6).Valid() && Decoder(out, b1 / 16, 4).Valid()
    ensures Decoder(out, b2 / 64, 2).Valid()
    ensures Decoder(out, 0, 0).Feed(b0 / 4) == Decoder(out, b0 / 4, 6)
    ensures Decoder(out, b0 / 4, 6).Feed(b0 % 4 * 16 + b1 / 16) == Decoder(out + [b0], b1 / 16, 4)
    ensures Decoder(out, b1 / 16, 4).Feed(b1 % 16 * 4 + b2 / 64) == Decoder(out + [b1], b2 / 64, 2)
    ensures Decoder(out, b2 / 64, 2).Feed(b2 % 64) == Decoder(out + [b2], 0, 0)
  {
    PowerValues();
    hide Pow2;
    assert b0 / 4 * 64 + (b0 % 4 * 16 + b1 / 16) == 16 * b0 + b1 / 16;
    assert b1 / 16 * 64 + (b1 % 16 * 4 + b2 / 64) == 4 * b1 + b2 / 64;
    assert b2 / 64 * 64 + b2 % 64 == b2;
  }

  /** With nothing waiting, a group yields its bytes. */
  lemma FeedGroup(out: seq<byte>, chunk: seq<byte>)
    requires 1 <= |chunk| <= 3
    ensures Decoder(out, 0, 0).Valid()
    ensures var d := Decoder(out, 0, 0).FeedAll(GroupDigits(chunk));
      d.out == out + chunk && (|chunk| == 3 ==> d == Decoder(out + chunk, 0, 0))
  {
    hide Decoder.Feed, Decoder.Valid, Decoder.FeedAll, Pow2;
    var n := GroupDigits(chunk);
    var b0, b1, b2 := chunk[0], if |chunk| > 1 then chunk[1] else 0, if |chunk| > 2 then chunk[2] else 0;
    var out1 := out + [b0];
    var out2 := out1 + [b1];
    GroupSteps(out, b0, b1, b2);
    GroupSteps(out1, b0, b1, b2);
    GroupSteps(out2, b0, b1, b2);
    var d0, d1, d2 := Decoder(out, 0, 0), Decoder(out, b0 / 4, 6), Decoder(out1, b1 / 16, 4);
    FeedStep(d0, n);
    FeedStep(d1, n[1..]);
    if |chunk| > 1 {
      FeedStep(d2, n[2..]);
      if |chunk| > 2 {
        FeedStep(Decoder(out2, b2 / 64, 2), n[3..]);
        assert out2 + [b2] == out + chunk;
      } else {
        assert out2 == out + chunk;
      }
    } else {
      assert out1 == out + chunk;
    }
  }

  lemma FeedStep(d: Decoder, digits: seq<digit>)
    requires d.Valid() && |digits| != 0
    ensures d.Feed(digits[0]).Valid()
    ensures d.FeedAll(digits) == d.Feed(digits[0]).FeedAll(digits[1..])
    ensures |digits| == 1 ==> d.FeedAll(digits) == d.Feed(digits[0])
  {}

  lemma {:induction false} EncodedDigits(input: seq<byte>, out: seq<byte>)
    ensures Digits(Encoded(input)).Some?
    ensures Decoder(out, 0, 0).FeedAll(Digits(Encoded(input)).value).out == out + input
    decreases |input|
  {
    hide Group, GroupDigits, Digits, Decoder.FeedAll;
    if |input| == 0 {
      assert Digits("") == Some([]) by { NoDigits(); }
      FeedNothing(Decoder(out, 0, 0));
    } else {
      var k := if |input| < 3 then |input| else 3;
      var chunk, rest := input[..k], input[k..];
      EncodedStep(input, k);
      EncodedDigits(rest, out + chunk);
      DigitsOfGroup(chunk, Encoded(rest));
      FeedJoins(Decoder(out, 0, 0), GroupDigits(chunk), Digits(Encoded(rest)).value);
      FeedGroup(out, chunk);
      assert out + chunk + rest == out + input;
      if k < 3 {
        assert Digits("") == Some([]) by { NoDigits(); }
        FeedNothing(Decoder(out, 0, 0).FeedAll(GroupDigits(chunk)));
      }
    }
  }

  lemma NoDigits()
    ensures Digits("") == Some([])
  {}

  /** Decoding inverts encoding, for every input. */
  lemma DecodeInvertsEncode(input: seq<byte>)
    ensures Decoded(Encoded(input)) == Some(input)
  {
    hide Digits, Encoded, Decoder.FeedAll;
    EncodedDigits(input, []);
    assert [] + input == input;
  }

  // ----- what the decoder makes of any text

  /** The number the digits write in base 64, most significant first, after `acc`. */
  function Number64(acc: nat, digits: seq<digit>): nat
    decreases |digits|
  {
    if |digits| == 0 then acc else Number64(64 * acc + digits[0], digits[1..])
  }

  function Number256(bytes: seq<byte>): nat {
    if |bytes| == 0 then 0 else 256 * Number256(bytes[..|bytes| - 1]) + bytes[|bytes| - 1]
  }

  /** Bytes out and bits waiting are together the number read so far. */
  lemma {:induction false} FeedNumber(d: Decoder, digits: seq<digit>)
    requires d.Valid()
    ensures var e := d.FeedAll(digits);
      && Number256(e.out) * Pow2(e.bits) + e.buf == Number64(Number256(d.out) * Pow2(d.bits) + d.buf, digits)
      && 8 * |e.out| + e.bits == 8 * |d.out| + d.bits + 6 * |digits|
    decreases |digits|
  {
    if |digits| != 0 {
      FeedOne(d, digits[0]);
      FeedNumber(d.Feed(digits[0]), digits[1..]);
    }
  }

  lemma PowerValues()
    ensures Pow2(0) == 1 && Pow2(2) == 4 && Pow2(4) == 16 && Pow2(6) == 64
  {
    assert Pow2(1) == 2 && Pow2(3) == 8 && Pow2(5) == 32;
  }

  lemma LongerNumber(out: seq<byte>, b: byte)
    ensures Number256(out + [b]) == 256 * Number256(out) + b as nat
  {
    assert (out + [b])[..|out|] == out;
  }

  lemma FeedOne(d: Decoder, digit: digit)
    requires d.Valid()
    ensures var e := d.Feed(digit);
      && Number256(e.out) * Pow2(e.bits) + e.buf == 64 * (Number256(d.out) * Pow2(d.bits) + d.buf) + digit
      && 8 * |e.out| + e.bits == 8 * |d.out| + d.bits + 6
  {
    PowerValues();
    hide Pow2, Number256;
    var wide := d.buf * 64 + digit;
    if d.bits == 2 {
      LongerNumber(d.out, wide);
    } else if d.bits == 4 {
      LongerNumber(d.out, wide / 4);
    } else if d.bits == 6 {
      LongerNumber(d.out, wide / 16);
    }
  }

  /** The characters of the alphabet, padding and ASCII white space. */
  predicate Acceptable(c: char) {
    || 'A' <= c <= 'Z' || 'a' <= c <= 'z' || '0' <= c <= '9' || c == '+' || c == '/'
    || c == '=' || c == ' ' || c == '\t' || c == '\n' || c as int == 12 || c == '\r'
  }

  /**
   * The decoder accepts exactly the texts over the alphabet, padding and white space, ignores the latter two
   * wherever they stand, and returns the whole bytes of the number the digits write.
   */
  lemma DecodedIsNumber(s: string)
    ensures Decoded(s).Some? <==> forall c | c in s :: Acceptable(c)
    ensures Decoded(s).Some? ==>
      var digits := Digits(s).value;
      var bits := 6 * |digits| % 8;
      && |Decoded(s).value| == 6 * |digits| / 8
      && Number256(Decoded(s).value) == Number64(0, digits) / Pow2(bits)
  {
    hide Digits, Number256, Number64, Pow2, Decoder.FeedAll;
    AcceptedTexts(s);
    if Digits(s).Some? {
      FedFromStart(Digits(s).value);
    }
  }

  lemma FedFromStart(digits: seq<digit>)
    ensures var e := START.FeedAll(digits);
      && |e.out| == 6 * |digits| / 8
      && Number256(e.out) == Number64(0, digits) / Pow2(6 * |digits| % 8)
  {
    hide Decoder.FeedAll, Number256, Number64, Pow2;
    var e := START.FeedAll(digits);
    FeedNumber(START, digits);
    NothingRead();
    DivModUnique(|e.out|, 8, e.bits);
    WholeBytes(Number256(e.out), Pow2(e.bits), e.buf);
  }

  lemma NothingRead()
    ensures Number256([]) == 0
  {}

  lemma WholeBytes(q: nat, d: nat, r: nat)
    requires r < d
    ensures (q * d + r) / d == q
  {
    DivModUnique(q, d, r);
  }

  lemma {:induction false} AcceptedTexts(s: string)
    ensures Digits(s).Some? <==> forall c | c in s :: Acceptable(c)
  {
    if |s| != 0 {
      AcceptedTexts(s[1..]);
      assert forall c :: c in s <==> c == s[0] || c in s[1..];
      assert Acceptable(s[0]) <==> Skipped(s[0]) || DigitOf(s[0]).Some?;
    }
  }
}
