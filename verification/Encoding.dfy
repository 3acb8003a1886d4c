/** Byte encodings of the signing module (`bundle/signing.rs`): the signed
    envelope and hexadecimal key files. */
module Encoding {
  import opened Text
  import opened Wrappers

  const U64_SIZE: nat := 0x1_0000_0000_0000_0000

  // ------------------------------------------------------------------- envelope

  function Pow256(k: nat): nat { if k == 0 then 1 else 256 * Pow256(k - 1) }

  /** The low `k` bytes of `n`, most significant first. */
  function BigEndian(n: nat, k: nat): (r: Bytes)
    ensures |r| == k && IsBytes(r)
  {
    if k == 0 then "" else BigEndian(n / 256, k - 1) + [(n % 256) as char]
  }

  function FromBigEndian(b: Bytes): nat
    requires IsBytes(b)
  {
    if b == "" then 0 else FromBigEndian(b[..|b| - 1]) * 256 + b[|b| - 1] as int
  }

  lemma {:induction false} BigEndianRoundTrip(n: nat, k: nat)
    requires n < Pow256(k)
    ensures FromBigEndian(BigEndian(n, k)) == n
  {
    if k > 0 {
      assert n / 256 < Pow256(k - 1);
      BigEndianRoundTrip(n / 256, k - 1);
      assert BigEndian(n, k)[..k - 1] == BigEndian(n / 256, k - 1);
    }
  }

  /** The first byte carries the greatest weight. */
  lemma {:induction false} FirstByteWeighsMost(b: Bytes)
    requires IsBytes(b) && b != ""
    ensures FromBigEndian(b) == b[0] as int * Pow256(|b| - 1) + FromBigEndian(b[1..])
  {
    var n := |b| - 1;
    if n == 0 {
      assert b[..0] == "" && b[1..] == "";
      assert Pow256(0) == 1;
    } else {
      FirstByteWeighsMost(b[..n]);
      assert b[..n][1..] == b[1..][..n - 1];
      Weight(b[0] as int, Pow256(n - 1));
    }
  }

  lemma Weight(x: nat, p: nat)
    ensures x * p * 256 == x * (256 * p)
  {
  }

  lemma Pow256Eight()
    ensures Pow256(8) == U64_SIZE
  {
    assert Pow256(1) == 256 && Pow256(2) == 0x1_0000 && Pow256(3) == 0x100_0000 && Pow256(4) == 0x1_0000_0000;
    assert Pow256(5) == 0x100_0000_0000 && Pow256(6) == 0x1_0000_0000_0000 && Pow256(7) == 0x100_0000_0000_0000;
  }

  /** Each input preceded by its length as eight big-endian bytes. */
  method EnvelopeBytes(sums: Bytes, index: Bytes) returns (buf: Bytes)
    ensures buf == Envelope(sums, index)
  {
    buf := BigEndian(|sums|, 8);
    buf := buf + sums;
    buf := buf + BigEndian(|index|, 8);
    buf := buf + index;
  }

  function Envelope(sums: Bytes, index: Bytes): Bytes {
    BigEndian(|sums|, 8) + sums + BigEndian(|index|, 8) + index
  }

  /** A length-prefixed field at the front, and what follows it. */
  function ReadField(b: Bytes): Option<(Bytes, Bytes)>
    requires IsBytes(b)
  {
    if |b| < 8 then None
    else
      var n := FromBigEndian(b[..8]);
      if |b| - 8 < n then None else Some((b[8..8 + n], b[8 + n..]))
  }

  function ReadEnvelope(b: Bytes): Option<(Bytes, Bytes)>
    requires IsBytes(b)
  {
    var sums :- ReadField(b);
    var index :- ReadField(sums.1);
    if index.1 == "" then Some((sums.0, index.0)) else None
  }

  lemma ReadFieldExact(f: Bytes, r: Bytes)
    requires IsBytes(f) && IsBytes(r) && |f| < U64_SIZE
    ensures ReadField(BigEndian(|f|, 8) + f + r) == Some((f, r))
  {
    Pow256Eight();
    BigEndianRoundTrip(|f|, 8);
    var b := BigEndian(|f|, 8) + f + r;
    assert b[..8] == BigEndian(|f|, 8) && b[8..8 + |f|] == f && b[8 + |f|..] == r;
  }

  /** The envelope can be taken apart again. */
  lemma EnvelopeRoundTrip(sums: Bytes, index: Bytes)
    requires IsBytes(sums) && IsBytes(index) && |sums| < U64_SIZE && |index| < U64_SIZE
    ensures ReadEnvelope(Envelope(sums, index)) == Some((sums, index))
  {
    hide BigEndian, ReadField;
    var rest := BigEndian(|index|, 8) + index;
    assert Envelope(sums, index) == BigEndian(|sums|, 8) + sums + rest;
    ReadFieldExact(sums, rest);
    assert rest == BigEndian(|index|, 8) + index + "";
    ReadFieldExact(index, "");
  }

  lemma BigEndianInjective(n: nat, m: nat)
    requires n < U64_SIZE && m < U64_SIZE
    ensures BigEndian(n, 8) == BigEndian(m, 8) <==> n == m
  {
    Pow256Eight();
    BigEndianRoundTrip(n, 8);
    BigEndianRoundTrip(m, 8);
  }

  lemma FieldSlices(d: string, f: string, r: string)
    ensures (d + f + r)[..|d|] == d && (d + f + r)[|d|..|d| + |f|] == f && (d + f + r)[|d| + |f|..] == r
  {
  }

  /** A length and its text at the front fix both, and what follows. */
  lemma FrontField(f: string, g: string, r: string, t: string)
    requires |f| < U64_SIZE && |g| < U64_SIZE
    requires BigEndian(|f|, 8) + f + r == BigEndian(|g|, 8) + g + t
    ensures f == g && r == t
  {
    hide BigEndian, U64_SIZE;
    FieldSlices(BigEndian(|f|, 8), f, r);
    FieldSlices(BigEndian(|g|, 8), g, t);
    BigEndianInjective(|f|, |g|);
  }

  /** No two pairs of inputs share an envelope, whatever characters they hold. */
  lemma EnvelopeInjective(sums: string, index: string, sums': string, index': string)
    requires |sums| < U64_SIZE && |index| < U64_SIZE && |sums'| < U64_SIZE && |index'| < U64_SIZE
    ensures Envelope(sums, index) == Envelope(sums', index') <==> sums == sums' && index == index'
  {
    hide BigEndian;
    if Envelope(sums, index) == Envelope(sums', index') {
      var r, r' := BigEndian(|index|, 8) + index, BigEndian(|index'|, 8) + index';
      assert Envelope(sums, index) == BigEndian(|sums|, 8) + sums + r;
      assert Envelope(sums', index') == BigEndian(|sums'|, 8) + sums' + r';
      FrontField(sums, sums', r, r');
      assert r == r + "" && r' == r' + "";
      FrontField(index, index', "", "");
    }
  }

  // ----------------------------------------------------------------- hexadecimal

  function HexDigit(n: nat): char
    requires n < 16
  {
    if n < 10 then (48 + n) as char else (87 + n) as char
  }

  function HexValue(c: char): Option<nat> {
    if '0' <= c <= '9' then Some(c as int - 48)
    else if 'a' <= c <= 'f' then Some(c as int - 87)
    else if 'A' <= c <= 'F' then Some(c as int - 55)
    else None
  }

  const HEX_DIGITS := "0123456789abcdef"

  /** `hex::encode`. */
  function HexEncode(b: Bytes): (r: string)
    requires IsBytes(b)
    ensures |r| == 2 * |b|
    ensures forall i :: 0 <= i < |r| ==> '0' <= r[i] <= '9' || 'a' <= r[i] <= 'f'
  {
    if b == "" then ""
    else [HexDigit(b[0] as int / 16), HexDigit(b[0] as int % 16)] + HexEncode(b[1..])
  }

  /** Two lower-case digits for every byte, the high half first. */
  lemma {:induction false} HexText(b: Bytes, i: nat)
    requires IsBytes(b) && i < |b|
    ensures HexEncode(b)[2 * i] == HEX_DIGITS[b[i] as int / 16] && HexEncode(b)[2 * i + 1] == HEX_DIGITS[b[i] as int % 16]
  {
    hide HexDigit;
    if i == 0 {
      HexDigitText(b[0] as int / 16);
      HexDigitText(b[0] as int % 16);
    } else {
      HexText(b[1..], i - 1);
      assert HexEncode(b)[2..] == HexEncode(b[1..]);
    }
  }

  lemma HexDigitText(n: nat)
    requires n < 16
    ensures HexDigit(n) == HEX_DIGITS[n]
  {
  }

  datatype HexError = OddLength | InvalidCharacter | WrongLength(expected: nat, actual: nat)

  datatype Decoded = Data(value: Bytes) | Invalid(error: HexError)

  /** `hex::decode`, which accepts either case. */
  function HexDecode(s: string): Decoded {
    if |s| % 2 == 1 then Invalid(OddLength) else HexPairs(s)
  }

  function HexPairs(s: string): (r: Decoded)
    requires |s| % 2 == 0
    ensures r.Data? ==> 2 * |r.value| == |s|
  {
    if s == "" then Data("")
    else if HexValue(s[0]).None? || HexValue(s[1]).None? then Invalid(InvalidCharacter)
    else
      match HexPairs(s[2..])
      case Invalid(e) => Invalid(e)
      case Data(rest) => Data([(HexValue(s[0]).value * 16 + HexValue(s[1]).value) as char] + rest)
  }

  /** What decodes: an even number of hexadecimal digits, of either case. */
  lemma {:induction false} HexDecodeExactly(s: string)
    ensures HexDecode(s) == Invalid(OddLength) <==> |s| % 2 == 1
    ensures HexDecode(s).Data? <==> |s| % 2 == 0 && forall i :: 0 <= i < |s| ==> IsHexDigit(s[i])
    ensures HexDecode(s).Data? ==> |HexDecode(s).value| * 2 == |s|
    decreases |s|
  {
    hide HexValue, IsHexDigit;
    if |s| % 2 == 0 && s != "" {
      HexValueExactly(s[0]);
      HexValueExactly(s[1]);
      HexDecodeExactly(s[2..]);
      assert s == [s[0], s[1]] + s[2..];
    }
  }

  lemma HexValueExactly(c: char)
    ensures HexValue(c).Some? <==> IsHexDigit(c)
    ensures HexValue(c).Some? ==> HexValue(c).value < 16
  {
  }

  /** Upper-case digits in lower case. */
  function Lowered(s: string): (r: string)
    ensures |r| == |s|
  {
    if s == "" then "" else [if 'A' <= s[0] <= 'F' then (s[0] as int + 32) as char else s[0]] + Lowered(s[1..])
  }

  /** Case does not matter to the decoder. */
  lemma {:induction false} CaseBlind(s: string)
    ensures HexDecode(s) == HexDecode(Lowered(s))
    decreases |s|
  {
    if |s| % 2 == 0 && s != "" {
      var t := Lowered(s);
      CaseBlind(s[2..]);
      assert s[1..][1..] == s[2..] && s[1..][0] == s[1];
      assert Lowered(s[1..])[1..] == Lowered(s[2..]);
      assert t[1..] == Lowered(s[1..]) && t[1] == Lowered(s[1..])[0];
      assert t == [t[0], t[1]] + Lowered(s[2..]);
      assert HexValue(t[0]) == HexValue(s[0]) && HexValue(t[1]) == HexValue(s[1]);
      hide HexValue;
      assert t[2..] == Lowered(s[2..]);
    }
  }

  /** A key or signature file reads back exactly when its text, trimmed, is twice `n`
      hexadecimal digits. */
  lemma ReadHexFileExactly(text: string, n: nat)
    ensures ReadHexFile(text, n).Data? <==> |Trim(text)| == 2 * n && forall i :: 0 <= i < |Trim(text)| ==> IsHexDigit(Trim(text)[i])
    ensures ReadHexFile(text, n).Data? ==> |ReadHexFile(text, n).value| == n
  {
    hide Trim, HexDecode, IsHexDigit;
    HexDecodeExactly(Trim(text));
  }

  lemma HexDigitValue(n: nat)
    requires n < 16
    ensures HexValue(HexDigit(n)) == Some(n)
  {
  }

  lemma {:induction false} HexRoundTrip(b: Bytes)
    requires IsBytes(b)
    ensures HexDecode(HexEncode(b)) == Data(b)
  {
    hide HexDigit, HexValue;
    if b != "" {
      HexDigitValue(b[0] as int / 16);
      HexDigitValue(b[0] as int % 16);
      HexRoundTrip(b[1..]);
      assert HexEncode(b)[2..] == HexEncode(b[1..]);
      assert b == [b[0]] + b[1..];
    }
  }

  /** The text `write_hex` puts in a file. */
  function HexFile(b: Bytes): string
    requires IsBytes(b)
  {
    HexEncode(b) + "\n"
  }

  /** `read_key_bytes::<N>` on a file's text. */
  function ReadHexFile(text: string, n: nat): Decoded {
    match HexDecode(Trim(text))
    case Invalid(e) => Invalid(e)
    case Data(b) => if |b| == n then Data(b) else Invalid(WrongLength(n, |b|))
  }

  lemma TrimHexFile(b: Bytes)
    requires IsBytes(b)
    ensures Trim(HexFile(b)) == HexEncode(b)
  {
    var h := HexEncode(b);
    var s := HexFile(b);
    if h == "" {
      assert s == "\n" && s[1..] == "";
      assert TrimStart(s) == TrimStart(s[1..]);
    } else {
      assert s[0] == h[0] && !IsWhitespace(s[0]);
      assert s[..|s| - 1] == h && IsWhitespace(s[|s| - 1]);
      assert !IsWhitespace(h[|h| - 1]);
      assert TrimStart(s) == s && TrimEnd(h) == h;
      assert TrimEnd(s) == TrimEnd(s[..|s| - 1]);
    }
  }

  /** A key written to a file reads back unchanged, and only at its own length. */
  lemma KeyFileRoundTrip(b: Bytes, n: nat)
    requires IsBytes(b)
    ensures ReadHexFile(HexFile(b), n) == if |b| == n then Data(b) else Invalid(WrongLength(n, |b|))
  {
    TrimHexFile(b);
    HexRoundTrip(b);
  }
}
