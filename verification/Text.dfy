/** Bytes, UTF-8 and decimal numbers.
    A byte is written as the `char` with that code, below 256, so a byte string
    is a `string` and ASCII literals denote their own bytes. */
module Text {

  import opened Wrappers

  type Bytes = string

  ghost predicate IsBytes(b: Bytes) { forall i :: 0 <= i < |b| ==> b[i] as int < 256 }

  // ------------------------------------------------------------------ UTF-8

  function Utf8(c: char): (r: Bytes)
    ensures IsBytes(r) && 1 <= |r| <= 4
    ensures |r| == 1 <==> c as int < 128
  {
    var n := c as int;
    if n < 0x80 then [c]
    else if n < 0x800 then [(0xC0 + n / 64) as char, (0x80 + n % 64) as char]
    else if n < 0x10000 then
      [(0xE0 + n / 4096) as char, (0x80 + n / 64 % 64) as char, (0x80 + n % 64) as char]
    else
      [(0xF0 + n / 262144) as char, (0x80 + n / 4096 % 64) as char,
       (0x80 + n / 64 % 64) as char, (0x80 + n % 64) as char]
  }

  /** Python's `str.encode()`. */
  function Encode(s: string): (r: Bytes) {
    if s == "" then "" else Utf8(s[0]) + Encode(s[1..])
  }

  ghost predicate Ascii(s: string) { forall i :: 0 <= i < |s| ==> s[i] as int < 128 }

  lemma {:induction false} EncodeConcat(a: string, b: string)
    ensures Encode(a + b) == Encode(a) + Encode(b)
  {
    if a == "" {
      assert a + b == b;
    } else {
      assert (a + b)[1..] == a[1..] + b;
      EncodeConcat(a[1..], b);
    }
  }

  lemma {:induction false} EncodeAscii(s: string)
    requires Ascii(s)
    ensures Encode(s) == s
  {
    if s != "" {
      assert s == [s[0]] + s[1..];
      EncodeAscii(s[1..]);
    }
  }

  /** The encoding has at least as many bytes as the text has characters, and
      exactly as many only when every character is ASCII. */
  lemma {:induction false} EncodeLength(s: string)
    ensures |Encode(s)| >= |s|
    ensures |Encode(s)| == |s| <==> Ascii(s)
    ensures IsBytes(Encode(s))
  {
    if s != "" {
      EncodeLength(s[1..]);
      assert forall i :: 0 < i < |s| ==> s[i] == s[1..][i - 1];
      assert forall i :: 0 <= i < |s[1..]| ==> s[1..][i] == s[i + 1];
    }
  }

  lemma Utf8FirstByte(c: char)
    ensures |Utf8(c)| == if Utf8(c)[0] as int < 0x80 then 1 else if Utf8(c)[0] as int < 0xE0 then 2
      else if Utf8(c)[0] as int < 0xF0 then 3 else 4
  {
  }

  /** The code point that a one-character encoding stands for (RFC 3629). */
  function CodePoint(b: Bytes): int
    requires b != "" && |b| <= 4
  {
    match |b|
    case 1 => b[0] as int
    case 2 => (b[0] as int - 0xC0) * 64 + (b[1] as int - 0x80)
    case 3 => (b[0] as int - 0xE0) * 4096 + (b[1] as int - 0x80) * 64 + (b[2] as int - 0x80)
    case _ => (b[0] as int - 0xF0) * 262144 + (b[1] as int - 0x80) * 4096 + (b[2] as int - 0x80) * 64 + (b[3] as int - 0x80)
  }

  lemma SixBitGroups(n: nat)
    ensures n == n / 64 * 64 + n % 64
    ensures n == n / 4096 * 4096 + n / 64 % 64 * 64 + n % 64
    ensures n == n / 262144 * 262144 + n / 4096 % 64 * 4096 + n / 64 % 64 * 64 + n % 64
  {
    GroupsOf(n, n / 64, n / 64 / 64, n / 64 / 64 / 64);
    NestedQuotients(n);
  }

  lemma NestedQuotients(n: nat)
    ensures n / 64 / 64 == n / 4096 && n / 64 / 64 / 64 == n / 262144
  {
    assert n == n / 64 / 64 * 4096 + (n / 64 % 64 * 64 + n % 64);
    assert n == n / 64 / 64 / 64 * 262144 + (n / 64 / 64 % 64 * 4096 + n / 64 % 64 * 64 + n % 64);
  }

  lemma GroupsOf(n: nat, a: nat, b: nat, d: nat)
    requires a == n / 64 && b == a / 64 && d == b / 64
    ensures n == a * 64 + n % 64 == b * 4096 + a % 64 * 64 + n % 64 == d * 262144 + b % 64 * 4096 + a % 64 * 64 + n % 64
  {
  }

  lemma CodePointExact(c: char)
    ensures CodePoint(Utf8(c)) == c as int
  {
    SixBitGroups(c as int);
  }

  /** The bits of RFC 3629: the first byte tells the length, and every later one is a
      continuation byte. */
  lemma Utf8Shape(c: char)
    ensures var b, n := Utf8(c), |Utf8(c)|;
            && (n == 1 <==> b[0] as int < 0x80) && (n == 2 <==> 0xC2 <= b[0] as int <= 0xDF)
            && (n == 3 <==> 0xE0 <= b[0] as int <= 0xEF) && (n == 4 <==> 0xF0 <= b[0] as int <= 0xF4)
            && forall i :: 1 <= i < n ==> 0x80 <= b[i] as int <= 0xBF
  {
  }

  lemma Utf8Injective(c: char, d: char)
    requires Utf8(c) == Utf8(d)
    ensures c == d
  {
    CodePointExact(c);
    CodePointExact(d);
    hide Utf8, CodePoint;
  }

  lemma Utf8Prefix(c: char, d: char, x: Bytes, y: Bytes)
    requires Utf8(c) + x == Utf8(d) + y
    ensures c == d && x == y
  {
    hide Utf8;
    Utf8FirstByte(c);
    Utf8FirstByte(d);
    assert (Utf8(c) + x)[0] == Utf8(c)[0] && (Utf8(d) + y)[0] == Utf8(d)[0];
    assert (Utf8(c) + x)[..|Utf8(c)|] == Utf8(c) && (Utf8(d) + y)[..|Utf8(d)|] == Utf8(d);
    assert (Utf8(c) + x)[|Utf8(c)|..] == x && (Utf8(d) + y)[|Utf8(d)|..] == y;
    Utf8Injective(c, d);
  }

  lemma {:induction false} EncodeInjective(s: string, t: string)
    ensures Encode(s) == Encode(t) <==> s == t
  {
    hide Utf8;
    if Encode(s) == Encode(t) {
      if s == "" || t == "" {
        EncodeLength(s);
        EncodeLength(t);
      } else {
        Utf8Prefix(s[0], t[0], Encode(s[1..]), Encode(t[1..]));
        EncodeInjective(s[1..], t[1..]);
        assert s == [s[0]] + s[1..] && t == [t[0]] + t[1..];
      }
    }
  }

  /** Rust's `String::from_utf8`: the text with that encoding, if there is one. */
  ghost function Decode(b: Bytes): Option<string> {
    if exists s :: Encode(s) == b then var s :| Encode(s) == b; Some(s) else None
  }

  lemma DecodeEncode(s: string)
    ensures Decode(Encode(s)) == Some(s)
  {
    hide Encode;
    var t :| Encode(t) == Encode(s) && Decode(Encode(s)) == Some(t);
    EncodeInjective(s, t);
  }

  // ---------------------------------------------------------------- decimal

  predicate IsDigit(c: char) { '0' <= c <= '9' }

  predicate IsHexDigit(c: char) { '0' <= c <= '9' || 'a' <= c <= 'f' || 'A' <= c <= 'F' }

  ghost predicate AllDigits(s: string) { forall i :: 0 <= i < |s| ==> IsDigit(s[i]) }

  function Dec(n: nat): (r: string)
    ensures |r| >= 1 && AllDigits(r)
  {
    if n < 10 then [(48 + n) as char] else Dec(n / 10) + [(48 + n % 10) as char]
  }

  /** `{n}` for an integer. */
  function DecInt(n: int): string { if n < 0 then "-" + Dec(-n) else Dec(n) }

  function Zeros(k: nat): (r: string)
    ensures |r| == k && AllDigits(r)
  {
    if k == 0 then "" else "0" + Zeros(k - 1)
  }

  /** `{n:0wd}`: at least `w` digits, padded with zeros on the left. */
  function Padded(n: nat, w: nat): (r: string)
    ensures |r| >= w && AllDigits(r)
  {
    if |Dec(n)| >= w then Dec(n) else Zeros(w - |Dec(n)|) + Dec(n)
  }

  function Value(s: string): nat
    requires AllDigits(s)
  {
    if s == "" then 0 else Value(s[..|s| - 1]) * 10 + (s[|s| - 1] as int - 48)
  }

  lemma {:induction false} DecValue(n: nat)
    ensures Value(Dec(n)) == n
  {
    if n >= 10 {
      DecValue(n / 10);
      assert Dec(n)[..|Dec(n)| - 1] == Dec(n / 10);
    }
  }

  lemma {:induction false} ZerosValue(k: nat, s: string)
    requires AllDigits(s)
    ensures Value(Zeros(k) + s) == Value(s)
    decreases k, |s|
  {
    if s == "" {
      assert Zeros(k) + s == Zeros(k);
      if k > 0 {
        ZerosEnd(k);
        ZerosValue(k - 1, "");
        assert Zeros(k - 1) + "" == Zeros(k - 1);
        assert Zeros(k)[..k - 1] == Zeros(k - 1);
      }
    } else {
      ZerosValue(k, s[..|s| - 1]);
      assert (Zeros(k) + s)[..|Zeros(k) + s| - 1] == Zeros(k) + s[..|s| - 1];
    }
  }

  lemma {:induction false} ZerosEnd(k: nat)
    requires k > 0
    ensures Zeros(k) == Zeros(k - 1) + "0"
  {
    if k > 1 {
      ZerosEnd(k - 1);
    }
  }

  lemma PaddedValue(n: nat, w: nat)
    ensures Value(Padded(n, w)) == n
  {
    hide Dec, Value, Zeros;
    DecValue(n);
    if |Dec(n)| < w {
      ZerosValue(w - |Dec(n)|, Dec(n));
    }
  }

  function Pow10(w: nat): nat { if w == 0 then 1 else 10 * Pow10(w - 1) }

  /** A number fits in `w >= 1` digits exactly when it is below ten to the `w`. */
  lemma {:induction false} DecWidth(n: nat, w: nat)
    requires w >= 1
    ensures |Dec(n)| <= w <==> n < Pow10(w)
  {
    if n >= 10 {
      if w == 1 {
        assert Pow10(1) == 10 * Pow10(0);
      } else {
        DecWidth(n / 10, w - 1);
        assert n / 10 < Pow10(w - 1) <==> n < 10 * Pow10(w - 1);
      }
    } else {
      Pow10AtLeast(w);
    }
  }

  lemma {:induction false} Pow10AtLeast(w: nat)
    requires w >= 1
    ensures Pow10(w) >= 10
  {
    if w > 1 {
      Pow10AtLeast(w - 1);
    }
  }

  lemma PaddedWidth(n: nat, w: nat)
    requires w >= 1
    ensures |Padded(n, w)| == w <==> n < Pow10(w)
    ensures |Padded(n, w)| > w ==> Padded(n, w) == Dec(n)
  {
    DecWidth(n, w);
  }

  // ---------------------------------------------------------------- reading

  /** The rest of `b` after the literal `lit`. */
  function Strip(lit: Bytes, b: Bytes): (r: Option<Bytes>)
    ensures r.Some? ==> |r.value| == |b| - |lit|
  {
    if lit <= b then Some(b[|lit|..]) else None
  }

  lemma StripLiteral(lit: Bytes, r: Bytes)
    ensures Strip(lit, lit + r) == Some(r)
  {
    assert (lit + r)[|lit|..] == r;
  }

  /** Length of the longest run of digits at the front. */
  function DigitRun(b: Bytes): (k: nat)
    ensures k <= |b| && AllDigits(b[..k])
  {
    if b == "" || !IsDigit(b[0]) then 0
    else
      var k := DigitRun(b[1..]);
      assert b[..k + 1] == [b[0]] + b[1..][..k];
      k + 1
  }

  /** A decimal number at the front, and what follows it. */
  function ReadNat(b: Bytes): (r: Option<(nat, Bytes)>)
    ensures r.Some? ==> |r.value.1| < |b|
  {
    var k := DigitRun(b);
    if k == 0 then None else Some((Value(b[..k]), b[k..]))
  }

  function ReadInt(b: Bytes): (r: Option<(int, Bytes)>)
    ensures r.Some? ==> |r.value.1| < |b|
  {
    if b != "" && b[0] == '-' then
      match ReadNat(b[1..])
      case None => None
      case Some(p) => Some((0 - p.0 as int, p.1))
    else
      match ReadNat(b)
      case None => None
      case Some(p) => Some((p.0 as int, p.1))
  }

  ghost predicate NoDigitFirst(r: Bytes) { r == "" || !IsDigit(r[0]) }

  lemma {:induction false} DigitRunExact(d: string, r: Bytes)
    requires AllDigits(d) && NoDigitFirst(r)
    ensures DigitRun(d + r) == |d|
  {
    if d == "" {
      assert d + r == r;
    } else {
      assert (d + r)[1..] == d[1..] + r;
      DigitRunExact(d[1..], r);
    }
  }

  lemma ReadDigits(d: string, r: Bytes)
    requires d != "" && AllDigits(d) && NoDigitFirst(r)
    ensures ReadNat(d + r) == Some((Value(d), r))
  {
    DigitRunExact(d, r);
    assert (d + r)[..|d|] == d && (d + r)[|d|..] == r;
  }

  lemma ReadDec(n: nat, r: Bytes)
    requires NoDigitFirst(r)
    ensures ReadNat(Dec(n) + r) == Some((n, r))
  {
    ReadDigits(Dec(n), r);
    DecValue(n);
  }

  lemma ReadDecInt(n: int, r: Bytes)
    requires NoDigitFirst(r)
    ensures ReadInt(DecInt(n) + r) == Some((n, r))
  {
    hide Dec, ReadNat, Value;
    var b := DecInt(n) + r;
    if n < 0 {
      assert b[0] == '-' && b[1..] == Dec(-n) + r;
      ReadDec(-n, r);
    } else {
      assert IsDigit(Dec(n)[0]) && b[0] == Dec(n)[0];
      ReadDec(n, r);
    }
  }

  /** The text before the first newline, and what follows that newline. */
  function ReadLine(b: Bytes): Option<(Bytes, Bytes)> {
    if b == "" then None
    else if b[0] == '\n' then Some(("", b[1..]))
    else
      match ReadLine(b[1..])
      case None => None
      case Some((l, r)) => Some(([b[0]] + l, r))
  }

  lemma {:induction false} ReadLineExact(l: Bytes, r: Bytes)
    requires '\n' !in l
    ensures ReadLine(l + "\n" + r) == Some((l, r))
  {
    if l == "" {
      assert l + "\n" + r == "\n" + r;
    } else {
      assert (l + "\n" + r)[1..] == l[1..] + "\n" + r;
      ReadLineExact(l[1..], r);
      assert l == [l[0]] + l[1..];
    }
  }

  predicate EndsWith(s: string, suffix: string) { |suffix| <= |s| && s[|s| - |suffix|..] == suffix }

  /** Unicode white space. */
  predicate IsWhitespace(c: char) {
    var n := c as int;
    9 <= n <= 13 || n == 32 || n == 0x85 || n == 0xA0 || n == 0x1680 || 0x2000 <= n <= 0x200A
    || n == 0x2028 || n == 0x2029 || n == 0x202F || n == 0x205F || n == 0x3000
  }

  /** The twenty-five characters with the Unicode property White_Space. */
  lemma WhitespaceExactly(c: char)
    ensures IsWhitespace(c) <==>
      c as int in {0x9, 0xA, 0xB, 0xC, 0xD, 0x20, 0x85, 0xA0, 0x1680, 0x2000, 0x2001, 0x2002, 0x2003, 0x2004, 0x2005, 0x2006, 0x2007,
                   0x2008, 0x2009, 0x200A, 0x2028, 0x2029, 0x202F, 0x205F, 0x3000}
  {
  }

  function TrimStart(s: string): string { if s != "" && IsWhitespace(s[0]) then TrimStart(s[1..]) else s }

  function TrimEnd(s: string): string { if s != "" && IsWhitespace(s[|s| - 1]) then TrimEnd(s[..|s| - 1]) else s }

  /** `str::trim`. */
  function Trim(s: string): string { TrimEnd(TrimStart(s)) }

  /** `s.split_once(c)`, or `None`. */
  function SplitOnce(s: string, c: char): Option<(string, string)> {
    if s == "" then None
    else if s[0] == c then Some(("", s[1..]))
    else
      match SplitOnce(s[1..], c)
      case None => None
      case Some((a, b)) => Some(([s[0]] + a, b))
  }

  lemma {:induction false} SplitOnceExact(a: string, c: char, x: string)
    requires c !in a
    ensures SplitOnce(a + [c] + x, c) == Some((a, x))
  {
    var s := a + [c] + x;
    if a == "" {
      assert s == [c] + x;
    } else {
      assert s[1..] == a[1..] + [c] + x;
      assert a == [a[0]] + a[1..];
      SplitOnceExact(a[1..], c, x);
    }
  }

  /** `Trim` takes off white space at both ends, all of it and nothing else. */
  lemma TrimExactly(s: string) returns (front: string, back: string)
    ensures s == front + Trim(s) + back
    ensures (forall i :: 0 <= i < |front| ==> IsWhitespace(front[i])) && (forall i :: 0 <= i < |back| ==> IsWhitespace(back[i]))
    ensures Trim(s) != "" ==> !IsWhitespace(Trim(s)[0]) && !IsWhitespace(Trim(s)[|Trim(s)| - 1])
  {
    hide IsWhitespace;
    front := TrimStartExactly(s);
    back := TrimEndExactly(TrimStart(s));
  }

  lemma {:induction false} TrimStartExactly(s: string) returns (front: string)
    ensures s == front + TrimStart(s) && forall i :: 0 <= i < |front| ==> IsWhitespace(front[i])
    ensures TrimStart(s) != "" ==> !IsWhitespace(TrimStart(s)[0])
  {
    hide IsWhitespace;
    front := "";
    if s != "" && IsWhitespace(s[0]) {
      var rest := TrimStartExactly(s[1..]);
      front := [s[0]] + rest;
    }
  }

  lemma {:induction false} TrimEndExactly(s: string) returns (back: string)
    ensures s == TrimEnd(s) + back && forall i :: 0 <= i < |back| ==> IsWhitespace(back[i])
    ensures TrimEnd(s) != "" ==> !IsWhitespace(TrimEnd(s)[|TrimEnd(s)| - 1]) && s != "" && TrimEnd(s)[0] == s[0]
  {
    hide IsWhitespace;
    back := "";
    if s != "" && IsWhitespace(s[|s| - 1]) {
      var rest := TrimEndExactly(s[..|s| - 1]);
      back := rest + [s[|s| - 1]];
    }
  }

  /** `sep.join(parts)`. */
  function Join(sep: string, parts: seq<string>): string {
    if parts == [] then ""
    else if |parts| == 1 then parts[0]
    else parts[0] + sep + Join(sep, parts[1..])
  }

  function Concat(parts: seq<Bytes>): Bytes {
    if parts == [] then "" else parts[0] + Concat(parts[1..])
  }

  lemma {:induction false} ConcatAppend(a: seq<Bytes>, b: seq<Bytes>)
    ensures Concat(a + b) == Concat(a) + Concat(b)
  {
    if a == [] {
      assert a + b == b;
    } else {
      assert (a + b)[1..] == a[1..] + b;
      ConcatAppend(a[1..], b);
    }
  }

  lemma {:induction false} JoinSnoc(sep: string, parts: seq<string>, last: string)
    requires parts != []
    ensures Join(sep, parts + [last]) == Join(sep, parts) + sep + last
  {
    if |parts| > 1 {
      assert (parts + [last])[1..] == parts[1..] + [last];
      JoinSnoc(sep, parts[1..], last);
    } else {
      assert (parts + [last])[1..] == [last];
    }
  }

  /** `text.replace(c, r)` for a single character `c`. */
  function Replace(s: string, c: char, r: string): string {
    if s == "" then "" else (if s[0] == c then r else [s[0]]) + Replace(s[1..], c, r)
  }

  lemma {:induction false} ReplaceConcat(a: string, b: string, c: char, r: string)
    ensures Replace(a + b, c, r) == Replace(a, c, r) + Replace(b, c, r)
  {
    if a == "" {
      assert a + b == b;
    } else {
      assert (a + b)[1..] == a[1..] + b;
      ReplaceConcat(a[1..], b, c, r);
    }
  }
}
