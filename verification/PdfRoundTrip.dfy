/** What a standard reader gets back from the writer's files. */
module PdfRoundTrip {
  import opened Text
  import opened PdfWriter
  import opened PdfReader
  import opened Wrappers

  // ------------------------------------------------------------ literal strings

  function EscapeChar(c: char): string {
    if c == '\\' then "\\\\" else if c == '(' then "\\(" else if c == ')' then "\\)" else [c]
  }

  lemma ReplaceChar(x: char, c: char, r: string)
    ensures Replace([x], c, r) == if x == c then r else [x]
  {
    assert [x][1..] == "";
  }

  /** The three passes of `escape` amount to escaping each character once: the
      backslashes added by later passes are never escaped again. */
  lemma EscapeCons(t: string)
    requires t != ""
    ensures Escape(t) == EscapeChar(t[0]) + Escape(t[1..])
  {
    var c, rest := [t[0]], t[1..];
    assert t == c + rest;
    ReplaceConcat(c, rest, '\\', "\\\\");
    ReplaceChar(t[0], '\\', "\\\\");
    var a, b := Replace(c, '\\', "\\\\"), Replace(rest, '\\', "\\\\");
    ReplaceConcat(a, b, '(', "\\(");
    if t[0] == '\\' {
      assert a == ['\\'] + ['\\'];
      ReplaceConcat(['\\'], ['\\'], '(', "\\(");
      ReplaceChar('\\', '(', "\\(");
      ReplaceConcat(['\\'], ['\\'], ')', "\\)");
      ReplaceChar('\\', ')', "\\)");
    } else {
      ReplaceChar(t[0], '(', "\\(");
    }
    var a', b' := Replace(a, '(', "\\("), Replace(b, '(', "\\(");
    ReplaceConcat(a', b', ')', "\\)");
    if t[0] == '(' {
      assert a' == ['\\'] + ['('];
      ReplaceConcat(['\\'], ['('], ')', "\\)");
      ReplaceChar('\\', ')', "\\)");
      ReplaceChar('(', ')', "\\)");
    } else if t[0] != '\\' {
      ReplaceChar(t[0], ')', "\\)");
    }
  }

  /** Section 7.3.4.2: an unescaped end-of-line marker inside a literal string
      reads as one line feed. */
  function NormalizeEol(t: string): string {
    if t == "" then ""
    else if t[0] == '\r' then "\n" + NormalizeEol(if |t| > 1 && t[1] == '\n' then t[2..] else t[1..])
    else [t[0]] + NormalizeEol(t[1..])
  }

  /** `unescape(escape(t))` is `t` up to end-of-line markers, and the string
      ends exactly where the writer closed it. */
  lemma {:induction false} LiteralRoundTrip(t: string, r: Bytes)
    ensures ReadLiteral(Escape(t) + ")" + r, 0) == Some((NormalizeEol(t), r))
    decreases |t|
  {
    hide Escape;
    EscapeNothing();
    var b := Escape(t) + ")" + r;
    if t == "" {
      assert b == ")" + r;
    } else {
      EscapeCons(t);
      var tail := Escape(t[1..]) + ")" + r;
      assert b == EscapeChar(t[0]) + tail;
      if t[0] == '\r' {
        assert b[1..] == tail;
        if |t| > 1 {
          EscapeCons(t[1..]);
          assert t[1..][1..] == t[2..];
          assert b[1] == '\n' <==> t[1] == '\n';
        } else {
          assert b[1] == ')';
        }
        if |t| > 1 && t[1] == '\n' {
          assert EscapeChar('\n') == "\n";
          assert b[2..] == Escape(t[2..]) + ")" + r;
          LiteralRoundTrip(t[2..], r);
        } else {
          LiteralRoundTrip(t[1..], r);
        }
      } else {
        assert b[|EscapeChar(t[0])|..] == tail;
        LiteralRoundTrip(t[1..], r);
      }
    }
  }

  /** A text survives exactly when it holds no carriage return. */
  lemma {:induction false} NormalizeEolFixpoint(t: string)
    ensures '\r' !in NormalizeEol(t)
    ensures NormalizeEol(t) == t <==> '\r' !in t
    decreases |t|
  {
    if t != "" {
      assert t == [t[0]] + t[1..];
      if t[0] == '\r' {
        NormalizeEolFixpoint(if |t| > 1 && t[1] == '\n' then t[2..] else t[1..]);
      } else {
        NormalizeEolFixpoint(t[1..]);
        assert NormalizeEol(t)[1..] == NormalizeEol(t[1..]);
      }
    }
  }

  // ------------------------------------------------------------- content streams

  function DrawnLine(line: Line): Drawn { Drawn(line.x, line.y, line.size, NormalizeEol(line.text)) }

  function DrawnPage(page: Page): (r: seq<Drawn>)
    ensures |r| == |page|
  {
    if page == [] then [] else [DrawnLine(page[0])] + DrawnPage(page[1..])
  }

  lemma RegroupOp(a: string, b: string, c: string, d: string, e: string, f: string, g: string, h: string, i: string, j: string, r: string)
    ensures a + b + c + d + e + f + g + h + (i + j) + r == a + (b + (c + (d + (e + (f + (g + (h + i + (j + r))))))))
  {
  }

  lemma ReadOpExact(line: Line, r: Bytes)
    ensures ReadOp(Op(line) + r) == Some((DrawnLine(line), r))
  {
    hide DecInt, Escape, ReadLiteral, ReadInt, Strip, NormalizeEol;
    var b4 := " Tj ET" + r;
    var b3 := Escape(line.text) + ")" + b4;
    var b2 := DecInt(line.y) + (" Td (" + b3);
    var b1 := DecInt(line.x) + (" " + b2);
    var b0 := DecInt(line.size) + (" Tf " + b1);
    RegroupOp("BT /F1 ", DecInt(line.size), " Tf ", DecInt(line.x), " ", DecInt(line.y), " Td (", Escape(line.text), ")", " Tj ET", r);
    assert ") Tj ET" == ")" + " Tj ET";
    assert Op(line) + r == "BT /F1 " + b0;
    StripLiteral("BT /F1 ", b0);
    ReadDecInt(line.size, " Tf " + b1);
    StripLiteral(" Tf ", b1);
    ReadDecInt(line.x, " " + b2);
    StripLiteral(" ", b2);
    ReadDecInt(line.y, " Td (" + b3);
    StripLiteral(" Td (", b3);
    LiteralRoundTrip(line.text, b4);
    StripLiteral(" Tj ET", r);
  }

  lemma {:induction false} ReadOpsExact(page: Page)
    requires page != []
    ensures ReadOps(StreamText(page)) == Some(DrawnPage(page))
  {
    hide Op, ReadOp, DrawnLine;
    if |page| == 1 {
      ReadOpExact(page[0], "");
      assert page[1..] == [];
      assert DrawnPage(page) == [DrawnLine(page[0])];
      assert Op(page[0]) + "" == StreamText(page);
    } else {
      var rest := StreamText(page[1..]);
      ReadOpExact(page[0], "\n" + rest);
      assert StreamText(page) == Op(page[0]) + ("\n" + rest);
      assert ("\n" + rest)[1..] == rest;
      ReadOpsExact(page[1..]);
    }
  }

  lemma ReadContentExact(page: Page)
    ensures ReadContent(StreamText(page)) == Some(DrawnPage(page))
  {
    if page != [] {
      ReadOpsExact(page);
      assert ReadOps("").None?;
    }
  }

  // ------------------------------------------------------- the table and trailer

  ghost predicate Fits(offsets: seq<nat>) { forall i :: 0 <= i < |offsets| ==> offsets[i] < Pow10(10) }

  lemma EntryExact(offset: nat, r: Bytes)
    ensures offset < Pow10(10) ==>
      var b := EntryBytes(offset) + r;
      |b| >= 20 && b[..10] == Padded(offset, 10) && b[10..20] == " 00000 n \n" && b[20..] == r
    ensures offset >= Pow10(10) ==>
      var b := EntryBytes(offset) + r;
      |b| >= 20 && b[10..20] != " 00000 n \n"
  {
    hide Padded, Pow10;
    PaddedWidth(offset, 10);
    var p := Padded(offset, 10);
    var b := EntryBytes(offset) + r;
    if offset < Pow10(10) {
      assert b == p + " 00000 n \n" + r;
    } else {
      assert b[10] == p[10] && IsDigit(p[10]);
      assert b[10..20][0] == b[10];
    }
  }

  /** The table reads back exactly when every offset has at most ten digits. */
  lemma {:induction false} EntriesExact(offsets: seq<nat>, r: Bytes)
    ensures ReadEntries(|offsets|, EntriesBytes(offsets) + r) == if Fits(offsets) then Some((offsets, r)) else None
  {
    hide EntryBytes, Pow10;
    if offsets == [] {
      assert EntriesBytes(offsets) + r == r;
    } else {
      var rest := EntriesBytes(offsets[1..]) + r;
      assert EntriesBytes(offsets) + r == EntryBytes(offsets[0]) + rest;
      EntryExact(offsets[0], rest);
      assert Fits(offsets) <==> offsets[0] < Pow10(10) && Fits(offsets[1..]) by {
        assert offsets == [offsets[0]] + offsets[1..];
      }
      if offsets[0] < Pow10(10) {
        PaddedValue(offsets[0], 10);
        DigitRunExact(Padded(offsets[0], 10), "");
        assert Padded(offsets[0], 10) + "" == Padded(offsets[0], 10);
        PaddedWidth(offsets[0], 10);
        EntriesExact(offsets[1..], r);
      }
    }
  }

  lemma TrailerParts(total: nat, xrefPos: nat)
    ensures TrailerBytes(total, xrefPos)
         == "trailer\n<< /Size " + (Dec(total) + (" /Root 1 0 R >>\n" + ("startxref\n" + Dec(xrefPos) + "\n%%EOF\n")))
  {
    hide Dec;
  }

  lemma XrefParts(total: nat, offsets: seq<nat>, rest: Bytes)
    ensures XrefBytes(total, offsets) + rest
         == "xref\n0 " + (Dec(total) + ("\n0000000000 65535 f \n" + (EntriesBytes(offsets) + rest)))
  {
    hide Dec, EntriesBytes;
  }


  lemma TableExact(total: nat, offsets: seq<nat>, xrefPos: nat)
    requires total == |offsets| + 1
    ensures ReadTable(XrefBytes(total, offsets) + TrailerBytes(total, xrefPos))
         == if Fits(offsets) then Some(offsets) else None
  {
    hide Dec, ReadNat, Strip, ReadEntries, EntriesBytes, Fits;
    var tail := "startxref\n" + Dec(xrefPos) + "\n%%EOF\n";
    var t2 := " /Root 1 0 R >>\n" + tail;
    var t1 := Dec(total) + t2;
    var t0 := "trailer\n<< /Size " + t1;
    TrailerParts(total, xrefPos);
    var b2 := EntriesBytes(offsets) + t0;
    var b1 := "\n0000000000 65535 f \n" + b2;
    var b0 := Dec(total) + b1;
    XrefParts(total, offsets, t0);
    StripLiteral("xref\n0 ", b0);
    ReadDec(total, b1);
    StripLiteral("\n0000000000 65535 f \n", b2);
    EntriesExact(offsets, t0);
    StripLiteral("trailer\n<< /Size ", t1);
    ReadDec(total, t2);
    StripLiteral(" /Root 1 0 R >>\n", tail);
  }

  lemma {:induction false} TrailingDigitsExact(r: Bytes, d: string)
    requires AllDigits(d) && (r == "" || !IsDigit(r[|r| - 1]))
    ensures TrailingDigits(r + d) == |d|
    decreases |d|
  {
    if d == "" {
      assert r + d == r;
    } else {
      var d' := d[..|d| - 1];
      assert (r + d)[..|r + d| - 1] == r + d';
      TrailingDigitsExact(r, d');
    }
  }

  lemma StartXrefExact(front: Bytes, pos: nat)
    ensures StartXref(front + STARTXREF + Dec(pos) + END_OF_FILE) == Some(pos)
  {
    hide Dec;
    var file := front + STARTXREF + Dec(pos) + END_OF_FILE;
    var body := front + STARTXREF + Dec(pos);
    assert file[..|file| - |END_OF_FILE|] == body;
    assert (front + STARTXREF)[|front + STARTXREF| - 1] == '\n';
    TrailingDigitsExact(front + STARTXREF, Dec(pos));
    assert body[..|body| - |Dec(pos)|] == front + STARTXREF;
    assert body[|body| - |Dec(pos)|..] == Dec(pos);
    assert (front + STARTXREF)[|front|..] == STARTXREF;
    DecValue(pos);
  }

  // --------------------------------------------------------------------- objects

  /** Printable ASCII: survives encoding and holds no newline. */
  ghost predicate Plain(s: string) { forall i :: 0 <= i < |s| ==> 32 <= s[i] as int < 127 }

  lemma ReadPlainObject(number: nat, body: string, r: Bytes)
    requires Plain(body)
    ensures ReadObject(ObjectBytes(PdfObject(number, body)) + r, number) == Some(Parsed(body, None))
  {
    hide Dec, Encode, ReadNat, ReadLine, Strip;
    EncodeAscii(Dec(number) + " 0 obj\n" + body + "\nendobj\n");
    var b2 := "endobj\n" + r;
    var b1 := body + "\n" + b2;
    var b0 := " 0 obj\n" + b1;
    assert ObjectBytes(PdfObject(number, body)) + r == Dec(number) + b0;
    ReadDec(number, b0);
    StripLiteral(" 0 obj\n", b1);
    ReadLineExact(body, b2);
    NotAStream(b2);
    StripLiteral("endobj\n", r);
  }

  lemma NotAStream(b: Bytes)
    ensures b == "" || b[0] != 's' ==> Strip("stream\n", b).None?
  {
  }

  lemma ReadLengthExact(n: nat)
    ensures ReadLength("<< /Length " + Dec(n) + " >>") == Some(n)
  {
    hide Dec, ReadNat, Strip;
    assert "<< /Length " + Dec(n) + " >>" == "<< /Length " + (Dec(n) + " >>");
    StripLiteral("<< /Length ", Dec(n) + " >>");
    ReadDec(n, " >>");
  }

  lemma PlainContentDict(stream: string)
    ensures Plain(ContentDict(stream))
  {
  }

  lemma ContentBytes(number: nat, stream: string)
    ensures ObjectBytes(PdfObject(number, ContentBody(stream)))
         == Dec(number) + " 0 obj\n" + ContentDict(stream) + "\nstream\n" + Encode(stream) + "\nendstream\nendobj\n"
  {
    hide Dec, Encode, ContentDict;
    PlainContentDict(stream);
    var front, back := Dec(number) + " 0 obj\n" + ContentDict(stream) + "\nstream\n", "\nendstream\nendobj\n";
    assert Dec(number) + " 0 obj\n" + ContentBody(stream) + "\nendobj\n" == front + stream + back;
    EncodeConcat(front + stream, back);
    EncodeConcat(front, stream);
    EncodeAscii(front);
    EncodeAscii(back);
  }

  /** A content stream reads back exactly when `/Length`, which counts
      characters, is also the byte count: when the stream is ASCII. What is read
      otherwise, if anything, is as many bytes as the stream has characters. */
  lemma ReadContentObject(number: nat, stream: string, r: Bytes)
    ensures
      var read := ReadObject(ObjectBytes(PdfObject(number, ContentBody(stream))) + r, number);
      && (read == Some(Parsed(ContentDict(stream), Some(Encode(stream)))) <==> Ascii(stream))
      && |Encode(stream)| >= |stream|
      && (read.Some? ==> read == Some(Parsed(ContentDict(stream), Some(Encode(stream)[..|stream|]))))
  {
    hide Dec, Encode, ReadNat, ReadLine, Strip, ReadLength, ContentBody, Ascii;
    var data, dict := Encode(stream), ContentDict(stream);
    ContentBytes(number, stream);
    EncodeLength(stream);
    var b4 := "\nendstream\nendobj\n" + r;
    var b3 := data + b4;
    var b2 := "stream\n" + b3;
    var b1 := dict + "\n" + b2;
    var b0 := " 0 obj\n" + b1;
    assert ObjectBytes(PdfObject(number, ContentBody(stream))) + r == Dec(number) + b0;
    ReadDec(number, b0);
    StripLiteral(" 0 obj\n", b1);
    PlainContentDict(stream);
    ReadLineExact(dict, b2);
    StripLiteral("stream\n", b3);
    ReadLengthExact(|stream|);
    StripLiteral("\nendstream\nendobj\n", r);
    assert ReadObject(ObjectBytes(PdfObject(number, ContentBody(stream))) + r, number) == ReadStream(dict, b3);
    assert b3[..|stream|] == data[..|stream|];
    if Ascii(stream) {
      assert b3[..|stream|] == data && b3[|stream|..] == b4;
    } else {
      assert |b3[..|stream|]| < |data|;
    }
  }

  // -------------------------------------------------------------- which are ASCII

  lemma AsciiConcat(a: string, b: string)
    ensures Ascii(a + b) <==> Ascii(a) && Ascii(b)
  {
    assert forall i :: 0 <= i < |a| ==> (a + b)[i] == a[i];
    assert forall i :: 0 <= i < |b| ==> (a + b)[|a| + i] == b[i];
  }

  lemma {:induction false} EscapeKeepsAscii(t: string)
    ensures Ascii(Escape(t)) <==> Ascii(t)
  {
    hide Escape, Ascii;
    if t == "" {
      EscapeNothing();
    } else {
      EscapeCons(t);
      EscapeKeepsAscii(t[1..]);
      AsciiConcat(EscapeChar(t[0]), Escape(t[1..]));
      AsciiConcat([t[0]], t[1..]);
      assert t == [t[0]] + t[1..];
      EscapeCharAscii(t[0]);
    }
  }

  lemma EscapeNothing()
    ensures Escape("") == "" && Ascii("")
  {
  }

  lemma EscapeCharAscii(c: char)
    ensures Ascii(EscapeChar(c)) <==> Ascii([c])
  {
    assert EscapeChar(c)[|EscapeChar(c)| - 1] == c && [c][0] == c;
  }

  lemma OpAscii(line: Line)
    ensures Ascii(Op(line)) <==> Ascii(line.text)
  {
    hide Escape, Dec, Ascii;
    EscapeKeepsAscii(line.text);
    var front := "BT /F1 " + DecInt(line.size) + " Tf " + DecInt(line.x) + " " + DecInt(line.y) + " Td (";
    AsciiConcat(front + Escape(line.text), ") Tj ET");
    AsciiConcat(front, Escape(line.text));
    FrontAscii(line);
  }

  lemma FrontAscii(line: Line)
    ensures Ascii("BT /F1 " + DecInt(line.size) + " Tf " + DecInt(line.x) + " " + DecInt(line.y) + " Td (")
    ensures Ascii(") Tj ET")
  {
    hide DecInt;
    DecIntAscii(line.size);
    DecIntAscii(line.x);
    DecIntAscii(line.y);
    AsciiSix("BT /F1 ", DecInt(line.size), " Tf ", DecInt(line.x), " ", DecInt(line.y));
    AsciiConcat("BT /F1 " + DecInt(line.size) + " Tf " + DecInt(line.x) + " " + DecInt(line.y), " Td (");
  }

  lemma DecIntAscii(n: int)
    ensures Ascii(DecInt(n))
  {
    hide Dec;
  }

  lemma AsciiSix(a: string, b: string, c: string, d: string, e: string, f: string)
    requires Ascii(a) && Ascii(b) && Ascii(c) && Ascii(d) && Ascii(e) && Ascii(f)
    ensures Ascii(a + b + c + d + e + f)
  {
    hide Ascii;
    AsciiConcat(a, b);
    AsciiConcat(a + b, c);
    AsciiConcat(a + b + c, d);
    AsciiConcat(a + b + c + d, e);
    AsciiConcat(a + b + c + d + e, f);
  }

  /** Every text on the page is ASCII. */
  ghost predicate AsciiPage(page: Page) { forall k :: 0 <= k < |page| ==> Ascii(page[k].text) }

  lemma {:induction false} StreamAscii(page: Page)
    ensures Ascii(StreamText(page)) <==> AsciiPage(page)
  {
    hide Op, Ascii;
    if page == [] {
      assert Ascii("") by { EncodeLength(""); }
    } else {
      var rest := page[1..];
      OpAscii(page[0]);
      StreamAscii(rest);
      assert page == [page[0]] + rest;
      assert AsciiPage(page) <==> Ascii(page[0].text) && AsciiPage(rest);
      if rest == [] {
        assert StreamText(page) == Op(page[0]);
      } else {
        assert StreamText(page) == Op(page[0]) + "\n" + StreamText(rest);
        AsciiConcat(Op(page[0]) + "\n", StreamText(rest));
        AsciiConcat(Op(page[0]), "\n");
        assert Ascii("\n") by { EncodeLength("\n"); assert |Encode("\n")| == 1; }
      }
    }
  }

  lemma {:induction false} JoinPlain(sep: string, parts: seq<string>)
    requires Plain(sep) && forall k :: 0 <= k < |parts| ==> Plain(parts[k])
    ensures Plain(Join(sep, parts))
  {
    if |parts| > 1 {
      JoinPlain(sep, parts[1..]);
    }
  }

  lemma PagesBodyPlain(n: nat)
    ensures Plain(PagesBody(n))
  {
    JoinPlain(" ", PageReferences(n));
  }

  lemma PlainConcat(a: string, b: string)
    requires Plain(a) && Plain(b)
    ensures Plain(a + b)
  {
  }

  lemma PageFrontPlain()
    ensures Plain("<< /Type /Page /Parent 2 0 R ") && Plain("/MediaBox [0 0 ") && Plain("] ")
  {
  }

  lemma PageBackPlain()
    ensures Plain("/Resources << /Font << /F1 3 0 R >> >> ") && Plain("/Contents ") && Plain(" 0 R >>")
  {
  }

  lemma PageBodyPlain(i: nat)
    ensures Plain(PageBody(i))
  {
    hide Plain, Dec, PAGE_WIDTH, PAGE_HEIGHT;
    var a, b, c := "<< /Type /Page /Parent 2 0 R ", "/MediaBox [0 0 ", "/Resources << /Font << /F1 3 0 R >> >> ";
    PageFrontPlain();
    PageBackPlain();
    BoxPlain();
    PlainConcat(a, b);
    PlainConcat(a + b, Dec(PAGE_WIDTH));
    PlainConcat(a + b + Dec(PAGE_WIDTH), " ");
    PlainConcat(a + b + Dec(PAGE_WIDTH) + " ", Dec(PAGE_HEIGHT));
    var d := a + b + Dec(PAGE_WIDTH) + " " + Dec(PAGE_HEIGHT);
    PlainConcat(d, "] ");
    PlainConcat(d + "] ", c);
    PlainConcat(d + "] " + c, "/Contents ");
    DecPlain(ContentId(i));
    PlainConcat(d + "] " + c + "/Contents ", Dec(ContentId(i)));
    PlainConcat(d + "] " + c + "/Contents " + Dec(ContentId(i)), " 0 R >>");
  }

  lemma DecPlain(n: nat)
    ensures Plain(Dec(n))
  {
  }

  lemma BoxPlain()
    ensures Plain(Dec(PAGE_WIDTH)) && Plain(" ") && Plain(Dec(PAGE_HEIGHT))
  {
    DecPlain(PAGE_WIDTH);
    DecPlain(PAGE_HEIGHT);
  }

  lemma FontPlain()
    ensures Plain("<< /Type /Font /Subtype /Type1 ") && Plain("/BaseFont /Helvetica >>")
  {
  }

  lemma CatalogPlain()
    ensures Plain(CATALOG)
  {
  }

  lemma FixedBodiesPlain()
    ensures Plain(CATALOG) && Plain(FONT)
  {
    hide Plain, CATALOG;
    CatalogPlain();
    FontPlain();
    PlainConcat("<< /Type /Font /Subtype /Type1 ", "/BaseFont /Helvetica >>");
  }

  // ------------------------------------------------------------------ whole files

  /** What a reader should find as object `k + 1`. */
  function ParsedAt(pages: seq<Page>, k: nat): Parsed
    requires k < 3 + 2 * |pages|
  {
    if k < 3 || k % 2 == 1 then Parsed(ObjectAt(pages, k).body, None)
    else
      var stream := StreamText(pages[(k - 4) / 2]);
      Parsed(ContentDict(stream), Some(Encode(stream)))
  }

  function ParsedObjects(pages: seq<Page>): seq<Parsed> {
    seq(3 + 2 * |pages|, k requires 0 <= k < 3 + 2 * |pages| => ParsedAt(pages, k))
  }

  /** Object `k + 1` is a content stream. */
  predicate IsContent(k: nat) { k >= 3 && k % 2 == 0 }

  /** A content stream, if it is one, has ASCII texts only. */
  ghost predicate AsciiObject(pages: seq<Page>, k: nat)
    requires k < 3 + 2 * |pages|
  {
    IsContent(k) ==> AsciiPage(pages[(k - 4) / 2])
  }

  lemma ReadObjectAt(pages: seq<Page>, k: nat, r: Bytes)
    requires k < 3 + 2 * |pages|
    ensures
      var read := ReadObject(ObjectBytes(ObjectAt(pages, k)) + r, k + 1);
      read == Some(ParsedAt(pages, k)) <==> AsciiObject(pages, k)
  {
    hide ReadObject, ObjectBytes, CATALOG, FONT, PagesBody, PageBody, ContentBody, ContentDict, Encode, StreamText, AsciiPage, Plain;
    if IsContent(k) {
      var page := pages[(k - 4) / 2];
      ReadContentObject(k + 1, StreamText(page), r);
      StreamAscii(page);
    } else {
      FixedBodiesPlain();
      PagesBodyPlain(|pages|);
      PageBodyPlain(if k >= 3 then (k - 3) / 2 else 0);
      ReadPlainObject(k + 1, ObjectAt(pages, k).body, r);
    }
  }

  lemma {:induction false} BodyConcat(a: seq<PdfObject>, b: seq<PdfObject>)
    ensures BodyBytes(a + b) == BodyBytes(a) + BodyBytes(b)
  {
    hide ObjectBytes;
    if a == [] {
      assert a + b == b;
    } else {
      assert (a + b)[1..] == a[1..] + b;
      BodyConcat(a[1..], b);
    }
  }

  /** Every table offset points at its own object. */
  lemma OffsetPoints(objects: seq<PdfObject>, k: nat, tail: Bytes)
    requires k < |objects|
    ensures
      var file := HEADER + BodyBytes(objects) + tail;
      Offset(objects, k) <= |file| &&
      file[Offset(objects, k)..] == ObjectBytes(objects[k]) + (BodyBytes(objects[k + 1..]) + tail)
  {
    hide ObjectBytes, HEADER;
    assert objects == objects[..k] + objects[k..];
    BodyConcat(objects[..k], objects[k..]);
    assert objects[k..][1..] == objects[k + 1..];
    var file := HEADER + BodyBytes(objects) + tail;
    var front := HEADER + BodyBytes(objects[..k]);
    assert file == front + (ObjectBytes(objects[k]) + (BodyBytes(objects[k + 1..]) + tail));
  }

  ghost predicate AsciiFrom(pages: seq<Page>, k: nat)
    requires k <= 3 + 2 * |pages|
  {
    forall j :: k <= j < 3 + 2 * |pages| ==> AsciiObject(pages, j)
  }

  lemma {:induction false} ReadObjectsExact(pages: seq<Page>, tail: Bytes, k: nat)
    requires k <= 3 + 2 * |pages|
    ensures
      var file := HEADER + BodyBytes(Objects(pages)) + tail;
      var read := ReadObjects(file, Offsets(Objects(pages))[k..], k + 1);
      read == Some(ParsedObjects(pages)[k..]) <==> AsciiFrom(pages, k)
    decreases 3 + 2 * |pages| - k
  {
    hide HEADER, BodyBytes, ObjectBytes, ObjectAt, ParsedAt, ReadObject, Offset, AsciiObject;
    var objects, file := Objects(pages), HEADER + BodyBytes(Objects(pages)) + tail;
    var offsets, parsed := Offsets(objects)[k..], ParsedObjects(pages)[k..];
    if k < |objects| {
      OffsetPoints(objects, k, tail);
      ReadObjectAt(pages, k, BodyBytes(objects[k + 1..]) + tail);
      assert offsets[0] == Offset(objects, k) && offsets[1..] == Offsets(objects)[k + 1..];
      assert parsed[0] == ParsedAt(pages, k) && parsed[1..] == ParsedObjects(pages)[k + 1..];
      ReadObjectsExact(pages, tail, k + 1);
      var o := ReadObject(file[offsets[0]..], k + 1);
      var rest := ReadObjects(file, offsets[1..], k + 2);
      assert parsed == [parsed[0]] + parsed[1..];
      if o.Some? && rest.Some? {
        assert ([o.value] + rest.value)[0] == o.value && ([o.value] + rest.value)[1..] == rest.value;
      }
      assert AsciiFrom(pages, k) <==> AsciiObject(pages, k) && AsciiFrom(pages, k + 1);
    } else {
      assert offsets == [] && parsed == [];
    }
  }

  /** The condition a caller can check: all texts are ASCII and the file is
      short enough for ten-digit offsets. */
  ghost predicate Writable(pages: seq<Page>) {
    && (forall i :: 0 <= i < |pages| ==> AsciiPage(pages[i]))
    && Fits(Offsets(Objects(pages)))
  }

  lemma FileEnd(front: Bytes, xref: Bytes, total: nat, xrefPos: nat)
    ensures
      var head := front + xref + "trailer\n<< /Size " + Dec(total) + " /Root 1 0 R >>\n";
      front + xref + TrailerBytes(total, xrefPos) == head + STARTXREF + Dec(xrefPos) + END_OF_FILE
  {
    hide Dec;
    var a, d := "trailer\n<< /Size " + Dec(total) + " /Root 1 0 R >>\n", Dec(xrefPos);
    assert TrailerBytes(total, xrefPos) == a + (STARTXREF + (d + END_OF_FILE));
    hide STARTXREF, END_OF_FILE, TrailerBytes;
    RegroupEnd(front + xref, a, STARTXREF, d, END_OF_FILE);
  }

  lemma RegroupEnd(a: string, b: string, c: string, d: string, e: string)
    ensures a + (b + (c + (d + e))) == a + b + c + d + e
  {
  }

  lemma ReadFileSteps(pages: seq<Page>)
    ensures
      var offsets := Offsets(Objects(pages));
      ReadFile(PdfBytes(pages)) == if Fits(offsets) then ReadObjects(PdfBytes(pages), offsets, 1) else None
  {
    hide HEADER, BodyBytes, Objects, Offsets, XrefBytes, TrailerBytes, ReadTable, StartXref, ReadObjects, Dec, Fits, HasHeader, STARTXREF,
      END_OF_FILE;
    var objects := Objects(pages);
    var offsets, front := Offsets(objects), HEADER + BodyBytes(objects);
    var total := |objects| + 1;
    var xref := XrefBytes(total, offsets);
    var table := xref + TrailerBytes(total, |front|);
    FileEnd(front, xref, total, |front|);
    StartXrefExact(front + xref + "trailer\n<< /Size " + Dec(total) + " /Root 1 0 R >>\n", |front|);
    assert PdfBytes(pages) == front + table;
    assert PdfBytes(pages)[|front|..] == table;
    assert |offsets| == |objects| by { OffsetsLength(objects); }
    TableExact(total, offsets, |front|);
    assert PdfBytes(pages) == HEADER + (BodyBytes(objects) + table);
    HeaderRead(BodyBytes(objects) + table);
  }

  /** The header line names version 1.4, and the first object starts right after it. */
  lemma HeaderLine(pages: seq<Page>)
    ensures |PdfBytes(pages)| >= 9 && PdfBytes(pages)[..9] == "%PDF-1.4\n"
    ensures |Offsets(Objects(pages))| == 3 + 2 * |pages| && Offsets(Objects(pages))[0] == 9
  {
    hide Objects, ObjectBytes, XrefBytes, TrailerBytes;
    var objects := Objects(pages);
    ObjectCount(pages);
    assert objects[..0] == [];
    assert HEADER == "%PDF-1.4\n";
    var rest := BodyBytes(objects) + XrefBytes(|objects| + 1, Offsets(objects)) + TrailerBytes(|objects| + 1, |HEADER| + |BodyBytes(objects)|);
    assert PdfBytes(pages) == HEADER + rest;
  }

  lemma ObjectCount(pages: seq<Page>)
    ensures |Objects(pages)| == 3 + 2 * |pages|
  {
  }

  /** The file starts with the header line. */
  lemma HeaderRead(r: Bytes)
    ensures HasHeader(HEADER + r)
  {
    assert (HEADER + r)[..7] == HEADER[..7] == "%PDF-1.";
    assert (HEADER + r)[7] == '4' && (HEADER + r)[8] == '\n';
  }

  lemma OffsetsLength(objects: seq<PdfObject>)
    ensures |Offsets(objects)| == |objects|
  {
  }

  /** Main result: following `startxref` to the table, and each entry to its
      offset, a reader recovers exactly the objects written, 1 to 3 + 2n, if and
      only if every text is ASCII and every offset has at most ten digits. */
  lemma FileRoundTrip(pages: seq<Page>)
    ensures ReadFile(PdfBytes(pages)) == Some(ParsedObjects(pages)) <==> Writable(pages)
  {
    hide HEADER, BodyBytes, XrefBytes, TrailerBytes, Offset, ReadFile, ReadObjects, ParsedAt, ObjectAt, AsciiPage;
    ReadFileSteps(pages);
    var objects := Objects(pages);
    var tail := XrefBytes(|objects| + 1, Offsets(objects))
      + TrailerBytes(|objects| + 1, |HEADER| + |BodyBytes(objects)|);
    assert PdfBytes(pages) == HEADER + BodyBytes(objects) + tail;
    ReadObjectsExact(pages, tail, 0);
    assert Offsets(objects)[0..] == Offsets(objects) && ParsedObjects(pages)[0..] == ParsedObjects(pages);
    forall i | 0 <= i < |pages| && AsciiFrom(pages, 0) ensures AsciiPage(pages[i]) {
      assert AsciiObject(pages, 4 + 2 * i);
    }
  }
}
