/** Content streams cut short. `/Length` counts characters, so a reader takes as
    many bytes as the text has characters: all of them for an ASCII text, too few
    for any other. What it takes still never reads as the page that was written. */
module PdfShortStream {
  import opened Text
  import opened PdfWriter
  import opened PdfReader
  import opened PdfRoundTrip
  import opened Wrappers

  // ------------------------------------------- what is read does not depend on what follows

  lemma StripExtends(lit: Bytes, b: Bytes, x: Bytes)
    requires Strip(lit, b).Some?
    ensures Strip(lit, b + x) == Some(Strip(lit, b).value + x)
  {
    assert (b + x)[..|lit|] == b[..|lit|];
    assert (b + x)[|lit|..] == b[|lit|..] + x;
  }

  lemma {:induction false} DigitRunExtends(b: Bytes, x: Bytes)
    requires DigitRun(b) < |b|
    ensures DigitRun(b + x) == DigitRun(b)
  {
    assert (b + x)[0] == b[0] && (b + x)[1..] == b[1..] + x;
    if IsDigit(b[0]) {
      DigitRunExtends(b[1..], x);
    }
  }

  lemma ReadNatExtends(b: Bytes, x: Bytes)
    requires ReadNat(b).Some? && ReadNat(b).value.1 != ""
    ensures ReadNat(b + x) == Some((ReadNat(b).value.0, ReadNat(b).value.1 + x))
  {
    hide DigitRun, Value;
    var k := DigitRun(b);
    DigitRunExtends(b, x);
    assert (b + x)[..k] == b[..k] && (b + x)[k..] == b[k..] + x;
  }

  lemma ReadIntExtends(b: Bytes, x: Bytes)
    requires ReadInt(b).Some? && ReadInt(b).value.1 != ""
    ensures ReadInt(b + x) == Some((ReadInt(b).value.0, ReadInt(b).value.1 + x))
  {
    hide ReadNat;
    assert b != "" by { EmptyHasNoInt(); }
    assert (b + x)[0] == b[0];
    if b[0] == '-' {
      assert (b + x)[1..] == b[1..] + x;
      ReadNatExtends(b[1..], x);
    } else {
      ReadNatExtends(b, x);
    }
  }

  lemma EmptyHasNoInt()
    ensures ReadInt("").None?
  {
  }

  lemma {:induction false} ReadLiteralExtends(b: Bytes, x: Bytes, depth: nat)
    requires ReadLiteral(b, depth).Some?
    ensures ReadLiteral(b + x, depth) == Some((ReadLiteral(b, depth).value.0, ReadLiteral(b, depth).value.1 + x))
    decreases |b|
  {
    var y := b + x;
    assert b != "" && y[0] == b[0] && y[1..] == b[1..] + x;
    if |b| > 1 {
      assert y[1] == b[1] && y[2..] == b[2..] + x;
    }
    if b[0] == ')' {
      if depth > 0 { ReadLiteralExtends(b[1..], x, depth - 1); }
    } else if b[0] == '(' {
      ReadLiteralExtends(b[1..], x, depth + 1);
    } else if b[0] == '\r' {
      assert |b| > 1 by { EmptyHasNoLiteral(depth); }
      ReadLiteralExtends(if b[1] == '\n' then b[2..] else b[1..], x, depth);
    } else if b[0] == '\\' {
      EscapeExtends(b, x, depth);
    } else {
      ReadLiteralExtends(b[1..], x, depth);
    }
  }

  lemma {:induction false} EscapeExtends(b: Bytes, x: Bytes, depth: nat)
    requires |b| > 1 && b[0] == '\\' && ReadLiteral(b, depth).Some?
    ensures ReadLiteral(b + x, depth) == Some((ReadLiteral(b, depth).value.0, ReadLiteral(b, depth).value.1 + x))
    decreases |b|, 0
  {
    var y := b + x;
    EmptyHasNoLiteral(depth);
    assert y[0] == b[0] && y[1] == b[1] && y[1..] == b[1..] + x && y[2..] == b[2..] + x;
    if b[1] == '\r' {
      assert |b| > 2;
      assert y[2] == b[2] && (|b| > 2 ==> y[3..] == b[3..] + x);
      ReadLiteralExtends(if b[2] == '\n' then b[3..] else b[2..], x, depth);
    } else if IsOctal(b[1]) && b[1] != '\n' {
      OctalExtends(b[1..], x, depth);
      var k := ReadOctal(b[1..]).1;
      assert y[1 + k..] == b[1 + k..] + x;
      ReadLiteralExtends(b[1 + k..], x, depth);
    } else {
      ReadLiteralExtends(b[2..], x, depth);
    }
  }

  lemma OctalExtends(b: Bytes, x: Bytes, depth: nat)
    requires b != "" && IsOctal(b[0]) && ReadLiteral(b[ReadOctal(b).1..], depth).Some?
    ensures ReadOctal(b + x) == ReadOctal(b)
  {
    EmptyHasNoLiteral(depth);
    assert b[ReadOctal(b).1..] != "";
    assert (b + x)[0] == b[0] && (|b| > 1 ==> (b + x)[1] == b[1]) && (|b| > 2 ==> (b + x)[2] == b[2]);
  }

  lemma EmptyHasNoLiteral(depth: nat)
    ensures ReadLiteral("", depth).None?
  {
  }

  /** A drawing operation read from the front of a text is read from any longer
      text too. */
  lemma ReadOpExtends(b: Bytes, x: Bytes)
    requires ReadOp(b).Some?
    ensures ReadOp(b + x) == Some((ReadOp(b).value.0, ReadOp(b).value.1 + x))
  {
    hide Strip, ReadInt, ReadLiteral;
    var r0 := Strip("BT /F1 ", b).value;
    StripExtends("BT /F1 ", b, x);
    var size := ReadInt(r0).value;
    ReadIntExtends(r0, x);
    StripExtends(" Tf ", size.1, x);
    var r1 := Strip(" Tf ", size.1).value;
    ReadIntExtends(r1, x);
    var px := ReadInt(r1).value;
    StripExtends(" ", px.1, x);
    var r2 := Strip(" ", px.1).value;
    ReadIntExtends(r2, x);
    var py := ReadInt(r2).value;
    StripExtends(" Td (", py.1, x);
    var r3 := Strip(" Td (", py.1).value;
    ReadLiteralExtends(r3, x, 0);
    StripExtends(" Tj ET", ReadLiteral(r3, 0).value.1, x);
  }

  /** What follows the first line of a page in its stream. */
  function AfterFirst(page: Page): string
    requires page != []
  {
    if |page| == 1 then "" else "\n" + StreamText(page[1..])
  }

  lemma StreamParts(page: Page)
    requires page != []
    ensures StreamText(page) == Op(page[0]) + AfterFirst(page)
  {
    hide Op;
  }

  lemma FirstLine(page: Page, b: Bytes, x: Bytes)
    requires page != [] && b + x == StreamText(page) && ReadOp(b).Some?
    ensures ReadOp(b).value.0 == DrawnLine(page[0]) && ReadOp(b).value.1 + x == AfterFirst(page)
  {
    hide Op, ReadOp, DrawnLine, StreamText, AfterFirst;
    StreamParts(page);
    ReadOpExtends(b, x);
    ReadOpExact(page[0], AfterFirst(page));
  }

  /** A front part of a stream that reads as the right number of lines reads as
      the right lines. */
  lemma {:induction false} ReadFront(page: Page, b: Bytes, x: Bytes)
    requires page != [] && b + x == StreamText(page)
    requires ReadOps(b).Some? && |ReadOps(b).value| == |page|
    ensures ReadOps(b).value == DrawnPage(page)
  {
    hide ReadOp, ReadOps, DrawnLine, StreamText;
    HasFirst(b);
    FirstLine(page, b, x);
    if |page| == 1 {
      SingleLine(b);
      assert page[1..] == [];
    } else {
      SeveralLines(b);
      var t := ReadOp(b).value.1;
      assert (t + x)[1..] == t[1..] + x;
      ReadFront(page[1..], t[1..], x);
    }
  }

  lemma HasFirst(b: Bytes)
    requires ReadOps(b).Some?
    ensures ReadOp(b).Some?
  {
    hide ReadOp;
  }

  lemma SingleLine(b: Bytes)
    requires ReadOps(b).Some? && |ReadOps(b).value| == 1
    ensures ReadOp(b).Some? && ReadOps(b).value == [ReadOp(b).value.0]
  {
    hide ReadOp;
    if ReadOp(b).value.1 != "" {
      assert ReadOps(ReadOp(b).value.1[1..]).value == [];
      LinesNotEmpty(ReadOp(b).value.1[1..]);
      assert false;
    }
  }

  lemma LinesNotEmpty(b: Bytes)
    ensures ReadOps(b).Some? ==> ReadOps(b).value != []
  {
    hide ReadOp;
  }

  lemma SeveralLines(b: Bytes)
    requires ReadOps(b).Some? && |ReadOps(b).value| > 1
    ensures ReadOp(b).Some? && ReadOp(b).value.1 != "" && ReadOps(ReadOp(b).value.1[1..]).Some?
    ensures ReadOps(b).value == [ReadOp(b).value.0] + ReadOps(ReadOp(b).value.1[1..]).value
  {
    hide ReadOp;
  }

  // -------------------------------------------------------- encoded streams

  lemma {:induction false} EscapeConcat(a: string, b: string)
    ensures Escape(a + b) == Escape(a) + Escape(b)
  {
    hide Escape;
    EscapeNothing();
    if a == "" {
      assert a + b == b;
    } else {
      assert (a + b)[1..] == a[1..] + b;
      EscapeCons(a + b);
      EscapeCons(a);
      EscapeConcat(a[1..], b);
    }
  }

  lemma {:induction false} EscapeHigh(t: string)
    requires forall i :: 0 <= i < |t| ==> t[i] as int >= 128
    ensures Escape(t) == t
  {
    hide Escape;
    EscapeNothing();
    if t != "" {
      EscapeCons(t);
      EscapeHigh(t[1..]);
    }
  }

  lemma EncodeChar(c: char)
    ensures Encode(EscapeChar(c)) == Escape(Utf8(c))
  {
    hide Escape, Encode;
    EscapeNothing();
    if c as int < 128 {
      EscapeCons([c]);
      assert [c][1..] == "";
      EncodeAscii(EscapeChar(c));
    } else {
      EscapeHigh(Utf8(c));
      EncodeOne(c);
    }
  }

  lemma EncodeOne(c: char)
    ensures Encode([c]) == Utf8(c)
  {
    hide Utf8;
    assert [c][1..] == "";
  }

  /** Escaping and encoding commute: UTF-8 adds no byte that is escaped. */
  lemma {:induction false} EncodeEscape(t: string)
    ensures Encode(Escape(t)) == Escape(Encode(t))
  {
    hide Escape, Utf8, EscapeChar;
    EscapeNothing();
    if t != "" {
      EscapeCons(t);
      EncodeConcat(EscapeChar(t[0]), Escape(t[1..]));
      EncodeChar(t[0]);
      EncodeEscape(t[1..]);
      EscapeConcat(Utf8(t[0]), Encode(t[1..]));
    }
  }

  function EncodedLine(line: Line): Line { Line(line.x, line.y, line.size, Encode(line.text)) }

  function EncodedPage(page: Page): (r: Page)
    ensures |r| == |page| && forall k :: 0 <= k < |page| ==> r[k] == EncodedLine(page[k])
  {
    if page == [] then [] else [EncodedLine(page[0])] + EncodedPage(page[1..])
  }

  lemma EncodeOp(line: Line)
    ensures Encode(Op(line)) == Op(EncodedLine(line))
  {
    hide Escape, DecInt, Ascii, Encode;
    var front := "BT /F1 " + DecInt(line.size) + " Tf " + DecInt(line.x) + " " + DecInt(line.y) + " Td (";
    FrontAscii(line);
    EncodeAscii(front);
    EncodeAscii(") Tj ET");
    EncodeConcat(front + Escape(line.text), ") Tj ET");
    EncodeConcat(front, Escape(line.text));
    EncodeEscape(line.text);
  }

  /** The encoded stream of a page is the stream of the page with encoded texts. */
  lemma {:induction false} EncodeStream(page: Page)
    ensures Encode(StreamText(page)) == StreamText(EncodedPage(page))
  {
    hide Op;
    if page != [] {
      var rest := page[1..];
      var encoded := EncodedPage(page);
      EncodeOp(page[0]);
      EncodeStream(rest);
      assert encoded[1..] == EncodedPage(rest);
      if rest != [] {
        assert StreamText(page) == Op(page[0]) + "\n" + StreamText(rest);
        EncodeConcat(Op(page[0]) + "\n", StreamText(rest));
        EncodeConcat(Op(page[0]), "\n");
        EncodeOne('\n');
      }
    }
  }

  // ------------------------------------------------------------- what survives

  /** The bytes of a page's stream that a reader takes. */
  function Taken(page: Page): Bytes {
    EncodeLength(StreamText(page));
    Encode(StreamText(page))[..|StreamText(page)|]
  }

  lemma TakenAscii(page: Page)
    requires AsciiPage(page)
    ensures Taken(page) == StreamText(page) == Encode(StreamText(page))
  {
    hide AsciiPage, StreamText;
    StreamAscii(page);
    EncodeAscii(StreamText(page));
  }

  /** The lines drawn are the lines given. */
  ghost predicate SamePage(drawn: seq<Drawn>, page: Page) {
    && |drawn| == |page|
    && forall k :: 0 <= k < |page| ==> drawn[k] == Drawn(page[k].x, page[k].y, page[k].size, page[k].text)
  }

  ghost predicate PlainText(t: string) { Ascii(t) && '\r' !in t }

  lemma TextSurvives(t: string)
    ensures NormalizeEol(Encode(t)) == t <==> PlainText(t)
  {
    EncodeLength(t);
    if Ascii(t) {
      EncodeAscii(t);
    }
    hide NormalizeEol, Encode, Ascii;
    NormalizeEolFixpoint(t);
    if NormalizeEol(Encode(t)) == t {
      NormalizeEolFixpoint(Encode(t));
      EncodeKeepsReturns(t);
    }
  }

  lemma {:induction false} EncodeKeepsReturns(t: string)
    ensures '\r' in Encode(t) <==> '\r' in t
  {
    if t != "" {
      EncodeKeepsReturns(t[1..]);
      assert t == [t[0]] + t[1..];
      Utf8Return(t[0]);
      hide Utf8;
    }
  }

  lemma Utf8Return(c: char)
    ensures '\r' in Utf8(c) <==> c == '\r'
  {
  }

  lemma {:induction false} DrawnPageAt(page: Page, k: nat)
    requires k < |page|
    ensures DrawnPage(page)[k] == DrawnLine(page[k])
  {
    if k > 0 {
      DrawnPageAt(page[1..], k - 1);
    }
  }

  lemma DrawnSurvives(page: Page)
    ensures SamePage(DrawnPage(EncodedPage(page)), page) <==> forall k :: 0 <= k < |page| ==> PlainText(page[k].text)
  {
    hide PlainText, NormalizeEol, Encode;
    forall k | 0 <= k < |page|
      ensures DrawnPage(EncodedPage(page))[k] == DrawnLine(EncodedLine(page[k]))
      ensures NormalizeEol(Encode(page[k].text)) == page[k].text <==> PlainText(page[k].text)
    {
      DrawnPageAt(EncodedPage(page), k);
      TextSurvives(page[k].text);
    }
  }

  lemma TakenReads(page: Page)
    ensures ReadContent(Taken(page)).Some? && |ReadContent(Taken(page)).value| == |page| ==>
      ReadContent(Taken(page)).value == DrawnPage(EncodedPage(page))
  {
    hide StreamText, Encode;
    var read := ReadContent(Taken(page));
    if read.Some? && |read.value| == |page| && page != [] {
      EncodeStream(page);
      EncodeLength(StreamText(page));
      var x := Encode(StreamText(page))[|StreamText(page)|..];
      ReadFront(EncodedPage(page), Taken(page), x);
    }
  }

  /** Main step: what a reader takes of a stream reads as the page exactly when
      every text is ASCII and holds no carriage return. */
  lemma TakenSurvives(page: Page)
    ensures
      (ReadContent(Taken(page)).Some? && SamePage(ReadContent(Taken(page)).value, page))
        <==> forall k :: 0 <= k < |page| ==> PlainText(page[k].text)
  {
    hide StreamText, Encode, PlainText, ReadContent, Taken, DrawnPage, EncodedPage;
    TakenReads(page);
    DrawnSurvives(page);
    if forall k :: 0 <= k < |page| ==> PlainText(page[k].text) {
      TextsAscii(page);
      TakenAscii(page);
      EncodeStream(page);
      ReadContentExact(EncodedPage(page));
    }
  }

  lemma TextsAscii(page: Page)
    requires forall k :: 0 <= k < |page| ==> PlainText(page[k].text)
    ensures AsciiPage(page)
  {
    forall k | 0 <= k < |page| ensures Ascii(page[k].text) {
      assert PlainText(page[k].text);
    }
  }
}
