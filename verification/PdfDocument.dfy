/** The document a reader sees: the page tree followed from the catalog, and
    every content stream decoded into the lines the writer was given. */
module PdfDocument {
  import opened Text
  import opened PdfWriter
  import opened PdfReader
  import opened PdfRoundTrip
  import opened PdfShortStream
  import opened Wrappers

  function References(ids: seq<nat>): (r: seq<string>)
    ensures |r| == |ids| && forall k :: 0 <= k < |ids| ==> r[k] == Reference(ids[k])
  {
    if ids == [] then [] else [Reference(ids[0])] + References(ids[1..])
  }

  function PageIds(n: nat): (r: seq<nat>) { seq(n, i requires 0 <= i => PageId(i)) }

  lemma JoinReferences(ids: seq<nat>, t: Bytes)
    requires ids != []
    ensures var rest := if |ids| == 1 then t else " " + (Join(" ", References(ids[1..])) + t);
            Join(" ", References(ids)) + t == Dec(ids[0]) + (" 0 R" + rest)
  {
    hide Dec, Join, References;
    JoinCons(References(ids));
    ReferencesCons(ids);
    JoinedTail(Dec(ids[0]), " 0 R", Join(" ", References(ids[1..])), t, |ids| == 1);
  }

  lemma JoinedTail(a: string, b: string, c: string, d: string, alone: bool)
    ensures (a + b + if alone then "" else " " + c) + d == a + (b + if alone then d else " " + (c + d))
  {
  }

  lemma Reassociate(a: string, b: string, c: string)
    ensures a + b + c == a + (b + c)
  {
  }

  lemma ReferencesCons(ids: seq<nat>)
    requires ids != []
    ensures References(ids)[0] == Dec(ids[0]) + " 0 R" && References(ids)[1..] == References(ids[1..])
  {
    hide Dec;
  }

  lemma JoinCons(parts: seq<string>)
    requires parts != []
    ensures Join(" ", parts) == parts[0] + if |parts| == 1 then "" else " " + Join(" ", parts[1..])
  {
  }

  lemma ReadReferencesStep(id: nat, rest: Bytes, more: Bytes)
    ensures rest != "" && rest[0] == ']' ==> ReadReferences(Dec(id) + (" 0 R" + rest)) == Some(([id], rest[1..]))
    ensures rest == " " + more && ReadReferences(more).Some? ==>
              ReadReferences(Dec(id) + (" 0 R" + rest)) == Some(([id] + ReadReferences(more).value.0, ReadReferences(more).value.1))
  {
    hide Dec, ReadNat, Strip;
    ReadDec(id, " 0 R" + rest);
    StripLiteral(" 0 R", rest);
    StripLiteral(" ", more);
  }

  lemma {:induction false} ReadReferencesExact(ids: seq<nat>, t: Bytes)
    requires ids != [] && t != "" && t[0] == ']'
    ensures ReadReferences(Join(" ", References(ids)) + t) == Some((ids, t[1..]))
  {
    hide Dec, Join, References, ReadReferences;
    JoinReferences(ids, t);
    var more := Join(" ", References(ids[1..])) + t;
    ReadReferencesStep(ids[0], if |ids| == 1 then t else " " + more, more);
    assert ids == [ids[0]] + ids[1..];
    if |ids| == 1 {
      assert ids == [ids[0]];
    } else {
      ReadReferencesExact(ids[1..], t);
    }
  }

  lemma ReadKidsExact(n: nat, r: Bytes)
    ensures ReadKids(Join(" ", PageReferences(n)) + "]" + r) == Some((PageIds(n), r))
  {
    hide ReadReferences, Dec;
    assert References(PageIds(n)) == PageReferences(n);
    var b := Join(" ", PageReferences(n)) + "]" + r;
    if n == 0 {
      assert b == "]" + r;
      assert b[1..] == r;
      assert PageIds(n) == [];
    } else {
      Reassociate(Join(" ", PageReferences(n)), "]", r);
      ReadReferencesExact(PageIds(n), "]" + r);
      JoinFirst(PageReferences(n));
      assert b[0] == Dec(PageId(0))[0];
      assert IsDigit(b[0]);
    }
  }

  lemma JoinFirst(parts: seq<string>)
    requires parts != [] && parts[0] != ""
    ensures Join(" ", parts) != "" && Join(" ", parts)[0] == parts[0][0]
  {
  }

  lemma MediaBox()
    ensures Dec(PAGE_WIDTH) == "612" && Dec(PAGE_HEIGHT) == "792"
  {
    assert Dec(6) == "6" && Dec(61) == "61" && Dec(7) == "7" && Dec(79) == "79";
  }

  lemma PageBodyParts(i: nat)
    ensures PageBody(i) == PAGE_FRONT + (PAGE_RESOURCES + (Dec(3) + (PAGE_CONTENTS + (Dec(ContentId(i)) + REFERENCE_END))))
  {
    hide Dec, PAGE_WIDTH, PAGE_HEIGHT, PAGE_FRONT, PAGE_RESOURCES, PAGE_CONTENTS;
    MediaBox();
    FrontParts();
    FontReference();
    Regroup("<< /Type /Page /Parent 2 0 R " + "/MediaBox [0 0 " + Dec(PAGE_WIDTH) + " " + Dec(PAGE_HEIGHT) + "] ",
            "/Resources << /Font << /F1 3 0 R >> >> ", "/Contents ", Dec(ContentId(i)), REFERENCE_END);
    Reassociate(PAGE_RESOURCES, Dec(3) + PAGE_CONTENTS, Dec(ContentId(i)) + REFERENCE_END);
    Reassociate(Dec(3), PAGE_CONTENTS, Dec(ContentId(i)) + REFERENCE_END);
  }

  lemma Regroup(a: string, b: string, c: string, d: string, e: string)
    ensures a + b + c + d + e == a + ((b + c) + (d + e))
  {
  }

  lemma FrontParts()
    ensures "<< /Type /Page /Parent 2 0 R " + "/MediaBox [0 0 " + "612" + " " + "792" + "] " == PAGE_FRONT
  {
  }

  lemma FontReference()
    ensures "/Resources << /Font << /F1 3 0 R >> >> " + "/Contents " == PAGE_RESOURCES + (Dec(3) + PAGE_CONTENTS)
  {
    assert Dec(3) == "3";
  }

  /** What a reader takes object `k + 1` to be, if it can read it at all. */
  function FoundAt(pages: seq<Page>, k: nat): Parsed
    requires k < 3 + 2 * |pages|
  {
    if !IsContent(k) then Parsed(ObjectAt(pages, k).body, None)
    else
      var page := pages[(k - 4) / 2];
      Parsed(ContentDict(StreamText(page)), Some(Taken(page)))
  }

  function Found(pages: seq<Page>): seq<Parsed> {
    seq(3 + 2 * |pages|, k requires 0 <= k < 3 + 2 * |pages| => FoundAt(pages, k))
  }

  lemma FoundObject(pages: seq<Page>, k: nat, r: Bytes)
    requires k < 3 + 2 * |pages|
    ensures
      var read := ReadObject(ObjectBytes(ObjectAt(pages, k)) + r, k + 1);
      read.Some? ==> read.value == FoundAt(pages, k)
  {
    hide ReadObject, ObjectBytes, CATALOG, FONT, PagesBody, PageBody, ContentBody, ContentDict, Encode, StreamText, AsciiPage, Plain;
    if IsContent(k) {
      ReadContentObject(k + 1, StreamText(pages[(k - 4) / 2]), r);
    } else {
      ReadObjectAt(pages, k, r);
    }
  }

  lemma {:induction false} FoundObjects(pages: seq<Page>, tail: Bytes, k: nat)
    requires k <= 3 + 2 * |pages|
    ensures
      var file := HEADER + BodyBytes(Objects(pages)) + tail;
      var read := ReadObjects(file, Offsets(Objects(pages))[k..], k + 1);
      read.Some? ==> read.value == Found(pages)[k..]
    decreases 3 + 2 * |pages| - k
  {
    hide HEADER, BodyBytes, ObjectBytes, ObjectAt, FoundAt, ReadObject, Offset;
    var objects, file := Objects(pages), HEADER + BodyBytes(Objects(pages)) + tail;
    var offsets, found := Offsets(objects)[k..], Found(pages)[k..];
    if k < |objects| {
      OffsetPoints(objects, k, tail);
      FoundObject(pages, k, BodyBytes(objects[k + 1..]) + tail);
      assert offsets[0] == Offset(objects, k) && offsets[1..] == Offsets(objects)[k + 1..];
      assert found == [FoundAt(pages, k)] + Found(pages)[k + 1..];
      FoundObjects(pages, tail, k + 1);
    } else {
      assert offsets == [] && found == [];
    }
  }

  /** Whatever the reader makes of the file, it finds these objects. */
  lemma FoundFile(pages: seq<Page>)
    ensures ReadFile(PdfBytes(pages)).Some? ==> ReadFile(PdfBytes(pages)).value == Found(pages)
  {
    hide HEADER, BodyBytes, XrefBytes, TrailerBytes, Offset, ReadFile, ReadObjects, FoundAt, ObjectAt;
    ReadFileSteps(pages);
    var objects := Objects(pages);
    var tail := XrefBytes(|objects| + 1, Offsets(objects))
      + TrailerBytes(|objects| + 1, |HEADER| + |BodyBytes(objects)|);
    assert PdfBytes(pages) == HEADER + BodyBytes(objects) + tail;
    FoundObjects(pages, tail, 0);
    assert Offsets(objects)[0..] == Offsets(objects) && Found(pages)[0..] == Found(pages);
  }

  lemma PageObjects(pages: seq<Page>, i: nat)
    requires i < |pages|
    ensures Lookup(Found(pages), PageId(i)) == Some(Parsed(PageBody(i), None))
    ensures Lookup(Found(pages), 3) == Some(Parsed(FONT, None))
    ensures Lookup(Found(pages), ContentId(i)) == Some(Parsed(ContentDict(StreamText(pages[i])), Some(Taken(pages[i]))))
  {
    hide PageBody, ContentDict, StreamText, Taken, CATALOG, FONT, PagesBody, ContentBody;
  }

  lemma ReadPageExact(pages: seq<Page>, i: nat)
    requires i < |pages|
    ensures ReadPage(Found(pages), PageId(i)) == ReadContent(Taken(pages[i]))
  {
    hide Dec, ReadNat, Strip, PageBody, ContentDict, Taken, StreamText, ReadContent, Lookup, Found, PAGE_FRONT, PAGE_RESOURCES,
      PAGE_CONTENTS, FONT, HELVETICA;
    PageObjects(pages, i);
    PageBodyParts(i);
    FontIsHelvetica();
    var r2 := Dec(ContentId(i)) + REFERENCE_END;
    var r1 := Dec(3) + (PAGE_CONTENTS + r2);
    StripLiteral(PAGE_FRONT, PAGE_RESOURCES + r1);
    StripLiteral(PAGE_RESOURCES, r1);
    ContentsFirst(r2);
    ReadDec(3, PAGE_CONTENTS + r2);
    StripLiteral(PAGE_CONTENTS, r2);
    ReadDec(ContentId(i), REFERENCE_END);
  }

  lemma ContentsFirst(r: Bytes)
    ensures NoDigitFirst(PAGE_CONTENTS + r)
  {
    assert (PAGE_CONTENTS + r)[0] == ' ';
  }

  lemma FontIsHelvetica()
    ensures FONT == HELVETICA
  {
  }

  /** The pages as far as their streams are taken, or nothing. */
  function ReadTaken(pages: seq<Page>): (r: Option<seq<seq<Drawn>>>)
    ensures r.Some? ==> |r.value| == |pages|
    ensures r.Some? <==> forall i :: 0 <= i < |pages| ==> ReadContent(Taken(pages[i])).Some?
    ensures r.Some? ==> forall i :: 0 <= i < |pages| ==> r.value[i] == ReadContent(Taken(pages[i])).value
  {
    if pages == [] then Some([])
    else
      assert forall i :: 0 <= i < |pages[1..]| ==> pages[1..][i] == pages[i + 1];
      assert pages == [pages[0]] + pages[1..];
      var page :- ReadContent(Taken(pages[0]));
      var rest :- ReadTaken(pages[1..]);
      Some([page] + rest)
  }

  lemma {:induction false} ReadPagesExact(pages: seq<Page>, k: nat)
    requires k <= |pages|
    ensures ReadPages(Found(pages), PageIds(|pages|)[k..]) == ReadTaken(pages[k..])
    decreases |pages| - k
  {
    hide ReadPage, ReadContent, Taken, Found;
    var ids := PageIds(|pages|)[k..];
    if k < |pages| {
      ReadPageExact(pages, k);
      ReadPagesExact(pages, k + 1);
      assert ids[0] == PageId(k) && ids[1..] == PageIds(|pages|)[k + 1..];
      assert pages[k..][0] == pages[k] && pages[k..][1..] == pages[k + 1..];
    } else {
      assert ids == [] && pages[k..] == [];
    }
  }

  lemma TreeObjects(pages: seq<Page>)
    ensures Lookup(Found(pages), 1) == Some(Parsed(CATALOG, None))
    ensures Lookup(Found(pages), 2) == Some(Parsed(PagesBody(|pages|), None))
  {
    hide PageBody, ContentDict, StreamText, Taken, CATALOG, FONT, PagesBody, ContentBody;
  }

  lemma PagesBodyParts(n: nat)
    ensures PagesBody(n) == TREE_FRONT + (Join(" ", PageReferences(n)) + "]" + (COUNT + (Dec(n) + " >>")))
  {
    hide Dec, Join, PageReferences;
    assert "] /Count " == "]" + COUNT;
  }

  lemma ReadTreeExact(pages: seq<Page>)
    ensures ReadTree(Found(pages)) == ReadTaken(pages)
  {
    hide Dec, ReadNat, Strip, ReadKids, ReadPages, Lookup, Found, ReadTaken, PagesBody, CATALOG, TREE_FRONT, CATALOG_FRONT,
      COUNT;
    var n := |pages|;
    TreeObjects(pages);
    CatalogParts();
    StripLiteral(CATALOG_FRONT, Dec(2) + REFERENCE_END);
    ReadDec(2, REFERENCE_END);
    PagesBodyParts(n);
    var r1 := COUNT + (Dec(n) + " >>");
    StripLiteral(TREE_FRONT, Join(" ", PageReferences(n)) + "]" + r1);
    ReadKidsExact(n, r1);
    StripLiteral(COUNT, Dec(n) + " >>");
    ReadDec(n, " >>");
    assert |PageIds(n)| == n;
    ReadPagesExact(pages, 0);
    assert PageIds(n)[0..] == PageIds(n) && pages[0..] == pages;
  }

  lemma CatalogParts()
    ensures CATALOG == CATALOG_FRONT + (Dec(2) + REFERENCE_END)
  {
    assert Dec(2) == "2";
  }

  // ------------------------------------------------------------- the round trip

  function DrawnPages(pages: seq<Page>): (r: seq<seq<Drawn>>) {
    seq(|pages|, i requires 0 <= i < |pages| => DrawnPage(pages[i]))
  }

  lemma WritableReads(pages: seq<Page>)
    requires forall i :: 0 <= i < |pages| ==> AsciiPage(pages[i])
    ensures ReadTaken(pages) == Some(DrawnPages(pages))
  {
    hide AsciiPage, ReadContent, Taken, DrawnPage, StreamText;
    forall i | 0 <= i < |pages| ensures ReadContent(Taken(pages[i])) == Some(DrawnPage(pages[i])) {
      TakenAscii(pages[i]);
      ReadContentExact(pages[i]);
    }
    assert ReadTaken(pages).value == DrawnPages(pages);
  }

  /** A document the reader can follow always decodes, to the texts as the
      standard reads them. */
  lemma WritableDecodes(pages: seq<Page>)
    requires Writable(pages)
    ensures ReadDocument(PdfBytes(pages)) == Some(DrawnPages(pages))
  {
    FileRoundTrip(pages);
    FoundFile(pages);
    ReadTreeExact(pages);
    WritableReads(pages);
    hide PdfBytes, ReadFile, ReadTree, Fits, Found, ReadTaken, DrawnPages, AsciiPage, ParsedObjects;
  }

  /** The pages drawn are the pages given. */
  ghost predicate SamePages(drawn: seq<seq<Drawn>>, pages: seq<Page>) {
    |drawn| == |pages| && forall i :: 0 <= i < |pages| ==> SamePage(drawn[i], pages[i])
  }

  ghost predicate NoCarriageReturn(pages: seq<Page>) {
    forall i, k :: 0 <= i < |pages| && 0 <= k < |pages[i]| ==> '\r' !in pages[i][k].text
  }

  ghost predicate PlainPage(page: Page) { forall k :: 0 <= k < |page| ==> PlainText(page[k].text) }

  lemma PlainPages(pages: seq<Page>)
    ensures (forall i :: 0 <= i < |pages| ==> PlainPage(pages[i]))
        <==> (forall i :: 0 <= i < |pages| ==> AsciiPage(pages[i])) && NoCarriageReturn(pages)
  {
    hide Ascii;
    if forall i :: 0 <= i < |pages| ==> PlainPage(pages[i]) {
      forall i, k | 0 <= i < |pages| && 0 <= k < |pages[i]| ensures PlainText(pages[i][k].text) {
        assert PlainPage(pages[i]);
      }
    }
    if (forall i :: 0 <= i < |pages| ==> AsciiPage(pages[i])) && NoCarriageReturn(pages) {
      forall i, k | 0 <= i < |pages| && 0 <= k < |pages[i]| ensures PlainText(pages[i][k].text) {
        assert AsciiPage(pages[i]);
      }
    }
  }

  lemma TakenPages(pages: seq<Page>)
    ensures ReadTaken(pages).Some? && SamePages(ReadTaken(pages).value, pages)
        <==> (forall i :: 0 <= i < |pages| ==> AsciiPage(pages[i])) && NoCarriageReturn(pages)
  {
    hide ReadContent, Taken, PlainText, SamePage, NoCarriageReturn, AsciiPage;
    PlainPages(pages);
    forall i | 0 <= i < |pages|
      ensures (ReadContent(Taken(pages[i])).Some? && SamePage(ReadContent(Taken(pages[i])).value, pages[i])) <==> PlainPage(pages[i])
    {
      TakenSurvives(pages[i]);
    }
  }

  /** Main result: a document decodes, from its catalog, to the very pages it was
      made from if and only if every text is ASCII, every offset has at most ten
      digits, and no text holds a carriage return, which the standard reads as a
      line feed. */
  lemma DocumentRoundTrip(pages: seq<Page>)
    ensures
      var read := ReadDocument(PdfBytes(pages));
      (read.Some? && SamePages(read.value, pages)) <==> Writable(pages) && NoCarriageReturn(pages)
  {
    FileRoundTrip(pages);
    FoundFile(pages);
    ReadTreeExact(pages);
    TakenPages(pages);
    FileReadable(pages);
    hide PdfBytes, ReadFile, ReadTree, Fits, Found, ReadTaken, ParsedObjects, AsciiPage, SamePages, NoCarriageReturn;
  }

  lemma FileReadable(pages: seq<Page>)
    ensures ReadFile(PdfBytes(pages)).Some? ==> Fits(Offsets(Objects(pages)))
  {
    hide PdfBytes, ReadFile, Fits, Offsets, Objects, ReadObjects;
    ReadFileSteps(pages);
  }
}
