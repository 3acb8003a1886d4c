/** The minimal PDF writer of `tools/gen-pdf-acceptance-fixtures.py`. */
module PdfWriter {
  import opened Text

  /** One text line of a page: position, font size, text. */
  datatype Line = Line(x: int, y: int, size: int, text: string)

  type Page = seq<Line>

  /** An indirect object: its number and the text between `obj` and `endobj`. */
  datatype PdfObject = PdfObject(number: nat, body: string)

  const PAGE_WIDTH: nat := 612
  const PAGE_HEIGHT: nat := 792
  const HEADER: Bytes := "%PDF-1.4\n"

  // ------------------------------------------------------------ the pieces

  function Escape(text: string): string {
    Replace(Replace(Replace(text, '\\', "\\\\"), '(', "\\("), ')', "\\)")
  }

  function Op(line: Line): string {
    "BT /F1 " + DecInt(line.size) + " Tf " + DecInt(line.x) + " " + DecInt(line.y)
    + " Td (" + Escape(line.text) + ") Tj ET"
  }

  function Ops(page: Page): (r: seq<string>)
    ensures |r| == |page|
  {
    if page == [] then [] else [Op(page[0])] + Ops(page[1..])
  }

  function StreamText(page: Page): string { Join("\n", Ops(page)) }

  function PageId(i: nat): nat { 4 + 2 * i }

  function ContentId(i: nat): nat { 5 + 2 * i }

  function Reference(id: nat): string { Dec(id) + " 0 R" }

  function PageReferences(n: nat): (r: seq<string>) { seq(n, i requires 0 <= i => Reference(PageId(i))) }

  const CATALOG: string := "<< /Type /Catalog /Pages 2 0 R >>"
  const FONT: string := "<< /Type /Font /Subtype /Type1 " + "/BaseFont /Helvetica >>"

  function PagesBody(n: nat): string {
    "<< /Type /Pages /Kids [" + Join(" ", PageReferences(n)) + "] /Count " + Dec(n) + " >>"
  }

  function PageBody(i: nat): string {
    "<< /Type /Page /Parent 2 0 R " + "/MediaBox [0 0 " + Dec(PAGE_WIDTH) + " " + Dec(PAGE_HEIGHT) + "] "
    + "/Resources << /Font << /F1 3 0 R >> >> " + "/Contents " + Dec(ContentId(i)) + " 0 R >>"
  }

  function ContentDict(stream: string): string { "<< /Length " + Dec(|stream|) + " >>" }

  function ContentBody(stream: string): string {
    ContentDict(stream) + "\nstream\n" + stream + "\nendstream"
  }

  /** Object number `k + 1`: catalog, page tree, font, then per page a page
      object and a content stream. */
  function ObjectAt(pages: seq<Page>, k: nat): PdfObject
    requires k < 3 + 2 * |pages|
  {
    PdfObject(k + 1,
      if k == 0 then CATALOG
      else if k == 1 then PagesBody(|pages|)
      else if k == 2 then FONT
      else if k % 2 == 1 then PageBody((k - 3) / 2)
      else ContentBody(StreamText(pages[(k - 4) / 2])))
  }

  function Objects(pages: seq<Page>): (r: seq<PdfObject>) {
    seq(3 + 2 * |pages|, k requires 0 <= k < 3 + 2 * |pages| => ObjectAt(pages, k))
  }

  // ----------------------------------------------------------- the file layout

  function ObjectBytes(o: PdfObject): Bytes {
    Encode(Dec(o.number) + " 0 obj\n" + o.body + "\nendobj\n")
  }

  function BodyBytes(objects: seq<PdfObject>): Bytes {
    if objects == [] then "" else ObjectBytes(objects[0]) + BodyBytes(objects[1..])
  }

  /** Where object `k + 1` starts. */
  function Offset(objects: seq<PdfObject>, k: nat): nat
    requires k <= |objects|
  {
    |HEADER| + |BodyBytes(objects[..k])|
  }

  function Offsets(objects: seq<PdfObject>): (r: seq<nat>) {
    seq(|objects|, k requires 0 <= k < |objects| => Offset(objects, k))
  }

  function EntryBytes(offset: nat): Bytes { Padded(offset, 10) + " 00000 n \n" }

  function EntriesBytes(offsets: seq<nat>): Bytes {
    if offsets == [] then "" else EntryBytes(offsets[0]) + EntriesBytes(offsets[1..])
  }

  const FREE_ENTRY: Bytes := "0000000000 65535 f \n"

  function XrefBytes(total: nat, offsets: seq<nat>): Bytes {
    "xref\n0 " + Dec(total) + "\n" + FREE_ENTRY + EntriesBytes(offsets)
  }

  function TrailerBytes(total: nat, xrefPos: nat): Bytes {
    "trailer\n<< /Size " + Dec(total) + " /Root 1 0 R >>\nstartxref\n" + Dec(xrefPos) + "\n%%EOF\n"
  }

  /** The whole file for a list of objects. */
  function FileBytes(objects: seq<PdfObject>): Bytes {
    HEADER + BodyBytes(objects) + XrefBytes(|objects| + 1, Offsets(objects))
    + TrailerBytes(|objects| + 1, |HEADER| + |BodyBytes(objects)|)
  }

  function PdfBytes(pages: seq<Page>): Bytes { FileBytes(Objects(pages)) }

  lemma {:induction false} BodySnoc(a: seq<PdfObject>, o: PdfObject)
    ensures BodyBytes(a + [o]) == BodyBytes(a) + ObjectBytes(o)
  {
    if a == [] {
      assert a + [o] == [o];
      assert [o][1..] == [];
    } else {
      assert (a + [o])[1..] == a[1..] + [o];
      BodySnoc(a[1..], o);
    }
  }

  lemma {:induction false} EntriesSnoc(a: seq<nat>, k: nat)
    ensures EntriesBytes(a + [k]) == EntriesBytes(a) + EntryBytes(k)
  {
    if a == [] {
      assert a + [k] == [k];
      assert [k][1..] == [];
    } else {
      assert (a + [k])[1..] == a[1..] + [k];
      EntriesSnoc(a[1..], k);
    }
  }

  lemma {:induction false} OpsSnoc(page: Page, k: nat)
    requires k < |page|
    ensures Ops(page[..k + 1]) == Ops(page[..k]) + [Op(page[k])]
  {
    if k == 0 {
      assert page[..1][1..] == [];
    } else {
      assert page[..k + 1][1..] == page[1..][..k] && page[..k][1..] == page[1..][..k - 1];
      OpsSnoc(page[1..], k - 1);
    }
  }

  // ----------------------------------------------------------------- the writer

  method ContentStream(page: Page) returns (stream: string)
    ensures stream == StreamText(page)
  {
    var ops: seq<string> := [];
    for k := 0 to |page|
      invariant ops == Ops(page[..k])
    {
      OpsSnoc(page, k);
      ops := ops + [Op(page[k])];
    }
    assert page[..|page|] == page;
    stream := Join("\n", ops);
  }

  /** `max(offsets)`. */
  method LargestKey(m: map<nat, nat>) returns (k: nat)
    requires m.Keys != {}
    ensures k in m.Keys && forall j :: j in m.Keys ==> j <= k
  {
    k :| k in m.Keys;
    var rest := m.Keys - {k};
    while rest != {}
      invariant k in m.Keys && rest <= m.Keys
      invariant forall j :: j in m.Keys && j !in rest ==> j <= k
      decreases |rest|
    {
      var j :| j in rest;
      rest := rest - {j};
      if j > k { k := j; }
    }
  }

  method BuildObjects(pages: seq<Page>) returns (objects: seq<PdfObject>)
    ensures objects == Objects(pages)
  {
    hide CATALOG, FONT, PagesBody, PageBody, ContentBody, StreamText;
    objects := [PdfObject(1, CATALOG)];
    objects := objects + [PdfObject(2, PagesBody(|pages|))];
    objects := objects + [PdfObject(3, FONT)];
    for i := 0 to |pages|
      invariant |objects| == 3 + 2 * i
      invariant forall k :: 0 <= k < |objects| ==> objects[k] == ObjectAt(pages, k)
    {
      var stream := ContentStream(pages[i]);
      objects := objects + [PdfObject(PageId(i), PageBody(i))];
      objects := objects + [PdfObject(ContentId(i), ContentBody(stream))];
    }
  }

  /** Append every object to the buffer, recording where each starts. */
  method WriteObjects(objects: seq<PdfObject>) returns (buf: Bytes, offsets: map<nat, nat>)
    requires forall k :: 0 <= k < |objects| ==> objects[k].number == k + 1
    ensures buf == HEADER + BodyBytes(objects)
    ensures forall n :: n in offsets.Keys <==> 1 <= n <= |objects|
    ensures forall n :: 1 <= n <= |objects| ==> offsets[n] == Offset(objects, n - 1)
  {
    hide HEADER, Encode, Dec;
    buf := HEADER;
    offsets := map[];
    for i := 0 to |objects|
      invariant buf == HEADER + BodyBytes(objects[..i])
      invariant forall n :: n in offsets.Keys <==> 1 <= n <= i
      invariant forall n :: 1 <= n <= i ==> offsets[n] == Offset(objects, n - 1)
    {
      var number, body := objects[i].number, objects[i].body;
      offsets := offsets[number := |buf|];
      buf := buf + Encode(Dec(number) + " 0 obj\n" + body + "\nendobj\n");
      BodySnoc(objects[..i], objects[i]);
      assert objects[..i] + [objects[i]] == objects[..i + 1];
    }
    assert objects[..|objects|] == objects;
  }

  /** Append the cross-reference table for objects 1 to `total - 1`. */
  method WriteXref(start: Bytes, offsets: map<nat, nat>, total: nat, ghost table: seq<nat>) returns (buf: Bytes)
    requires total == |table| + 1
    requires forall n :: 1 <= n < total ==> n in offsets.Keys && offsets[n] == table[n - 1]
    ensures buf == start + XrefBytes(total, table)
  {
    hide Padded, Dec, Encode;
    EncodeAscii("xref\n0 " + Dec(total) + "\n");
    buf := start + Encode("xref\n0 " + Dec(total) + "\n");
    buf := buf + FREE_ENTRY;
    ghost var head := "xref\n0 " + Dec(total) + "\n" + FREE_ENTRY;
    assert buf == start + head;
    for number := 1 to total
      invariant buf == start + (head + EntriesBytes(table[..number - 1]))
    {
      EncodeAscii(Padded(offsets[number], 10) + " 00000 n \n");
      EntriesSnoc(table[..number - 1], table[number - 1]);
      assert table[..number - 1] + [table[number - 1]] == table[..number];
      buf := buf + Encode(Padded(offsets[number], 10) + " 00000 n \n");
    }
    assert table[..total - 1] == table;
  }

  lemma TrailerAscii(total: nat, xrefPos: nat)
    ensures Encode(TrailerBytes(total, xrefPos)) == TrailerBytes(total, xrefPos)
  {
    EncodeAscii(TrailerBytes(total, xrefPos));
  }

  lemma TableOffsets(objects: seq<PdfObject>)
    ensures |Offsets(objects)| == |objects| && forall k :: 0 <= k < |objects| ==> Offsets(objects)[k] == Offset(objects, k)
  {
  }

  lemma ObjectNumbers(pages: seq<Page>)
    ensures |Objects(pages)| >= 1 && forall k :: 0 <= k < |Objects(pages)| ==> Objects(pages)[k].number == k + 1
  {
  }

  /** Render pages of lines into a PDF: the objects, then the table and the
      trailer that point back into the buffer. */
  method RenderPdf(pages: seq<Page>) returns (buf: Bytes)
    ensures buf == PdfBytes(pages)
  {
    hide HEADER, BodyBytes, XrefBytes, TrailerBytes, Objects, Offset, Offsets, Encode;
    var objects := BuildObjects(pages);
    ObjectNumbers(pages);
    TableOffsets(objects);
    var offsets;
    buf, offsets := WriteObjects(objects);
    var xrefPos := |buf|;
    assert 1 in offsets.Keys;
    var largest := LargestKey(offsets);
    assert |objects| in offsets.Keys;
    var total := largest + 1;
    buf := WriteXref(buf, offsets, total, Offsets(objects));
    TrailerAscii(total, xrefPos);
    buf := buf + Encode(TrailerBytes(total, xrefPos));
  }
}
