/** A reader of classic-table PDF files (ISO 32000-1:2008). The file structure is
    read as the standard lays it down: from the end of the file, through
    `startxref` to the cross-reference table, and from each table entry to its
    object; strings and streams likewise. Dictionaries are read in the one layout
    that the writer uses, entry by entry, and not as general dictionaries. */
module PdfReader {
  import opened Text
  import opened Wrappers

  /** What sits at an offset: the first line of the object, and the stream data
      when a stream follows. */
  datatype Parsed = Parsed(dict: Bytes, stream: Option<Bytes>)

  /** Length of the longest run of digits at the end. */
  function TrailingDigits(b: Bytes): (k: nat)
    ensures k <= |b| && AllDigits(b[|b| - k..])
  {
    if b == "" || !IsDigit(b[|b| - 1]) then 0
    else
      var k := TrailingDigits(b[..|b| - 1]);
      assert b[|b| - (k + 1)..] == b[..|b| - 1][|b| - 1 - k..] + [b[|b| - 1]];
      k + 1
  }

  const END_OF_FILE: Bytes := "\n%%EOF\n"
  const STARTXREF: Bytes := "startxref\n"

  /** The offset on the line before `%%EOF` (section 7.5.5). */
  function StartXref(file: Bytes): Option<nat> {
    if !EndsWith(file, END_OF_FILE) then None
    else
      var body := file[..|file| - |END_OF_FILE|];
      var k := TrailingDigits(body);
      if k == 0 || !EndsWith(body[..|body| - k], STARTXREF) then None
      else Some(Value(body[|body| - k..]))
  }

  /** `n` in-use entries of twenty bytes each (section 7.5.4). */
  function ReadEntries(n: nat, b: Bytes): Option<(seq<nat>, Bytes)> {
    if n == 0 then Some(([], b))
    else if |b| < 20 || DigitRun(b[..10]) != 10 || b[10..20] != " 00000 n \n" then None
    else
      var rest :- ReadEntries(n - 1, b[20..]);
      Some(([Value(b[..10])] + rest.0, rest.1))
  }

  /** The value of a dictionary that holds nothing but `/Length`. */
  function ReadLength(dict: Bytes): Option<nat> {
    var r :- Strip("<< /Length ", dict);
    var n :- ReadNat(r);
    if n.1 == " >>" then Some(n.0) else None
  }

  /** The end of a stream object: `/Length` bytes, then the end markers
      (section 7.3.8). */
  function ReadStream(dict: Bytes, r: Bytes): Option<Parsed> {
    var length :- ReadLength(dict);
    if length > |r| then None
    else
      var _ :- Strip("\nendstream\nendobj\n", r[length..]);
      Some(Parsed(dict, Some(r[..length])))
  }

  /** Object `number` at the front of `b`. */
  function ReadObject(b: Bytes, number: nat): Option<Parsed> {
    var n :- ReadNat(b);
    if n.0 != number then None
    else
      var r :- Strip(" 0 obj\n", n.1);
      var line :- ReadLine(r);
      if Strip("stream\n", line.1).Some? then ReadStream(line.0, Strip("stream\n", line.1).value)
      else
        var _ :- Strip("endobj\n", line.1);
        Some(Parsed(line.0, None))
  }

  /** The objects numbered `number`, `number + 1`, … at the given offsets. */
  function ReadObjects(file: Bytes, offsets: seq<nat>, number: nat): Option<seq<Parsed>> {
    if offsets == [] then Some([])
    else if offsets[0] > |file| then None
    else
      var o :- ReadObject(file[offsets[0]..], number);
      var rest :- ReadObjects(file, offsets[1..], number + 1);
      Some([o] + rest)
  }

  /** The table at the front of `b`: the offsets of objects 1 and up; the trailer
      that follows must name the same size and the root object 1. */
  function ReadTable(b: Bytes): Option<seq<nat>> {
    var r0 :- Strip("xref\n0 ", b);
    var total :- ReadNat(r0);
    var r1 :- Strip("\n0000000000 65535 f \n", total.1);
    if total.0 == 0 then None
    else
      var entries :- ReadEntries(total.0 - 1, r1);
      var r2 :- Strip("trailer\n<< /Size ", entries.1);
      var size :- ReadNat(r2);
      var _ :- Strip(" /Root 1 0 R >>\n", size.1);
      if size.0 == total.0 then Some(entries.0) else None
  }

  /** The first line names the version, `%PDF-1.n` (section 7.5.2). */
  predicate HasHeader(file: Bytes) {
    |file| >= 9 && file[..7] == "%PDF-1." && '0' <= file[7] <= '7' && file[8] == '\n'
  }

  /** All objects of a file, in number order. */
  function ReadFile(file: Bytes): Option<seq<Parsed>> {
    var pos :- StartXref(file);
    if pos > |file| || !HasHeader(file) then None
    else
      var offsets :- ReadTable(file[pos..]);
      ReadObjects(file, offsets, 1)
  }

  // ------------------------------------------------- literal strings (7.3.4.2)

  predicate IsOctal(c: char) { '0' <= c <= '7' }

  /** The value and length of the one to three octal digits at the front. */
  function ReadOctal(b: Bytes): (r: (nat, nat))
    requires b != "" && IsOctal(b[0])
    ensures 1 <= r.1 <= |b|
  {
    if |b| == 1 || !IsOctal(b[1]) then (b[0] as int - 48, 1)
    else if |b| == 2 || !IsOctal(b[2]) then ((b[0] as int - 48) * 8 + (b[1] as int - 48), 2)
    else ((b[0] as int - 48) * 64 + (b[1] as int - 48) * 8 + (b[2] as int - 48), 3)
  }

  function Unescaped(c: char): char {
    if c == 'n' then '\n' else if c == 'r' then '\r' else if c == 't' then '\t'
    else if c == 'b' then 8 as char else if c == 'f' then 12 as char else c
  }

  function Prepend(c: Bytes, r: Option<(Bytes, Bytes)>): Option<(Bytes, Bytes)> {
    match r
    case None => None
    case Some(p) => Some((c + p.0, p.1))
  }

  /** The string whose opening parenthesis has been read, and what follows its
      closing one; `depth` unescaped parentheses are open inside it. */
  function ReadLiteral(b: Bytes, depth: nat): (r: Option<(Bytes, Bytes)>)
    ensures r.Some? ==> |r.value.1| < |b|
  {
    if b == "" then None
    else if b[0] == ')' then
      if depth == 0 then Some(("", b[1..])) else Prepend(")", ReadLiteral(b[1..], depth - 1))
    else if b[0] == '(' then Prepend("(", ReadLiteral(b[1..], depth + 1))
    else if b[0] == '\r' then
      if |b| > 1 && b[1] == '\n' then Prepend("\n", ReadLiteral(b[2..], depth))
      else Prepend("\n", ReadLiteral(b[1..], depth))
    else if b[0] == '\\' then
      if |b| == 1 then None
      else if b[1] == '\r' then
        if |b| > 2 && b[2] == '\n' then ReadLiteral(b[3..], depth) else ReadLiteral(b[2..], depth)
      else if b[1] == '\n' then ReadLiteral(b[2..], depth)
      else if IsOctal(b[1]) then
        var octal := ReadOctal(b[1..]);
        Prepend([(octal.0 % 256) as char], ReadLiteral(b[1 + octal.1..], depth))
      else Prepend([Unescaped(b[1])], ReadLiteral(b[2..], depth))
    else Prepend([b[0]], ReadLiteral(b[1..], depth))
  }

  // -------------------------------------------------------- following the document

  /** One line of text drawn by a content stream. */
  datatype Drawn = Drawn(x: int, y: int, size: int, text: Bytes)

  function ReadOp(b: Bytes): (r: Option<(Drawn, Bytes)>)
    ensures r.Some? ==> |r.value.1| < |b|
  {
    var r0 :- Strip("BT /F1 ", b);
    var size :- ReadInt(r0);
    var r1 :- Strip(" Tf ", size.1);
    var x :- ReadInt(r1);
    var r2 :- Strip(" ", x.1);
    var y :- ReadInt(r2);
    var r3 :- Strip(" Td (", y.1);
    var text :- ReadLiteral(r3, 0);
    var r4 :- Strip(" Tj ET", text.1);
    Some((Drawn(x.0, y.0, size.0, text.0), r4))
  }

  /** A content stream: drawing operations separated by newlines. */
  function ReadOps(b: Bytes): Option<seq<Drawn>>
    decreases |b|
  {
    var op :- ReadOp(b);
    if op.1 == "" then Some([op.0])
    else if op.1[0] != '\n' then None
    else
      var rest :- ReadOps(op.1[1..]);
      Some([op.0] + rest)
  }

  function ReadContent(b: Bytes): Option<seq<Drawn>> { if b == "" then Some([]) else ReadOps(b) }

  /** References `n 0 R` separated by spaces, up to the closing bracket. */
  function ReadReferences(b: Bytes): Option<(seq<nat>, Bytes)> {
    var id :- ReadNat(b);
    var r :- Strip(" 0 R", id.1);
    if r != "" && r[0] == ']' then Some(([id.0], r[1..]))
    else
      var r1 :- Strip(" ", r);
      var rest :- ReadReferences(r1);
      Some(([id.0] + rest.0, rest.1))
  }

  function ReadKids(b: Bytes): Option<(seq<nat>, Bytes)> {
    if b != "" && b[0] == ']' then Some(([], b[1..])) else ReadReferences(b)
  }

  function Lookup(objects: seq<Parsed>, number: nat): Option<Parsed> {
    if 1 <= number <= |objects| then Some(objects[number - 1]) else None
  }

  const PAGE_FRONT: Bytes := "<< /Type /Page /Parent 2 0 R /MediaBox [0 0 612 792] "
  const PAGE_RESOURCES: Bytes := "/Resources << /Font << /F1 "
  const PAGE_CONTENTS: Bytes := " 0 R >> >> /Contents "
  const HELVETICA: Bytes := "<< /Type /Font /Subtype /Type1 /BaseFont /Helvetica >>"
  const CATALOG_FRONT: Bytes := "<< /Type /Catalog /Pages "
  const TREE_FRONT: Bytes := "<< /Type /Pages /Kids ["
  const REFERENCE_END: Bytes := " 0 R >>"
  const COUNT: Bytes := " /Count "

  /** The page with object number `id`: its content stream, decoded. The font that
      the stream calls `/F1` must be there, as a standard Type 1 font (section
      9.6.2.2). */
  function ReadPage(objects: seq<Parsed>, id: nat): Option<seq<Drawn>> {
    var page :- Lookup(objects, id);
    var r0 :- Strip(PAGE_FRONT, page.dict);
    var r1 :- Strip(PAGE_RESOURCES, r0);
    var font :- ReadNat(r1);
    var r :- Strip(PAGE_CONTENTS, font.1);
    var contents :- ReadNat(r);
    var fontObject :- Lookup(objects, font.0);
    if contents.1 != REFERENCE_END || fontObject != Parsed(HELVETICA, None) then None
    else
      var content :- Lookup(objects, contents.0);
      var data :- content.stream;
      ReadContent(data)
  }

  function ReadPages(objects: seq<Parsed>, ids: seq<nat>): Option<seq<seq<Drawn>>> {
    if ids == [] then Some([])
    else
      var page :- ReadPage(objects, ids[0]);
      var rest :- ReadPages(objects, ids[1..]);
      Some([page] + rest)
  }

  /** The page tree named by the catalog, read into pages. */
  function ReadTree(objects: seq<Parsed>): Option<seq<seq<Drawn>>> {
    var root :- Lookup(objects, 1);
    var r0 :- Strip(CATALOG_FRONT, root.dict);
    var tree :- ReadNat(r0);
    var node :- Lookup(objects, tree.0);
    var r1 :- Strip(TREE_FRONT, node.dict);
    var kids :- ReadKids(r1);
    var r2 :- Strip(COUNT, kids.1);
    var count :- ReadNat(r2);
    if tree.1 == REFERENCE_END && count.1 == " >>" && count.0 == |kids.0|
    then ReadPages(objects, kids.0) else None
  }

  /** A whole document: the lines drawn on each page, in page order. */
  function ReadDocument(file: Bytes): Option<seq<seq<Drawn>>> {
    var objects :- ReadFile(file);
    ReadTree(objects)
  }
}
