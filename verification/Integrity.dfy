/** The integrity part of bundle verification (`verify/bundle.rs`, steps 5 to 8)
    against sealed bundles: it accepts them, and nothing else. */
module Integrity {
  import opened Ordering
  import opened Text
  import opened Manifest
  import opened Encoding
  import opened BundleSealing
  import opened SealingRuns
  import opened Wrappers

  // ------------------------------------------------------------------ the checks

  /** `is_safe_bundle_path` on a system without drive prefixes. */
  predicate SafePath(s: string) {
    (s != "" ==> s[0] != '/' && s[0] != '\\') && ".." !in Components(s)
  }

  /** The path a line lists, when the line has a digest and a safe path. */
  function ListedPath(line: string): Option<string> {
    if line == "" then None
    else
      match SplitEntry(line)
      case None => None
      case Some((digest, path)) => if DigestText(digest) && SafePath(path) then Some(path) else None
  }

  /** The text resolves to a file with that digest. */
  predicate LeadsTo(hash: Bytes -> string, files: Files, text: string, digest: string) {
    !DirectoryText(text) && Components(text) in files && hash(files[Components(text)]) == digest
  }

  /** No finding for a line: it is blank, or it lists a file with that digest. */
  predicate LineHolds(hash: Bytes -> string, files: Files, line: string) {
    line == "" || (ListedPath(line).Some? && LeadsTo(hash, files, ListedPath(line).value, SplitEntry(line).value.0))
  }

  predicate Lists(lines: seq<string>, path: string) { exists l :: l in lines && ListedPath(l) == Some(path) }

  predicate KnownMeta(path: string) { path == "index.json" || path == "SHA256SUMS" || path == "BUNDLE.sig" }

  /** The lines of a manifest file, as far as it is text. */
  ghost function SumsLines(sums: Bytes): seq<string> {
    match Decode(sums) case None => [] case Some(text) => Lines(text)
  }

  ghost predicate AllLinesHold(c: Primitives, sums: Bytes, files: Files) {
    forall l :: l in SumsLines(sums) ==> LineHolds(c.hash, files, l)
  }

  /** Every file found, by its path text with slashes, is listed or known. */
  ghost predicate AllFilesListed(sums: Bytes, files: Files) {
    forall p :: p in files ==> Lists(SumsLines(sums), PathText(p)) || KnownMeta(PathText(p))
  }

  /** Steps 5 to 7 push no finding: the manifest is text, every listed file has its digest, the index is
      not listed and names the manifest's and the recipe's hash, and no file is
      outside the list. */
  ghost predicate Passes(c: Primitives, files: Files) {
    && SUMS in files && RECIPE in files && IndexOf(c, files).Some? && Decode(files[SUMS]).Some?
    && AllLinesHold(c, files[SUMS], files)
    && !Lists(SumsLines(files[SUMS]), "index.json")
    && IndexOf(c, files).value.contentHash == c.hash(files[SUMS])
    && IndexOf(c, files).value.recipeHash == c.hash(files[RECIPE])
    && AllFilesListed(files[SUMS], files)
  }

  /** The whole verification pushes no finding. `rest` stands for the checks this
      model does not spell out: required files, index fields, trace outputs, the
      recipe's re-projection and the consistency checks. */
  ghost predicate Verifies(c: Primitives, rest: Files -> bool, files: Files) { Passes(c, files) && rest(files) }

  // ----------------------------------------------------------- names of files

  /** Any directory: its names are what the system allows. */
  ghost predicate OsTree(files: Files) { forall p :: p in files ==> OsPath(p) }

  /** No file name holds a backslash. */
  ghost predicate NoBackslash(files: Files) { forall p, n :: p in files && n in p ==> '\\' !in n }

  /** No file name holds a newline or a backslash. */
  ghost predicate TextTree(files: Files) { forall p :: p in files ==> TextPath(p) }

  /** Every file name survives the manifest. */
  ghost predicate PlainTree(files: Files) { forall p :: p in files ==> PlainPath(p) }

  /** A path text that the line reader recovers and the verifier accepts. */
  predicate ReadableText(s: string) { LineSafe(s) && SafePath(s) }

  ghost predicate ReadableTree(files: Files) {
    OsTree(files) && forall p :: p in files && IsContent(p) ==> ReadableText(PathText(p))
  }

  /** Same content files, with the same digests. */
  ghost predicate SameContent(c: Primitives, files: Files, files': Files) {
    && (forall p :: IsContent(p) ==> (p in files <==> p in files'))
    && (forall p :: IsContent(p) && p in files ==> c.hash(files[p]) == c.hash(files'[p]))
  }

  /** Every content file of `files` is in `files'`, with its digest. */
  ghost predicate KeepsContent(c: Primitives, files: Files, files': Files) {
    forall p :: p in files && IsContent(p) ==> p in files' && c.hash(files[p]) == c.hash(files'[p])
  }

  /** What the listed texts of `files` resolve to in `files'` has the digests of
      `files`. */
  ghost predicate TextsLead(c: Primitives, files: Files, files': Files) {
    forall p :: p in files && IsContent(p) ==> LeadsTo(c.hash, files', PathText(p), c.hash(files[p]))
  }

  /** Every content file of `files'` has the path text of one in `files`. */
  ghost predicate TextsKnown(files: Files, files': Files) {
    forall p :: p in files' && IsContent(p) ==> exists q :: q in files && IsContent(q) && PathText(p) == PathText(q)
  }

  // -------------------------------------------------------- the manifest's lines

  /** The three metadata texts belong to the three metadata files alone, whatever
      the other names hold: a backslash reads as a slash, and they have none. */
  lemma OnlyMetaIsMeta(p: Path)
    requires OsPath(p)
    ensures KnownMeta(PathText(p)) <==> !IsContent(p)
  {
    hide PathText, OsPath;
    MetaTexts();
    if KnownMeta(PathText(p)) {
      assert '/' !in PathText(p);
      FlatText(p);
      assert p == [PathText(p)];
    }
  }

  lemma MetaTexts()
    ensures PathText(SUMS) == "SHA256SUMS" && PathText(INDEX) == "index.json" && PathText(SIG) == "BUNDLE.sig"
  {
    hide PathText;
    MetaText("SHA256SUMS");
    MetaText("index.json");
    MetaText("BUNDLE.sig");
  }

  lemma MetaText(name: string)
    requires '\\' !in name
    ensures PathText([name]) == name
  {
    ReplaceNothing(name, '\\', "/");
  }

  lemma PlainIsReadable(p: Path)
    requires PlainPath(p)
    ensures ReadableText(PathText(p)) && !DirectoryText(PathText(p)) && Components(PathText(p)) == p
  {
    hide PathText;
    PlainPathText(p);
    NotDirectoryText(p);
    assert forall n :: n in p ==> Component(n);
  }

  lemma PlainTreeIsReadable(files: Files)
    requires PlainTree(files)
    ensures ReadableTree(files) && TextTree(files) && NoBackslash(files)
  {
    hide PathText, ReadableText;
    forall p | p in files ensures ReadableText(PathText(p)) && OsPath(p) && TextPath(p) {
      PlainIsReadable(p);
    }
  }

  lemma DigestLine(d: string, text: string)
    requires DigestText(d) && ReadableText(text)
    ensures
      var line := EntryLine(Entry(d, text));
      line != "" && LineSafe(line) && SplitEntry(line) == Some((d, text)) && ListedPath(line) == Some(text)
  {
    assert ' ' !in d && '\n' !in d;
    SplitEntryExact(d, text);
    var line := EntryLine(Entry(d, text));
    assert line == d + "  " + text;
    assert text != "" ==> line[|line| - 1] == text[|text| - 1];
  }

  /** The lines of a directory's manifest: blank, or the line of a content file. */
  ghost predicate HasLines(c: Primitives, files: Files, lines: seq<string>) {
    && (forall l :: l in lines && l != "" ==> exists p :: p in files && IsContent(p) && l == FileLine(c, files, p))
    && (forall p :: p in files && IsContent(p) ==> FileLine(c, files, p) in lines)
  }

  /** The verifier reads from a manifest exactly the content files, each with its
      digest. */
  lemma ContentLines(c: Primitives, files: Files)
    requires Lawful(c) && ReadableTree(files)
    ensures HasLines(c, files, SumsLines(SumsText(c.hash, files)))
  {
    hide InOrder, ContentEntries, PathText, StringsLeq, SumsLines, Lines, MapSeq, EntryLine, ReadableText, DigestText, Join, IsContent, SumsText;
    WrittenLines(c, files);
    var paths := InOrder(StringsLeq, ContentPaths(files));
    var ls := EntryLines(ContentEntries(c.hash, files));
    ContentListed(c, files);
    forall i | 0 <= i < |ls| ensures ls[i] == FileLine(c, files, paths[i]) && LineSafe(ls[i]) {
      assert paths[i] in paths;
      DigestLine(c.hash(files[paths[i]]), PathText(paths[i]));
    }
    LinesOfPaths(c, files, paths, ls);
    if ls != [] {
      LinesExact(ls);
    } else {
      BlankLine();
    }
  }

  lemma BlankLine()
    ensures Lines(Join("\n", []) + "\n") == [""]
  {
    assert Join("\n", []) + "\n" == "\n";
    assert "\n"[1..] == "";
  }

  lemma ContentListed(c: Primitives, files: Files)
    ensures
      var paths := InOrder(StringsLeq, ContentPaths(files));
      var entries := ContentEntries(c.hash, files);
      && |entries| == |paths|
      && (forall p :: p in paths <==> p in files && IsContent(p))
      && (forall i :: 0 <= i < |paths| ==> paths[i] in files && entries[i] == Entry(c.hash(files[paths[i]]), PathText(paths[i])))
  {
    hide PathText, StringsLeq;
    StringsOrder();
    InOrderFacts(StringsLeq, ContentPaths(files));
    var paths := InOrder(StringsLeq, ContentPaths(files));
    forall i | 0 <= i < |paths| ensures paths[i] in files {
      assert paths[i] in ContentPaths(files);
    }
  }

  lemma SplitLine(d: string, e: string, p: Path, q: Path)
    requires DigestText(d) && DigestText(e) && TextPath(p) && TextPath(q)
    ensures var line := EntryLine(Entry(d, PathText(p))); line != "" && '\n' !in line
    ensures EntryLine(Entry(d, PathText(p))) == EntryLine(Entry(e, PathText(q))) <==> d == e && p == q
  {
    hide PathText, TextPath;
    TextPathText(p);
    TextPathText(q);
    assert ' ' !in d && ' ' !in e && '\n' !in d;
    SplitEntryExact(d, PathText(p));
    SplitEntryExact(e, PathText(q));
  }

  /** The entry lines of a directory, one for each content file in path order. */
  ghost function Written(c: Primitives, files: Files): seq<string> { EntryLines(ContentEntries(c.hash, files)) }

  lemma WrittenLines(c: Primitives, files: Files)
    ensures
      var paths := InOrder(StringsLeq, ContentPaths(files));
      && |Written(c, files)| == |paths|
      && (forall p :: p in paths <==> p in files && IsContent(p))
      && (forall i :: 0 <= i < |paths| ==> paths[i] in files && Written(c, files)[i] == FileLine(c, files, paths[i]))
    ensures SumsText(c.hash, files) == Encode(LineText(Written(c, files)))
    ensures SumsLines(SumsText(c.hash, files)) == Lines(LineText(Written(c, files))) && Decode(SumsText(c.hash, files)).Some?
  {
    hide PathText, StringsLeq, InOrder, ContentEntries, EntryLine, Encode, Decode;
    DecodeEncode(LineText(Written(c, files)));
    ContentListed(c, files);
  }

  lemma WrittenIsText(c: Primitives, files: Files)
    requires Lawful(c) && TextTree(files)
    ensures forall l :: l in Written(c, files) ==> l != "" && '\n' !in l
  {
    hide PathText, StringsLeq, InOrder, Written, EntryLine, TextPath, DigestText;
    WrittenLines(c, files);
    var paths := InOrder(StringsLeq, ContentPaths(files));
    forall i | 0 <= i < |paths| ensures Written(c, files)[i] != "" && '\n' !in Written(c, files)[i] {
      SplitLine(c.hash(files[paths[i]]), c.hash(files[paths[i]]), paths[i], paths[i]);
    }
  }

  lemma SameLinesSameContent(c: Primitives, files: Files, files': Files, p: Path)
    requires Lawful(c) && TextTree(files) && TextTree(files') && Written(c, files) == Written(c, files')
    requires IsContent(p) && p in files
    ensures p in files' && c.hash(files[p]) == c.hash(files'[p])
  {
    hide PathText, StringsLeq, InOrder, Written, EntryLine, TextPath, DigestText, IsContent;
    WrittenLines(c, files);
    WrittenLines(c, files');
    var paths, paths' := InOrder(StringsLeq, ContentPaths(files)), InOrder(StringsLeq, ContentPaths(files'));
    assert p in paths;
    var i :| 0 <= i < |paths| && paths[i] == p;
    assert Written(c, files)[i] == Written(c, files')[i];
    SplitLine(c.hash(files[p]), c.hash(files'[paths'[i]]), p, paths'[i]);
  }

  lemma SameContentSameLines(c: Primitives, files: Files, files': Files)
    requires SameContent(c, files, files')
    ensures Written(c, files) == Written(c, files')
  {
    hide PathText, StringsLeq, InOrder, Written, EntryLine, IsContent;
    WrittenLines(c, files);
    WrittenLines(c, files');
    assert ContentPaths(files) == ContentPaths(files');
    var paths := InOrder(StringsLeq, ContentPaths(files));
    forall i | 0 <= i < |paths| ensures Written(c, files)[i] == Written(c, files')[i] {
      assert paths[i] in paths;
    }
  }

  /** Main result: for file names without newline or backslash, two directories
      have the same manifest text exactly when they have the same content paths
      with the same digests. */
  lemma ManifestDetermines(c: Primitives, files: Files, files': Files)
    requires Lawful(c) && TextTree(files) && TextTree(files')
    ensures SumsText(c.hash, files) == SumsText(c.hash, files') <==> SameContent(c, files, files')
  {
    hide SumsText, Written, IsContent, TextTree, Encode, LineText, SumsLines, Decode, Lines;
    WrittenLines(c, files);
    WrittenLines(c, files');
    WrittenIsText(c, files);
    WrittenIsText(c, files');
    LinesInjective(Written(c, files), Written(c, files'));
    EncodeInjective(LineText(Written(c, files)), LineText(Written(c, files')));
    if Written(c, files) == Written(c, files') {
      forall p | IsContent(p)
        ensures (p in files <==> p in files') && (p in files ==> c.hash(files[p]) == c.hash(files'[p]))
      {
        if p in files { SameLinesSameContent(c, files, files', p); }
        if p in files' { SameLinesSameContent(c, files', files, p); }
      }
    }
    if SameContent(c, files, files') {
      SameContentSameLines(c, files, files');
    }
  }

  lemma NotBlank(l: string)
    ensures ListedPath(l).Some? ==> l != ""
  {
  }

  /** The line of one file. */
  function FileLine(c: Primitives, files: Files, p: Path): string {
    EntryLine(Entry(if p in files then c.hash(files[p]) else "", PathText(p)))
  }

  lemma LinesOfPaths(c: Primitives, files: Files, paths: seq<Path>, ls: seq<string>)
    requires |paths| == |ls| && forall i :: 0 <= i < |ls| ==> ls[i] == FileLine(c, files, paths[i])
    requires forall p :: p in paths <==> p in files && IsContent(p)
    ensures forall l :: l in ls ==> exists p :: p in files && IsContent(p) && l == FileLine(c, files, p)
    ensures forall p :: p in files && IsContent(p) ==> FileLine(c, files, p) in ls
  {
    hide FileLine;
    forall p | p in files && IsContent(p) ensures FileLine(c, files, p) in ls {
      assert p in paths;
      var i :| 0 <= i < |paths| && paths[i] == p;
      assert ls[i] in ls;
    }
    forall l | l in ls ensures exists p :: p in files && IsContent(p) && l == FileLine(c, files, p) {
      var i :| 0 <= i < |ls| && ls[i] == l;
      assert paths[i] in paths;
    }
  }

  // --------------------------------------------------------------- tamper evidence

  lemma LineOfFile(c: Primitives, files: Files, files': Files, p: Path)
    requires Lawful(c) && p in files && ReadableText(PathText(p))
    ensures FileLine(c, files, p) != "" && ListedPath(FileLine(c, files, p)) == Some(PathText(p))
    ensures LineHolds(c.hash, files', FileLine(c, files, p)) <==> LeadsTo(c.hash, files', PathText(p), c.hash(files[p]))
  {
    hide PathText, EntryLine, DigestText, ListedPath, SplitEntry, ReadableText, LeadsTo;
    DigestLine(c.hash(files[p]), PathText(p));
  }

  /** The lines of a sealed manifest list exactly the path texts of its content. */
  lemma SealedLists(c: Primitives, files: Files, text: string)
    requires Lawful(c) && Sealed(c, files) && ReadableTree(files)
    ensures Lists(SumsLines(files[SUMS]), text) <==> exists q :: q in files && IsContent(q) && PathText(q) == text
  {
    hide PathText, FileLine, SumsLines, Lines, ListedPath, SumsText, LineHolds, ReadableText, LeadsTo, IsContent;
    ContentLines(c, files);
    var lines := SumsLines(files[SUMS]);
    if q :| q in files && IsContent(q) && PathText(q) == text {
      LineOfFile(c, files, files, q);
      assert FileLine(c, files, q) in lines;
    }
    if Lists(lines, text) {
      var l :| l in lines && ListedPath(l) == Some(text);
      NotBlank(l);
      var p :| p in files && IsContent(p) && l == FileLine(c, files, p);
      LineOfFile(c, files, files, p);
    }
  }

  /** Every line of the sealed manifest holds in another directory exactly when
      the listed texts lead to the sealed digests there. */
  lemma LinesHold(c: Primitives, files: Files, files': Files)
    requires Lawful(c) && Sealed(c, files) && ReadableTree(files)
    ensures AllLinesHold(c, files[SUMS], files') <==> TextsLead(c, files, files')
  {
    hide PathText, FileLine, SumsLines, Lines, ListedPath, SumsText, LineHolds, ReadableText, LeadsTo, IsContent;
    ContentLines(c, files);
    BlankHolds(c, files');
    forall p | p in files && IsContent(p)
      ensures FileLine(c, files, p) in SumsLines(files[SUMS])
      ensures LineHolds(c.hash, files', FileLine(c, files, p)) <==> LeadsTo(c.hash, files', PathText(p), c.hash(files[p]))
    {
      LineOfFile(c, files, files', p);
    }
  }

  lemma BlankHolds(c: Primitives, files: Files)
    ensures LineHolds(c.hash, files, "")
  {
  }

  /** No file is outside the sealed list exactly when every content file bears a
      listed text. */
  lemma FilesListed(c: Primitives, files: Files, files': Files)
    requires Lawful(c) && Sealed(c, files) && ReadableTree(files) && OsTree(files')
    ensures AllFilesListed(files[SUMS], files') <==> TextsKnown(files, files')
    ensures !Lists(SumsLines(files[SUMS]), "index.json")
  {
    hide PathText, SumsLines, Lines, Sealed, Lists, KnownMeta, Lawful, OsPath, IsContent, ReadableText;
    SealedHas(c, files);
    IndexNotListed(c, files);
    forall p | p in files' ensures KnownMeta(PathText(p)) <==> !IsContent(p) {
      OnlyMetaIsMeta(p);
    }
    forall p | p in files'
      ensures Lists(SumsLines(files[SUMS]), PathText(p)) <==> exists q :: q in files && IsContent(q) && PathText(q) == PathText(p)
    {
      SealedLists(c, files, PathText(p));
    }
  }

  lemma IndexNotListed(c: Primitives, files: Files)
    requires Lawful(c) && Sealed(c, files) && ReadableTree(files)
    ensures !Lists(SumsLines(files[SUMS]), "index.json")
  {
    hide PathText, SumsLines, Lines, Sealed, Lists, Lawful, OsPath, IsContent, ReadableText;
    SealedHas(c, files);
    SealedLists(c, files, "index.json");
    forall q | q in files && IsContent(q) ensures PathText(q) != "index.json" {
      OnlyMetaIsMeta(q);
    }
  }

  /** With the manifest and the index untouched, only the lines, the recipe and
      the extra files remain to be checked. */
  lemma PassesParts(c: Primitives, files: Files, files': Files)
    requires Sealed(c, files)
    requires SUMS in files' && INDEX in files' && files'[SUMS] == files[SUMS] && files'[INDEX] == files[INDEX]
    ensures Passes(c, files') <==>
      && AllLinesHold(c, files[SUMS], files')
      && !Lists(SumsLines(files[SUMS]), "index.json")
      && RECIPE in files' && c.hash(files[RECIPE]) == c.hash(files'[RECIPE])
      && AllFilesListed(files[SUMS], files')
  {
    hide AllLinesHold, AllFilesListed, Lists, SumsLines, Lines, SumsText, Decode;
    WrittenLines(c, files);
  }

  lemma SealedHas(c: Primitives, files: Files)
    requires Sealed(c, files)
    ensures SUMS in files && INDEX in files && RECIPE in files && IsContent(RECIPE)
  {
  }

  lemma RecipeText()
    ensures PlainPath(RECIPE)
  {
    var name := RECIPE[0];
    assert name == "deterministic-manifest.json";
  }

  /** Any directory with the manifest and the index of a sealed one passes the
      integrity checks exactly when the listed texts lead to the sealed digests
      and every content file bears a listed text. */
  lemma PassesExactly(c: Primitives, files: Files, files': Files)
    requires Lawful(c) && Sealed(c, files) && ReadableTree(files) && OsTree(files')
    requires SUMS in files' && INDEX in files' && files'[SUMS] == files[SUMS] && files'[INDEX] == files[INDEX]
    ensures Passes(c, files') <==> TextsLead(c, files, files') && TextsKnown(files, files')
  {
    hide IsContent, SUMS, INDEX, SIG, RECIPE, Passes, Sealed, AllLinesHold, AllFilesListed, Lists, SumsLines, Lines, Lawful,
      ReadableTree, OsTree, TextsKnown, PathText;
    SealedHas(c, files);
    PassesParts(c, files, files');
    LinesHold(c, files, files');
    FilesListed(c, files, files');
    RecipeText();
    PlainIsReadable(RECIPE);
  }

  /** Main result, exactly what tampering the checks miss: a directory of any
      names, with the manifest and the index of a sealed bundle of plain names,
      passes if and only if every content file is kept with its digest and every
      content file bears the path text of a sealed one. */
  lemma TamperEvidentExactly(c: Primitives, files: Files, files': Files)
    requires Lawful(c) && Sealed(c, files) && PlainTree(files) && OsTree(files')
    requires SUMS in files' && INDEX in files' && files'[SUMS] == files[SUMS] && files'[INDEX] == files[INDEX]
    ensures Passes(c, files') <==> KeepsContent(c, files, files') && TextsKnown(files, files')
  {
    hide Sealed, Lawful, Passes, PathText, PlainPath, ReadableText, TextsKnown, IsContent;
    PlainTreeIsReadable(files);
    PassesExactly(c, files, files');
    forall p | p in files && IsContent(p)
      ensures LeadsTo(c.hash, files', PathText(p), c.hash(files[p])) <==> p in files' && c.hash(files[p]) == c.hash(files'[p])
    {
      PlainIsReadable(p);
    }
  }

  /** Without backslashes, bearing a sealed text is being a sealed path. */
  lemma KnownWithoutBackslash(files: Files, files': Files)
    requires PlainTree(files) && OsTree(files') && NoBackslash(files')
    ensures TextsKnown(files, files') <==> forall p :: p in files' && IsContent(p) ==> p in files
  {
    hide PathText, PlainPath, IsContent;
    PlainTreeIsReadable(files);
    forall p, q | p in files' && q in files ensures PathText(p) == PathText(q) <==> p == q {
      SameTextSamePath(p, q);
    }
  }

  lemma SameTextSamePath(p: Path, q: Path)
    requires OsPath(p) && (forall n :: n in p ==> '\\' !in n) && TextPath(q)
    ensures PathText(p) == PathText(q) <==> p == q
  {
    hide Join, Replace, Components;
    TextPathText(q);
    JoinKeeps(p, '\\');
    ReplaceNothing(Join("/", p), '\\', "/");
    ComponentsExact(p);
  }

  /** Main result: with the manifest and the index untouched, and no backslash in
      a name, the integrity checks pass exactly when no content file was added,
      removed, or given another digest; verification then rests on the other
      checks alone. */
  lemma TamperEvident(c: Primitives, rest: Files -> bool, files: Files, files': Files)
    requires Lawful(c) && Sealed(c, files) && PlainTree(files) && OsTree(files') && NoBackslash(files')
    requires SUMS in files' && INDEX in files' && files'[SUMS] == files[SUMS] && files'[INDEX] == files[INDEX]
    ensures Passes(c, files') <==> SameContent(c, files, files')
    ensures Verifies(c, rest, files') <==> SameContent(c, files, files') && rest(files')
  {
    hide Sealed, Lawful, Passes, PlainTree, OsTree, NoBackslash, TextsKnown, IsContent;
    TamperEvidentExactly(c, files, files');
    KnownWithoutBackslash(files, files');
  }

  /** Backslashes matter: a file `a\b` added beside the sealed `a/b` is not seen,
      because the check for extra files reads its name as `a/b`. */
  lemma BackslashEvades(c: Primitives, files: Files, a: string, b: string, x: Bytes)
    requires Lawful(c) && Sealed(c, files) && PlainTree(files) && [a, b] in files
    ensures
      var files' := files[[a + "\\" + b] := x];
      OsTree(files') && Passes(c, files') && !SameContent(c, files, files')
  {
    hide Sealed, Lawful, Passes, PathText, PlainPath, OsPath, IsContent, SUMS, INDEX, RECIPE, SIG, TextsKnown;
    var twin := [a + "\\" + b];
    var files' := files[twin := x];
    SealedHas(c, files);
    TwinIsNew(files, a, b);
    TwinKnown(files, a, b, x);
    TamperEvidentExactly(c, files, files');
  }

  lemma TwinIsNew(files: Files, a: string, b: string)
    requires PlainTree(files) && [a, b] in files
    ensures
      var twin := [a + "\\" + b];
      twin !in files && IsContent(twin) && twin != SUMS && twin != INDEX && OsPath(twin) && PathText(twin) == PathText([a, b]) && IsContent([a, b])
  {
    hide PathText, PlainPath, SUMS, INDEX, SIG;
    var twin := [a + "\\" + b];
    assert PlainPath([a, b]);
    PlainNames([a, b]);
    assert a in [a, b] && b in [a, b];
    TwinText(a, b);
    assert twin[0][|a|] == '\\';
    assert twin[0] in twin;
    MetaNames(twin[0]);
    if twin in files {
      PlainNames(twin);
      assert false;
    }
    TwoNames(a, b);
  }

  lemma TwoNames(a: string, b: string)
    ensures IsContent([a, b])
  {
  }

  lemma PlainNames(p: Path)
    requires PlainPath(p)
    ensures forall n :: n in p ==> Component(n) && '\\' !in n
  {
  }

  lemma TwinKnown(files: Files, a: string, b: string, x: Bytes)
    requires PlainTree(files) && [a, b] in files
    ensures OsTree(files[[a + "\\" + b] := x]) && TextsKnown(files, files[[a + "\\" + b] := x])
  {
    hide PathText, PlainPath, SUMS, INDEX, SIG, IsContent, OsPath;
    var twin := [a + "\\" + b];
    TwinIsNew(files, a, b);
    PlainTreeIsReadable(files);
    forall p | p in files[twin := x] && IsContent(p)
      ensures exists q :: q in files && IsContent(q) && PathText(p) == PathText(q)
    {
      if p == twin {
        assert PathText(p) == PathText([a, b]);
      }
    }
  }

  lemma MetaNames(name: string)
    requires '\\' in name
    ensures IsContent([name]) && [name] != SUMS && [name] != INDEX
  {
    assert '\\' !in SUMS[0] && '\\' !in INDEX[0] && '\\' !in SIG[0];
  }

  lemma TwinText(a: string, b: string)
    requires Component(a) && Component(b) && '\\' !in a && '\\' !in b
    ensures Component(a + "\\" + b) && PathText([a + "\\" + b]) == PathText([a, b])
  {
    hide Replace;
    var name := a + "\\" + b;
    assert name[|a|] == '\\';
    ReplaceNothing(a, '\\', "/");
    ReplaceNothing(b, '\\', "/");
    ReplaceConcat(a, "\\", '\\', "/");
    ReplaceConcat(a + "\\", b, '\\', "/");
    ReplaceOne();
    assert Join("/", [a, b]) == a + "/" + b;
    ReplaceConcat(a, "/", '\\', "/");
    ReplaceConcat(a + "/", b, '\\', "/");
    ReplaceNothing("/", '\\', "/");
  }

  lemma ReplaceOne()
    ensures Replace("\\", '\\', "/") == "/"
  {
    assert "\\"[1..] == "";
  }

  // -------------------------------------------------- a sealed bundle by itself

  /** A sealed bundle of plain names passes its integrity checks, so it verifies
      exactly when it passes the others. */
  lemma SealedPasses(c: Primitives, rest: Files -> bool, files: Files)
    requires Lawful(c) && Sealed(c, files) && PlainTree(files)
    ensures Passes(c, files)
    ensures Verifies(c, rest, files) <==> rest(files)
  {
    hide Sealed, Lawful, Passes, PlainPath, PathText;
    PlainTreeIsReadable(files);
    SealedHas(c, files);
    TamperEvident(c, rest, files, files);
  }

  lemma {:induction false} SplitRejoins(line: string)
    ensures SplitEntry(line).Some? ==> line == SplitEntry(line).value.0 + "  " + SplitEntry(line).value.1
  {
    if |line| >= 2 && !(line[0] == ' ' && line[1] == ' ') {
      SplitRejoins(line[1..]);
      assert line == [line[0]] + line[1..];
    } else if |line| >= 2 {
      assert line == "  " + line[2..];
    }
  }

  lemma {:induction false} LinesStripped(ls: seq<string>)
    requires ls != [] && forall l :: l in ls ==> '\n' !in l
    ensures Lines(LineText(ls)) == MapSeq(StripCr, ls)
  {
    hide ReadLine, LineText;
    assert ls[0] in ls;
    TextLength(ls);
    FirstLine(ls);
    assert MapSeq(StripCr, ls)[0] == StripCr(ls[0]) && MapSeq(StripCr, ls)[1..] == MapSeq(StripCr, ls[1..]);
    if |ls| == 1 {
      assert MapSeq(StripCr, ls) == [StripCr(ls[0])];
    } else {
      assert forall l :: l in ls[1..] ==> l in ls;
      LinesStripped(ls[1..]);
    }
  }

  predicate EndsInCr(s: string) { s != "" && s[|s| - 1] == '\r' }

  /** Every content file of a directory that passes is listed. */
  lemma PassingIsListed(c: Primitives, files: Files, p: Path)
    requires Passes(c, files) && OsTree(files) && p in files && IsContent(p)
    ensures Lists(SumsLines(files[SUMS]), PathText(p))
  {
    hide PathText, SumsLines, Lines, Lists, OsPath, IsContent, AllLinesHold, SUMS, RECIPE;
    OnlyMetaIsMeta(p);
  }

  lemma ListedHasNoNewline(sums: Bytes, text: string)
    requires Lists(SumsLines(sums), text)
    ensures '\n' !in text
  {
    hide Lines, SplitEntry, SafePath, Decode;
    var l :| l in SumsLines(sums) && ListedPath(l) == Some(text);
    LinesHoldNoNewline(Decode(sums).value);
    SplitRejoins(l);
  }

  /** What the reader makes of the line of one file. */
  lemma StrippedLine(d: string, text: string)
    requires DigestText(d)
    ensures
      var line := EntryLine(Entry(d, text));
      SplitEntry(StripCr(line)) == Some((d, if EndsInCr(text) then text[..|text| - 1] else text))
  {
    hide DigestText;
    var line := EntryLine(Entry(d, text));
    assert ' ' !in d by { NoSpace(d); }
    assert line == d + "  " + text;
    if EndsInCr(text) {
      assert StripCr(line) == d + "  " + text[..|text| - 1];
      SplitEntryExact(d, text[..|text| - 1]);
    } else {
      assert StripCr(line) == line by { assert line[|line| - 1] == if text == "" then ' ' else text[|text| - 1]; }
      SplitEntryExact(d, text);
    }
  }

  lemma NoSpace(d: string)
    requires DigestText(d)
    ensures ' ' !in d && '\n' !in d
  {
  }

  /** The lines of a sealed manifest whose texts hold no newline. */
  lemma SealedLines(c: Primitives, files: Files, l: string)
    requires Lawful(c) && Sealed(c, files) && forall p :: p in files && IsContent(p) ==> '\n' !in PathText(p)
    ensures l in SumsLines(files[SUMS]) <==> exists p :: p in files && IsContent(p) && l == StripCr(FileLine(c, files, p))
  {
    hide PathText, StringsLeq, InOrder, Written, EntryLine, DigestText, IsContent, SUMS, RECIPE, INDEX, SumsText, SumsLines, Lines, LineText, MapSeq, StripCr;
    SealedHas(c, files);
    WrittenLines(c, files);
    var ls, paths := Written(c, files), InOrder(StringsLeq, ContentPaths(files));
    assert RECIPE in paths;
    forall i | 0 <= i < |paths| ensures '\n' !in ls[i] {
      LineHasNoNewline(c.hash(files[paths[i]]), PathText(paths[i]));
    }
    LinesStripped(ls);
    if l in MapSeq(StripCr, ls) {
      var i :| 0 <= i < |ls| && MapSeq(StripCr, ls)[i] == l;
      assert paths[i] in paths;
    }
    if p :| p in files && IsContent(p) && l == StripCr(FileLine(c, files, p)) {
      assert p in paths;
      var i :| 0 <= i < |paths| && paths[i] == p;
      assert MapSeq(StripCr, ls)[i] == l;
    }
  }

  lemma LineHasNoNewline(d: string, text: string)
    requires DigestText(d) && '\n' !in text
    ensures '\n' !in EntryLine(Entry(d, text))
  {
    NoSpace(d);
    hide DigestText;
  }

  /** A text that ends in a carriage return is listed only by a longer one. */
  lemma LongerText(c: Primitives, files: Files, p: Path) returns (q: Path)
    requires Lawful(c) && Sealed(c, files) && Passes(c, files) && OsTree(files)
    requires forall r :: r in files && IsContent(r) ==> '\n' !in PathText(r)
    requires p in files && IsContent(p) && EndsInCr(PathText(p))
    ensures q in files && IsContent(q) && PathText(q) == PathText(p) + "\r"
  {
    hide PathText, SumsLines, Lines, OsPath, IsContent, Passes, Sealed, FileLine, SplitEntry, StripCr, SUMS, SafePath;
    SealedHas(c, files);
    PassingIsListed(c, files, p);
    var l :| l in SumsLines(files[SUMS]) && ListedPath(l) == Some(PathText(p));
    SealedLines(c, files, l);
    q :| q in files && IsContent(q) && l == StripCr(FileLine(c, files, q));
    LineFor(c, files, q);
    StrippedLine(c.hash(files[q]), PathText(q));
    var text := PathText(q);
    assert EndsInCr(text) ==> text == text[..|text| - 1] + "\r";
  }

  lemma LineFor(c: Primitives, files: Files, q: Path)
    requires Lawful(c) && q in files
    ensures FileLine(c, files, q) == EntryLine(Entry(c.hash(files[q]), PathText(q))) && DigestText(c.hash(files[q]))
  {
    hide PathText, EntryLine;
  }

  ghost function LongerPaths(files: Files, n: nat): set<Path> { set q | q in files && |PathText(q)| > n }

  /** A sealed bundle that passes holds no text that ends in a carriage return:
      each would need a longer one. */
  lemma {:induction false} NoneEndsInCr(c: Primitives, files: Files, p: Path)
    requires Lawful(c) && Sealed(c, files) && Passes(c, files) && OsTree(files)
    requires forall r :: r in files && IsContent(r) ==> '\n' !in PathText(r)
    requires p in files && IsContent(p)
    ensures !EndsInCr(PathText(p))
    decreases |LongerPaths(files, |PathText(p)|)|
  {
    hide PathText, SumsLines, Lines, OsPath, IsContent, Passes, Sealed;
    if EndsInCr(PathText(p)) {
      var q := LongerText(c, files, p);
      assert q in LongerPaths(files, |PathText(p)|) && q !in LongerPaths(files, |PathText(q)|);
      FewerLonger(LongerPaths(files, |PathText(q)|), LongerPaths(files, |PathText(p)|));
      NoneEndsInCr(c, files, q);
      assert false;
    }
  }

  lemma FewerLonger(a: set<Path>, b: set<Path>)
    requires a < b
    ensures |a| < |b|
  {
    var x :| x in b && x !in a;
    assert a <= b - {x};
    assert |b| == |b - {x}| + 1;
    Smaller(a, b - {x});
  }

  lemma {:induction false} Smaller(a: set<Path>, b: set<Path>)
    requires a <= b
    ensures |a| <= |b|
    decreases |a|
  {
    if x :| x in a {
      Smaller(a - {x}, b - {x});
    }
  }

  /** A sealed bundle that passes has readable texts only. */
  lemma PassingIsReadable(c: Primitives, files: Files)
    requires Lawful(c) && Sealed(c, files) && Passes(c, files) && OsTree(files)
    ensures ReadableTree(files)
  {
    hide PathText, SumsLines, Lines, Lists, OsPath, IsContent, Passes, Sealed, SafePath, SplitEntry, StripCr, FileLine, SUMS;
    SealedHas(c, files);
    forall p | p in files && IsContent(p) ensures '\n' !in PathText(p) {
      PassingIsListed(c, files, p);
      ListedHasNoNewline(files[SUMS], PathText(p));
    }
    forall p | p in files && IsContent(p) ensures ReadableText(PathText(p)) {
      NoneEndsInCr(c, files, p);
      var l := StripCr(FileLine(c, files, p));
      SealedLines(c, files, l);
      LineFor(c, files, p);
      StrippedLine(c.hash(files[p]), PathText(p));
      PassingLine(c, files, l);
    }
  }

  lemma PassingLine(c: Primitives, files: Files, l: string)
    requires Passes(c, files) && l in SumsLines(files[SUMS]) && SplitEntry(l).Some?
    ensures SafePath(SplitEntry(l).value.1)
  {
    hide SumsLines, Lines, SafePath, Lists;
    assert LineHolds(c.hash, files, l);
  }

  /** Main result: a sealed bundle, whatever its names, passes its own integrity
      checks if and only if every content path's text is safe, holds no newline,
      does not end in a carriage return, and leads to a file with that digest. */
  lemma SealedPassesExactly(c: Primitives, files: Files)
    requires Lawful(c) && Sealed(c, files) && OsTree(files)
    ensures Passes(c, files) <==> ReadableTree(files) && TextsLead(c, files, files)
  {
    hide PathText, OsPath, IsContent, Passes, Sealed, ReadableText, LeadsTo, Lawful;
    SealedHas(c, files);
    if Passes(c, files) {
      PassingIsReadable(c, files);
    }
    if ReadableTree(files) {
      PassesExactly(c, files, files);
      assert TextsKnown(files, files);
    }
  }

  // --------------------------------------------------------- all layers together

  /** No collision among the bytes at hand: the idealisation of SHA-256 used
      below. */
  ghost predicate NoCollision(c: Primitives, files: Files, files': Files) {
    forall p :: p in files && p in files' && c.hash(files[p]) == c.hash(files'[p]) ==> files[p] == files'[p]
  }

  /** The idealisation of ed25519 used below, for the signature presented: it
      verifies for no envelope but the one that was signed. */
  ghost predicate Unforged(c: Primitives, key: Bytes, files: Files, files': Files)
    requires SUMS in files && INDEX in files && SUMS in files' && INDEX in files'
  {
    SignatureCheck(c, files', c.publicKey(key)) == Success(true) ==>
      Envelope(files[SUMS], files[INDEX]) == Envelope(files'[SUMS], files'[INDEX])
  }

  /** The same files except, perhaps, the signature file. */
  ghost predicate SameButSignature(files: Files, files': Files) {
    forall p :: p != SIG ==> (p in files <==> p in files') && (p in files ==> files[p] == files'[p])
  }

  /** The other checks do not look at the signature file. */
  ghost predicate IgnoresSignature(rest: Files -> bool) {
    forall files, files' :: SameButSignature(files, files') ==> rest(files) == rest(files')
  }

  /** What the two idealisations ask for: a hash without collisions has none here, and
      a check that looks at nothing ignores the signature. */
  lemma ModestAssumptions(c: Primitives, files: Files, files': Files)
    ensures (forall x, y :: c.hash(x) == c.hash(y) ==> x == y) ==> NoCollision(c, files, files')
    ensures IgnoresSignature(_ => true)
  {
  }

  lemma EnvelopeOfChecked(c: Primitives, key: Bytes, files: Files, files': Files)
    requires EnvelopeSized(files) && (SUMS in files' && INDEX in files' ==> EnvelopeSized(files'))
    requires SUMS in files' && INDEX in files' ==> Unforged(c, key, files, files')
    requires SignatureCheck(c, files', c.publicKey(key)) == Success(true)
    ensures SUMS in files' && INDEX in files' && files'[SUMS] == files[SUMS] && files'[INDEX] == files[INDEX]
  {
    hide Envelope, ReadHexFile;
    EnvelopeInjective(files[SUMS], files[INDEX], files'[SUMS], files'[INDEX]);
  }

  /** Every file of `files` but the signature is in `files'`, byte for byte. */
  ghost predicate KeepsBytes(files: Files, files': Files) {
    forall p :: p != SIG && p in files ==> p in files' && files[p] == files'[p]
  }

  lemma KeptBytes(c: Primitives, files: Files, files': Files)
    requires SUMS in files && INDEX in files && SUMS in files' && INDEX in files'
    requires files'[SUMS] == files[SUMS] && files'[INDEX] == files[INDEX] && NoCollision(c, files, files')
    ensures KeepsContent(c, files, files') <==> KeepsBytes(files, files')
  {
    if KeepsContent(c, files, files') {
      forall p | p != SIG && p in files ensures p in files' && files[p] == files'[p] {
        assert IsContent(p) || p == SUMS || p == INDEX;
      }
    }
  }

  /** Main result, the three layers for presented directories of any names: when
      the signature checks out under the signer's key, the integrity checks pass
      exactly when the sealed texts lead to the sealed digests and no file bears
      another text. For sealed names that are plain, that is when every sealed
      file is kept, byte for byte, and each file added bears a sealed text. */
  lemma LayeredExactly(c: Primitives, key: Bytes, files: Files, files': Files)
    requires Lawful(c) && Sealed(c, files) && ReadableTree(files) && OsTree(files')
    requires EnvelopeSized(files) && (SUMS in files' && INDEX in files' ==> EnvelopeSized(files'))
    requires SUMS in files' && INDEX in files' ==> Unforged(c, key, files, files')
    requires SignatureCheck(c, files', c.publicKey(key)) == Success(true)
    ensures Passes(c, files') <==> TextsLead(c, files, files') && TextsKnown(files, files')
    ensures PlainTree(files) && NoCollision(c, files, files') ==>
      (Passes(c, files') <==> KeepsBytes(files, files') && TextsKnown(files, files'))
  {
    hide Envelope, SignatureText, ReadHexFile, Sealed, Lawful, Passes, SignatureCheck, EnvelopeSized, Unforged, PlainTree,
      ReadableTree, OsTree, TextsKnown, TextsLead, KeepsBytes, KeepsContent, NoCollision;
    EnvelopeOfChecked(c, key, files, files');
    SealedMeta(files);
    PassesExactly(c, files, files');
    if PlainTree(files) && NoCollision(c, files, files') {
      TamperEvidentExactly(c, files, files');
      KeptBytes(c, files, files');
    }
  }

  /** Main result, the three layers together: of the directories whose signature
      checks out under the signer's key, verification accepts exactly those that
      agree with the sealed bundle on every file but the signature itself. */
  lemma LayeredIntegrity(c: Primitives, rest: Files -> bool, key: Bytes, files: Files, files': Files)
    requires Lawful(c) && Sealed(c, files) && PlainTree(files) && OsTree(files') && NoBackslash(files')
    requires rest(files) && IgnoresSignature(rest)
    requires EnvelopeSized(files) && (SUMS in files' && INDEX in files' ==> EnvelopeSized(files'))
    requires SUMS in files' && INDEX in files' ==> Unforged(c, key, files, files')
    requires NoCollision(c, files, files')
    requires SignatureCheck(c, files', c.publicKey(key)) == Success(true)
    ensures Verifies(c, rest, files') <==> SameButSignature(files, files')
  {
    hide PathText, SumsLines, Lines, PlainPath, SumsText, Envelope, SignatureText, ReadHexFile, Sealed, Lawful, Passes, SignatureCheck,
      EnvelopeSized, IgnoresSignature, Unforged;
    EnvelopeOfChecked(c, key, files, files');
    SealedMeta(files);
    TamperEvident(c, rest, files, files');
    SameUpToMeta(c, files, files');
    if SameButSignature(files, files') {
      RestAgrees(rest, files, files');
    }
  }

  lemma RestAgrees(rest: Files -> bool, files: Files, files': Files)
    requires IgnoresSignature(rest) && SameButSignature(files, files')
    ensures rest(files) == rest(files')
  {
  }

  lemma SealedMeta(files: Files)
    ensures EnvelopeSized(files) ==> SUMS in files && INDEX in files
  {
  }

  lemma SameUpToMeta(c: Primitives, files: Files, files': Files)
    requires SUMS in files && INDEX in files && SUMS in files' && INDEX in files'
    requires files'[SUMS] == files[SUMS] && files'[INDEX] == files[INDEX] && NoCollision(c, files, files')
    ensures SameContent(c, files, files') <==> SameButSignature(files, files')
  {
    if SameContent(c, files, files') {
      forall p | p != SIG ensures (p in files <==> p in files') && (p in files ==> files[p] == files'[p]) {
        assert IsContent(p) || p == SUMS || p == INDEX;
      }
    }
    if SameButSignature(files, files') {
      forall p | IsContent(p)
        ensures (p in files <==> p in files') && (p in files ==> c.hash(files[p]) == c.hash(files'[p]))
      {
        assert p != SIG;
      }
    }
  }

  /** When the signature file is the one that was written, the directory that
      passes is the sealed bundle, byte for byte. */
  lemma UntouchedSignature(c: Primitives, rest: Files -> bool, key: Bytes, files: Files, files': Files)
    requires Lawful(c) && Sealed(c, files) && PlainTree(files) && OsTree(files') && NoBackslash(files')
    requires rest(files) && IgnoresSignature(rest)
    requires EnvelopeSized(files) && (SUMS in files' && INDEX in files' ==> EnvelopeSized(files'))
    requires SIG in files && SIG in files' && files[SIG] == files'[SIG]
    requires files[SIG] == SignatureText(c.sign(key, Envelope(files[SUMS], files[INDEX])))
    requires SUMS in files' && INDEX in files' ==>
      Distinguishes(c, key, Envelope(files[SUMS], files[INDEX]), Envelope(files'[SUMS], files'[INDEX]))
    requires NoCollision(c, files, files')
    ensures (Verifies(c, rest, files') && SignatureCheck(c, files', c.publicKey(key)) == Success(true)) <==> files' == files
  {
    hide PathText, SumsLines, Lines, PlainPath, SumsText, Envelope, SignatureText, ReadHexFile, Sealed, Lawful, Passes, SignatureCheck,
      EnvelopeSized, IgnoresSignature, Distinguishes, Verifies;
    SealedMeta(files);
    if SUMS in files' && INDEX in files' {
      SignatureBindsEnvelope(c, key, files, files');
      if SignatureCheck(c, files', c.publicKey(key)) == Success(true) {
        LayeredIntegrity(c, rest, key, files, files');
        SameAll(files, files');
      }
    } else {
      NothingSigned(c, key, files');
    }
  }

  /** The same for presented directories of any names: every sealed file is kept,
      byte for byte, and each file added bears a sealed text. */
  lemma UntouchedExactly(c: Primitives, key: Bytes, files: Files, files': Files)
    requires Lawful(c) && Sealed(c, files) && PlainTree(files) && OsTree(files')
    requires EnvelopeSized(files) && (SUMS in files' && INDEX in files' ==> EnvelopeSized(files'))
    requires SIG in files && SIG in files' && files[SIG] == files'[SIG]
    requires files[SIG] == SignatureText(c.sign(key, Envelope(files[SUMS], files[INDEX])))
    requires SUMS in files' && INDEX in files' ==>
      Distinguishes(c, key, Envelope(files[SUMS], files[INDEX]), Envelope(files'[SUMS], files'[INDEX]))
    requires NoCollision(c, files, files')
    ensures (Passes(c, files') && SignatureCheck(c, files', c.publicKey(key)) == Success(true))
        <==> KeepsBytes(files, files') && TextsKnown(files, files')
  {
    hide Envelope, SignatureText, ReadHexFile, Sealed, Lawful, Passes, SignatureCheck, EnvelopeSized, Distinguishes, PlainTree,
      OsTree, TextsKnown, KeepsContent, NoCollision;
    SealedMeta(files);
    MetaDiffers();
    if SUMS in files' && INDEX in files' {
      SignatureBindsEnvelope(c, key, files, files');
      if files[SUMS] == files'[SUMS] && files[INDEX] == files'[INDEX] {
        TamperEvidentExactly(c, files, files');
        KeptBytes(c, files, files');
      }
    } else {
      NothingSigned(c, key, files');
    }
  }

  lemma MetaDiffers()
    ensures SUMS != SIG && INDEX != SIG
  {
  }

  lemma NothingSigned(c: Primitives, key: Bytes, files: Files)
    requires SUMS !in files || INDEX !in files
    ensures SignatureCheck(c, files, c.publicKey(key)) != Success(true)
  {
  }

  lemma SameAll(files: Files, files': Files)
    requires SIG in files && SIG in files' && files[SIG] == files'[SIG]
    ensures SameButSignature(files, files') <==> files == files'
  {
    if SameButSignature(files, files') {
      forall p ensures (p in files <==> p in files') && (p in files ==> files[p] == files'[p]) {
        assert p == SIG || p != SIG;
      }
      assert files.Keys == files'.Keys;
    }
  }
}
