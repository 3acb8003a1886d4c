/** The layer between index and manifest (`verify/bundle.rs`, steps 5 to 7): what
    an untouched index alone pins down, and what any manifest must look like to
    pass. */
module ManifestLayer {
  import opened Ordering
  import opened Text
  import opened Manifest
  import opened Encoding
  import opened BundleSealing
  import opened SealingRuns
  import opened Integrity
  import opened Wrappers

  // ------------------------------------------------------- a regenerated manifest

  /** The two manifests at hand do not collide. */
  ghost predicate ManifestsApart(c: Primitives, files: Files, files': Files) {
    SUMS in files && SUMS in files' && c.hash(files[SUMS]) == c.hash(files'[SUMS]) ==> files[SUMS] == files'[SUMS]
  }

  /** Main result: the index fixes the manifest. A directory that passes with the
      index of a sealed bundle has its manifest too, so one that was regenerated to
      match other content is refused. */
  lemma IndexFixesManifest(c: Primitives, files: Files, files': Files)
    requires Sealed(c, files) && ManifestsApart(c, files, files')
    requires INDEX in files' && files'[INDEX] == files[INDEX]
    requires Passes(c, files')
    ensures SUMS in files' && files'[SUMS] == files[SUMS]
  {
    hide AllLinesHold, AllFilesListed, SumsText, SumsLines, Lists;
  }

  /** Tamper evidence from the index alone, for presented directories of any
      names. */
  lemma IndexEvidentExactly(c: Primitives, files: Files, files': Files)
    requires Lawful(c) && Sealed(c, files) && PlainTree(files) && OsTree(files') && ManifestsApart(c, files, files')
    requires INDEX in files' && files'[INDEX] == files[INDEX]
    ensures Passes(c, files') <==>
      SUMS in files' && files'[SUMS] == files[SUMS] && KeepsContent(c, files, files') && TextsKnown(files, files')
  {
    hide Lawful, Passes, PlainTree, OsTree, TextsKnown, KeepsContent, ManifestsApart, SumsText;
    if Passes(c, files') {
      IndexFixesManifest(c, files, files');
    }
    if SUMS in files' && files'[SUMS] == files[SUMS] {
      TamperEvidentExactly(c, files, files');
    }
  }

  /** Main result: with only `index.json` untouched, and no backslash in a name,
      the integrity checks pass exactly when the manifest and every content digest
      are those of the sealed bundle. */
  lemma IndexEvident(c: Primitives, rest: Files -> bool, files: Files, files': Files)
    requires Lawful(c) && Sealed(c, files) && PlainTree(files) && OsTree(files') && NoBackslash(files')
    requires ManifestsApart(c, files, files') && INDEX in files' && files'[INDEX] == files[INDEX]
    ensures Verifies(c, rest, files') <==>
      SUMS in files' && files'[SUMS] == files[SUMS] && SameContent(c, files, files') && rest(files')
  {
    hide Lawful, Passes, PlainTree, OsTree, NoBackslash, SameContent, ManifestsApart, SumsText;
    if Passes(c, files') {
      IndexFixesManifest(c, files, files');
    }
    if SUMS in files' && files'[SUMS] == files[SUMS] {
      TamperEvident(c, rest, files, files');
    }
  }

  /** Main result: a directory of plain names that brings its own manifest and an
      index as the tool writes it passes exactly when it is sealed: the index must
      name the hash of that manifest and the hash of the recipe. */
  lemma OwnManifest(c: Primitives, files: Files)
    requires Lawful(c) && PlainTree(files) && SUMS in files && files[SUMS] == SumsText(c.hash, files)
    requires IndexOf(c, files).Some? && files[INDEX] == c.toJson(IndexOf(c, files).value)
    ensures Passes(c, files) <==> Sealed(c, files)
    ensures Passes(c, files) <==>
      && RECIPE in files
      && IndexOf(c, files).value.contentHash == c.hash(files[SUMS])
      && IndexOf(c, files).value.recipeHash == c.hash(files[RECIPE])
  {
    hide Lawful, PlainTree, SumsText, AllLinesHold, AllFilesListed, SumsLines, Lists, Decode;
    if Sealed(c, files) {
      SealedPasses(c, _ => true, files);
    }
  }

  // ------------------------------------------------------------ any manifest at all

  /** What a line of a manifest must be: blank, or sixty-four hexadecimal digits, two
      spaces and a relative path inside the bundle that leads to a file with that
      SHA-256. */
  ghost predicate GoodLine(c: Primitives, files: Files, line: string) {
    line == "" ||
    exists d: string, path: string ::
      && line == d + "  " + path && |d| == 64 && (forall i :: 0 <= i < 64 ==> HexCharacter(d[i]))
      && (path != "" ==> path[0] != '/' && path[0] != '\\' && path[|path| - 1] != '/')
      && InsideBundle(path)
      && Components(path) in files && c.hash(files[Components(path)]) == d
  }

  predicate HexCharacter(ch: char) { ch in "0123456789abcdefABCDEF" }

  /** No component of the path climbs out of its directory. */
  predicate InsideBundle(path: string) { forall k :: 0 <= k < |Components(path)| ==> Components(path)[k] != ".." }

  lemma HoldingLine(c: Primitives, files: Files, line: string)
    requires LineHolds(c.hash, files, line)
    ensures GoodLine(c, files, line)
  {
    hide Components;
    if line != "" {
      SplitRejoins(line);
      var (d, path) := SplitEntry(line).value;
      HexDigits(d);
      DirectoryEnds(path);
      assert line == d + "  " + path;
    }
  }

  lemma HexDigits(d: string)
    requires DigestText(d)
    ensures |d| == 64 && forall i :: 0 <= i < 64 ==> HexCharacter(d[i])
  {
    forall i | 0 <= i < 64 ensures HexCharacter(d[i]) {
      HexDigitCharacter(d[i]);
    }
  }

  lemma HexDigitCharacter(ch: char)
    ensures IsHexDigit(ch) <==> HexCharacter(ch)
  {
    var all := "0123456789abcdefABCDEF";
    if '0' <= ch <= '9' { assert all[ch as int - 48] == ch; }
    if 'a' <= ch <= 'f' { assert all[ch as int - 87] == ch; }
    if 'A' <= ch <= 'F' { assert all[ch as int - 49] == ch; }
    if ch in all {
      var i :| 0 <= i < 22 && all[i] == ch;
    }
  }

  lemma DirectoryEnds(path: string)
    ensures path != "" && path[|path| - 1] == '/' ==> DirectoryText(path)
  {
    if path != "" && path[|path| - 1] == '/' {
      assert path[|path| - 1..] == "/";
    }
  }

  lemma IsListed(lines: seq<string>, l: string)
    requires l in lines && ListedPath(l).Some?
    ensures Lists(lines, ListedPath(l).value)
  {
  }

  /** Whatever its manifest says, a directory that passes has only good lines, none
      of them for `index.json`, and a line for the path text of every file but the
      three of the metadata layer. */
  lemma PassingManifest(c: Primitives, files: Files)
    requires OsTree(files) && Passes(c, files)
    ensures Decode(files[SUMS]).Some?
    ensures forall l :: l in Lines(Decode(files[SUMS]).value) ==> GoodLine(c, files, l)
    ensures forall l, d, path :: l in Lines(Decode(files[SUMS]).value) && SplitEntry(l) == Some((d, path)) ==> path != "index.json"
    ensures forall p :: p in files && p != SUMS && p != INDEX && p != SIG ==>
      exists l, d :: l in Lines(Decode(files[SUMS]).value) && SplitEntry(l) == Some((d, PathText(p)))
  {
    hide OsPath, PathText, GoodLine, SplitEntry, DigestText, SafePath, SUMS, INDEX, SIG, RECIPE, LeadsTo, Lines, Decode;
    var lines := Lines(Decode(files[SUMS]).value);
    forall l | l in lines ensures GoodLine(c, files, l) {
      HoldingLine(c, files, l);
    }
    forall l, d, path | l in lines && SplitEntry(l) == Some((d, path)) ensures path != "index.json" {
      BlankSplits();
      IsListed(lines, l);
    }
    forall p | p in files && p != SUMS && p != INDEX && p != SIG
      ensures exists l, d :: l in lines && SplitEntry(l) == Some((d, PathText(p)))
    {
      PassingIsListed(c, files, p);
      var l :| l in lines && ListedPath(l) == Some(PathText(p));
      assert SplitEntry(l) == Some((SplitEntry(l).value.0, PathText(p)));
    }
  }

  lemma BlankSplits()
    ensures SplitEntry("") == None
  {
  }
}
