/** Sealing an evidence bundle: `hash.rs`, `bundle/builder.rs`,
    `bundle/completeness.rs` and `bundle/signing.rs` over a bundle directory. */
module BundleSealing {
  import opened Ordering
  import opened Text
  import opened Manifest
  import opened Encoding
  import opened Wrappers

  /** The bundle directory: every regular file and its bytes. */
  type Files = map<Path, Bytes>

  const SUMS: Path := ["SHA256SUMS"]
  const INDEX: Path := ["index.json"]
  const SIG: Path := ["BUNDLE.sig"]
  const METADATA: Path := ["cargo_metadata.json"]
  const ENV: Path := ["env.json"]
  const RECIPE: Path := ["deterministic-manifest.json"]

  datatype CompletenessState = Complete | Incomplete | NotApplicable | Unverifiable

  /** `index.json`; `rest` stands for the fields no step after finalize reads or
      writes. */
  datatype Index = Index(contentHash: string, recipeHash: string, verification: CompletenessState, rest: string)

  /** What the tool takes from libraries: SHA-256 as hex, ed25519, and the JSON
      form of the index. */
  datatype Primitives = Primitives(
    hash: Bytes -> string,
    sign: (Bytes, Bytes) -> Bytes,
    publicKey: Bytes -> Bytes,
    verify: (Bytes, Bytes, Bytes) -> bool,
    toJson: Index -> Bytes,
    fromJson: Bytes -> Option<Index>)

  ghost predicate Lawful(c: Primitives) {
    && (forall b :: DigestText(c.hash(b)))
    && (forall k, m :: |c.sign(k, m)| == 64 && IsBytes(c.sign(k, m)))
    && (forall k, m :: c.verify(c.publicKey(k), m, c.sign(k, m)))
    && (forall i :: c.fromJson(c.toJson(i)) == Some(i))
  }

  datatype SealError =
    | Toctou(snapshotSha: string, currentSha: string)
    | CargoMetadataFailed
    | ParseFailed(path: Path)
    | ReadFailed(path: Path)
    | InvalidSignatureText(error: HexError)

  // -------------------------------------------------------- the content manifest

  predicate IsContent(p: Path) { p != SUMS && p != INDEX && p != SIG }

  function ContentPaths(files: Files): set<Path> { set p | p in files && IsContent(p) }

  function EntryOf(hash: Bytes -> string, files: Files): Path -> Entry {
    p => Entry(if p in files then hash(files[p]) else "", PathText(p))
  }

  /** One entry per content file, in path order. */
  ghost function ContentEntries(hash: Bytes -> string, files: Files): seq<Entry> {
    MapSeq(EntryOf(hash, files), InOrder(StringsLeq, ContentPaths(files)))
  }

  /** The bytes of the manifest. */
  ghost function SumsText(hash: Bytes -> string, files: Files): Bytes {
    Encode(ManifestText(ContentEntries(hash, files)))
  }

  // ------------------------------------------------------------------- the steps

  /** `record_verification_state`: rewrite one field of the index. */
  function Recorded(c: Primitives, files: Files, state: CompletenessState): Result<Files, SealError> {
    if INDEX !in files then Failure(ReadFailed(INDEX))
    else
      match c.fromJson(files[INDEX])
      case None => Failure(ParseFailed(INDEX))
      case Some(index) => Success(files[INDEX := c.toJson(index.(verification := state))])
  }

  /** `sign_bundle`: sign the envelope of the two files that bind the rest. */
  function Signed(c: Primitives, files: Files, key: Bytes): Result<Files, SealError> {
    if SUMS !in files then Failure(ReadFailed(SUMS))
    else if INDEX !in files then Failure(ReadFailed(INDEX))
    else
      var signature := c.sign(key, Envelope(files[SUMS], files[INDEX]));
      Success(files[SIG := SignatureText(signature)])
  }

  function SignatureText(signature: Bytes): Bytes {
    if forall i :: 0 <= i < |signature| ==> signature[i] as int < 256 then HexFile(signature) else ""
  }

  /** `verify_bundle_signature`. */
  function SignatureCheck(c: Primitives, files: Files, key: Bytes): Result<bool, SealError> {
    if SUMS !in files then Failure(ReadFailed(SUMS))
    else if INDEX !in files then Failure(ReadFailed(INDEX))
    else if SIG !in files then Failure(ReadFailed(SIG))
    else
      match ReadHexFile(files[SIG], 64)
      case Invalid(e) => Failure(InvalidSignatureText(e))
      case Data(signature) => Success(c.verify(key, Envelope(files[SUMS], files[INDEX]), signature))
  }

  // ------------------------------------------------------------------- sealed

  /** What `finalize` establishes: the manifest is the one the content gives, and
      the index names its hash and the recipe's. */
  ghost predicate Sealed(c: Primitives, files: Files) {
    && SUMS in files && INDEX in files && RECIPE in files
    && files[SUMS] == SumsText(c.hash, files)
    && c.fromJson(files[INDEX]).Some?
    && files[INDEX] == c.toJson(c.fromJson(files[INDEX]).value)
    && c.fromJson(files[INDEX]).value.contentHash == c.hash(files[SUMS])
    && c.fromJson(files[INDEX]).value.recipeHash == c.hash(files[RECIPE])
  }

  class Bundle {
    var files: Files

    constructor (initial: Files)
      ensures files == initial
    {
      files := initial;
    }

    /** Hash every file except the three metadata-layer ones, in path order. */
    method WriteSha256Sums(c: Primitives)
      modifies this
      ensures files == old(files)[SUMS := SumsText(c.hash, old(files))]
    {
      hide SumsText, ManifestText, EntryOf, PathText, StringsLeq, Encode;
      var tree := files;
      var paths: seq<Path> := [];
      var entries := tree.Keys;
      while entries != {}
        invariant entries <= tree.Keys
        invariant forall p :: p in paths <==> p in tree && p !in entries && IsContent(p)
        decreases |entries|
      {
        var p :| p in entries;
        entries := entries - {p};
        if p != SUMS && p != INDEX && p != SIG {
          paths := paths + [p];
        }
      }
      StringsOrder();
      SortDedupCanonical(StringsLeq, paths, SetToSeq(ContentPaths(tree)));
      var ordered := SortDedup(StringsLeq, paths);
      assert ordered == InOrder(StringsLeq, ContentPaths(tree));
      var lines: seq<string> := [];
      ghost var all := ContentEntries(c.hash, tree);
      for i := 0 to |ordered|
        invariant lines == EntryLines(all[..i])
      {
        var line := EntryLine(EntryOf(c.hash, tree)(ordered[i]));
        EntryAt(c.hash, tree, i);
        EntryLinesSnoc(all, i);
        lines := lines + [line];
      }
      assert all[..|ordered|] == all;
      SumsTextLines(c.hash, tree);
      files := tree[SUMS := Encode(Join("\n", lines) + "\n")];
    }

    method RecordVerificationState(c: Primitives, state: CompletenessState) returns (r: Result<(), SealError>)
      modifies this
      ensures r.Success? <==> Recorded(c, old(files), state).Success?
      ensures r.Success? ==> files == Recorded(c, old(files), state).value
      ensures r.Failure? ==> files == old(files) && r.error == Recorded(c, old(files), state).error
      ensures r == Failure(ReadFailed(["index.json"])) <==> ["index.json"] !in old(files)
      ensures r == Failure(ParseFailed(["index.json"])) <==> ["index.json"] in old(files) && c.fromJson(old(files)[["index.json"]]).None?
      ensures r.Success? ==>
        var index := c.fromJson(old(files)[["index.json"]]);
        index.Some? && files == old(files)[["index.json"] := c.toJson(index.value.(verification := state))]
    {
      if INDEX !in files {
        return Failure(ReadFailed(INDEX));
      }
      var parsed := c.fromJson(files[INDEX]);
      if parsed.None? {
        return Failure(ParseFailed(INDEX));
      }
      var index := parsed.value.(verification := state);
      files := files[INDEX := c.toJson(index)];
      r := Success(());
    }

    method SignBundle(c: Primitives, key: Bytes) returns (r: Result<(), SealError>)
      modifies this
      ensures r.Success? <==> Signed(c, old(files), key).Success?
      ensures r.Success? ==> files == Signed(c, old(files), key).value
      ensures r.Failure? ==> files == old(files) && r.error == Signed(c, old(files), key).error
      ensures r == Failure(ReadFailed(["SHA256SUMS"])) <==> ["SHA256SUMS"] !in old(files)
      ensures r.Success? <==> ["SHA256SUMS"] in old(files) && ["index.json"] in old(files)
      ensures r.Success? && IsBytes(c.sign(key, Envelope(old(files)[["SHA256SUMS"]], old(files)[["index.json"]]))) ==>
        files == old(files)[["BUNDLE.sig"] := HexEncode(c.sign(key, Envelope(old(files)[["SHA256SUMS"]], old(files)[["index.json"]]))) + "\n"]
    {
      if SUMS !in files {
        return Failure(ReadFailed(SUMS));
      }
      if INDEX !in files {
        return Failure(ReadFailed(INDEX));
      }
      var envelope := EnvelopeBytes(files[SUMS], files[INDEX]);
      files := files[SIG := SignatureText(c.sign(key, envelope))];
      r := Success(());
    }

    method VerifySignature(c: Primitives, key: Bytes) returns (r: Result<bool, SealError>)
      ensures r == SignatureCheck(c, files, key)
      ensures r == Failure(ReadFailed(["SHA256SUMS"])) <==> ["SHA256SUMS"] !in files
      ensures r == Failure(ReadFailed(["index.json"])) <==> ["SHA256SUMS"] in files && ["index.json"] !in files
      ensures r == Failure(ReadFailed(["BUNDLE.sig"])) <==> ["SHA256SUMS"] in files && ["index.json"] in files && ["BUNDLE.sig"] !in files
      ensures r.Success? <==>
        && ["SHA256SUMS"] in files && ["index.json"] in files && ["BUNDLE.sig"] in files
        && var text := Trim(files[["BUNDLE.sig"]]); |text| == 128 && forall i :: 0 <= i < 128 ==> IsHexDigit(text[i])
      ensures r.Success? ==>
        var signature := HexDecode(Trim(files[["BUNDLE.sig"]]));
        signature.Data? && r.value == c.verify(key, Envelope(files[["SHA256SUMS"]], files[["index.json"]]), signature.value)
    {
      if SIG in files {
        ReadHexFileExactly(files[SIG], 64);
      }
      hide Trim, IsHexDigit, HexDecode, Envelope;
      if SUMS !in files {
        return Failure(ReadFailed(SUMS));
      }
      if INDEX !in files {
        return Failure(ReadFailed(INDEX));
      }
      if SIG !in files {
        return Failure(ReadFailed(SIG));
      }
      var decoded := ReadHexFile(files[SIG], 64);
      if decoded.Invalid? {
        return Failure(InvalidSignatureText(decoded.error));
      }
      var envelope := EnvelopeBytes(files[SUMS], files[INDEX]);
      r := Success(c.verify(key, envelope, decoded.value));
    }
  }

  lemma EntryAt(hash: Bytes -> string, files: Files, i: nat)
    requires i < |InOrder(StringsLeq, ContentPaths(files))|
    ensures |ContentEntries(hash, files)| == |InOrder(StringsLeq, ContentPaths(files))|
    ensures ContentEntries(hash, files)[i] == EntryOf(hash, files)(InOrder(StringsLeq, ContentPaths(files))[i])
  {
    hide InOrder, EntryOf, MapSeq, StringsLeq;
  }

  lemma EntryLinesSnoc(all: seq<Entry>, i: nat)
    requires i < |all|
    ensures EntryLines(all[..i + 1]) == EntryLines(all[..i]) + [EntryLine(all[i])]
  {
    hide MapSeq, EntryLine;
    assert forall k :: 0 <= k < i ==> all[..i + 1][k] == all[..i][k];
  }

  lemma SumsTextLines(hash: Bytes -> string, files: Files)
    ensures SumsText(hash, files) == Encode(Join("\n", EntryLines(ContentEntries(hash, files))) + "\n")
  {
    hide Encode;
  }

  /** The names on disk. */
  lemma FileNames()
    ensures SUMS == ["SHA256SUMS"] && INDEX == ["index.json"] && SIG == ["BUNDLE.sig"]
    ensures METADATA == ["cargo_metadata.json"] && ENV == ["env.json"] && RECIPE == ["deterministic-manifest.json"]
  {
  }

  // ---------------------------------------------------------------- finalize

  /** The git and build facts `finalize` reads besides the directory. */
  datatype Facts = Facts(
    currentSha: Option<string>,
    metadataRequired: bool,
    metadata: Option<Bytes>,
    recipe: Bytes -> Option<Bytes>,
    rest: string)

  class EvidenceBuilder {
    var snapshotSha: string
    var bundle: Bundle

    constructor (snapshotSha: string, bundle: Bundle)
      ensures this.snapshotSha == snapshotSha && this.bundle == bundle
    {
      this.snapshotSha := snapshotSha;
      this.bundle := bundle;
    }

    /** Refuse when the repository moved; otherwise write the content layer, then
        the manifest, then the index that names the manifest's hash. */
    method Finalize(c: Primitives, facts: Facts) returns (r: Result<(), SealError>)
      requires Lawful(c)
      modifies bundle
      ensures
        var moved := snapshotSha != "unknown" && facts.currentSha.Some? && Trim(facts.currentSha.value) != snapshotSha;
        moved ==> r == Failure(Toctou(snapshotSha, Trim(facts.currentSha.value))) && bundle.files == old(bundle.files)
      ensures r.Success? ==> Sealed(c, bundle.files)
      ensures r.Success? ==>
        c.fromJson(bundle.files[INDEX]) == Some(Index(c.hash(bundle.files[SUMS]), c.hash(bundle.files[RECIPE]), Unverifiable, facts.rest))
      ensures r.Success? ==> ENV in old(bundle.files) && facts.recipe(old(bundle.files)[ENV]) == Some(bundle.files[RECIPE])
      ensures r.Success? && facts.metadataRequired ==> METADATA in bundle.files && facts.metadata == Some(bundle.files[METADATA])
      ensures r.Success? && !facts.metadataRequired ==>
        (METADATA in bundle.files <==> METADATA in old(bundle.files)) &&
        (METADATA in bundle.files ==> bundle.files[METADATA] == old(bundle.files)[METADATA])
      ensures r.Success? ==> forall p :: IsContent(p) && p != METADATA && p != RECIPE ==>
        (p in bundle.files <==> p in old(bundle.files)) && (p in bundle.files ==> bundle.files[p] == old(bundle.files)[p])
      ensures r.Failure? && !r.error.Toctou? ==>
        r.error == if facts.metadataRequired && facts.metadata.None? then CargoMetadataFailed
                   else if ENV !in old(bundle.files) then ReadFailed(ENV) else ParseFailed(ENV)
      ensures r.Failure? ==> forall p :: p != METADATA ==>
        (p in bundle.files <==> p in old(bundle.files)) && (p in bundle.files ==> bundle.files[p] == old(bundle.files)[p])
      ensures r.Success? <==>
        && !(snapshotSha != "unknown" && facts.currentSha.Some? && Trim(facts.currentSha.value) != snapshotSha)
        && (facts.metadataRequired ==> facts.metadata.Some?)
        && ENV in old(bundle.files) && facts.recipe(old(bundle.files)[ENV]).Some?
    {
      hide SumsText, Trim, Sealed, IsContent, SUMS, INDEX, SIG, METADATA, ENV, RECIPE;
      MetadataIsContent();
      if snapshotSha != "unknown" && facts.currentSha.Some? {
        var current := Trim(facts.currentSha.value);
        if current != snapshotSha {
          return Failure(Toctou(snapshotSha, current));
        }
      }
      if facts.metadataRequired {
        if facts.metadata.None? {
          return Failure(CargoMetadataFailed);
        }
        bundle.files := bundle.files[METADATA := facts.metadata.value];
      }
      if ENV !in bundle.files {
        return Failure(ReadFailed(ENV));
      }
      var recipe := facts.recipe(bundle.files[ENV]);
      if recipe.None? {
        return Failure(ParseFailed(ENV));
      }
      bundle.files := bundle.files[RECIPE := recipe.value];
      ghost var content := bundle.files;
      bundle.WriteSha256Sums(c);
      var contentHash := c.hash(bundle.files[SUMS]);
      var recipeHash := c.hash(bundle.files[RECIPE]);
      var index := Index(contentHash, recipeHash, Unverifiable, facts.rest);
      bundle.files := bundle.files[INDEX := c.toJson(index)];
      SealedLast(c, content, facts.rest);
      r := Success(());
    }
  }

  lemma MetadataIsContent()
    ensures IsContent(METADATA) && IsContent(RECIPE) && METADATA != RECIPE && METADATA != ENV && SUMS != INDEX && SUMS != SIG && INDEX != SIG
  {
    assert METADATA[0][0] == 'c' && RECIPE[0][0] == 'd' && ENV[0][0] == 'e' && SUMS[0][0] == 'S' && INDEX[0][0] == 'i' && SIG[0][0] == 'B';
  }

  /** Writing the manifest, and then the index that names its hash and the
      recipe's, seals the directory and touches no content. */
  lemma SealedLast(c: Primitives, content: Files, rest: string)
    requires Lawful(c) && RECIPE in content
    ensures
      var sums := SumsText(c.hash, content);
      var index := Index(c.hash(sums), c.hash(content[RECIPE]), Unverifiable, rest);
      var files := content[SUMS := sums][INDEX := c.toJson(index)];
      && Sealed(c, files) && c.fromJson(files[INDEX]) == Some(index) && files[RECIPE] == content[RECIPE]
      && forall p :: IsContent(p) ==> (p in files <==> p in content) && (p in files ==> files[p] == content[p])
  {
    hide SumsText, SUMS, INDEX, SIG, METADATA, ENV, RECIPE;
    MetadataIsContent();
    var sums := SumsText(c.hash, content);
    var index := Index(c.hash(sums), c.hash(content[RECIPE]), Unverifiable, rest);
    var files := content[SUMS := sums][INDEX := c.toJson(index)];
    SumsIgnoreMetadata(c.hash, content, files);
  }

  /** The manifest text looks only at the content files. */
  lemma SumsIgnoreMetadata(hash: Bytes -> string, files: Files, files': Files)
    requires forall p :: IsContent(p) ==> (p in files <==> p in files') && (p in files ==> files[p] == files'[p])
    ensures SumsText(hash, files) == SumsText(hash, files')
  {
    hide ManifestText, StringsLeq, Encode;
    assert ContentPaths(files) == ContentPaths(files');
    StringsOrder();
    InOrderFacts(StringsLeq, ContentPaths(files));
    var paths := InOrder(StringsLeq, ContentPaths(files));
    var a, b := ContentEntries(hash, files), ContentEntries(hash, files');
    hide InOrder, MapSeq;
    forall i | 0 <= i < |paths| ensures a[i] == b[i] {
      assert paths[i] in ContentPaths(files);
    }
    assert a == b;
  }
}
