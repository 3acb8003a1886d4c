/** Whole runs of the sealing steps after `finalize`. */
module SealingRuns {
  import opened Ordering
  import opened Text
  import opened Manifest
  import opened Encoding
  import opened BundleSealing
  import opened Wrappers

  datatype Step = Record(state: CompletenessState) | Sign(key: Bytes)

  /** A failed step leaves the directory as it was. */
  function Apply(c: Primitives, files: Files, step: Step): Files {
    var r := match step
      case Record(state) => Recorded(c, files, state)
      case Sign(key) => Signed(c, files, key);
    if r.Success? then r.value else files
  }

  function RunSteps(c: Primitives, files: Files, steps: seq<Step>): Files {
    if steps == [] then files else Apply(c, RunSteps(c, files, steps[..|steps| - 1]), steps[|steps| - 1])
  }

  /** The index stored in a directory. */
  function IndexOf(c: Primitives, files: Files): Option<Index> {
    if INDEX in files then c.fromJson(files[INDEX]) else None
  }

  lemma StepKeepsSeal(c: Primitives, files: Files, step: Step)
    requires Lawful(c) && Sealed(c, files)
    ensures Sealed(c, Apply(c, files, step))
    ensures Apply(c, files, step)[SUMS] == files[SUMS]
    ensures forall p :: IsContent(p) ==>
      (p in Apply(c, files, step) <==> p in files) && (p in files ==> Apply(c, files, step)[p] == files[p])
    ensures step.Sign? ==> Apply(c, files, step)[INDEX] == files[INDEX]
    ensures step.Record? ==>
      IndexOf(c, Apply(c, files, step)) == Some(IndexOf(c, files).value.(verification := step.state))
  {
    hide SumsText, Envelope, SignatureText;
    SumsIgnoreMetadata(c.hash, files, Apply(c, files, step));
  }

  /** Main result: whatever verification states are recorded and however often
      the bundle is signed, recomputing the manifest gives the same bytes, and
      the index still names their hash. */
  lemma {:induction false} RunKeepsSeal(c: Primitives, files: Files, steps: seq<Step>)
    requires Lawful(c) && Sealed(c, files)
    ensures
      var after := RunSteps(c, files, steps);
      && Sealed(c, after)
      && after[SUMS] == files[SUMS] == SumsText(c.hash, after)
      && IndexOf(c, after).value.contentHash == c.hash(after[SUMS])
      && (forall p :: IsContent(p) ==> (p in after <==> p in files) && (p in files ==> after[p] == files[p]))
  {
    if steps != [] {
      hide Lawful, SumsText, Apply;
      var rest := steps[..|steps| - 1];
      RunKeepsSeal(c, files, rest);
      StepKeepsSeal(c, RunSteps(c, files, rest), steps[|steps| - 1]);
    }
  }

  // --------------------------------------------------- what the manifest lists

  /** Main result: a sealed manifest has one entry for every file except the
      three of the metadata layer, in strict path order, and no other. */
  lemma ManifestListsContent(c: Primitives, files: Files)
    requires Sealed(c, files)
    ensures
      var paths := InOrder(StringsLeq, ContentPaths(files));
      var entries := ContentEntries(c.hash, files);
      && files[SUMS] == Encode(ManifestText(entries))
      && StrictlySorted(StringsLeq, paths)
      && (forall p :: p in paths <==> p in files && p != SUMS && p != INDEX && p != SIG)
      && |entries| == |paths|
      && (forall i :: 0 <= i < |paths| ==> entries[i] == Entry(c.hash(files[paths[i]]), PathText(paths[i])))
  {
    hide ManifestText, PathText, StringsLeq, Encode;
    StringsOrder();
    InOrderFacts(StringsLeq, ContentPaths(files));
    var paths := InOrder(StringsLeq, ContentPaths(files));
    forall i | 0 <= i < |paths|
      ensures paths[i] in files
      ensures ContentEntries(c.hash, files)[i] == Entry(c.hash(files[paths[i]]), PathText(paths[i]))
    {
      assert paths[i] in ContentPaths(files);
    }
  }

  // ------------------------------------------------------------------ signatures

  lemma SignatureReadsBack(c: Primitives, key: Bytes, m: Bytes)
    requires Lawful(c)
    ensures ReadHexFile(SignatureText(c.sign(key, m)), 64) == Data(c.sign(key, m))
  {
    hide HexEncode, ReadHexFile, HexFile;
    KeyFileRoundTrip(c.sign(key, m), 64);
  }

  /** The idealisation of ed25519 used below, for one key and two messages: a
      signature on `signed` does not verify for another message. */
  ghost predicate Distinguishes(c: Primitives, key: Bytes, signed: Bytes, presented: Bytes) {
    c.verify(c.publicKey(key), presented, c.sign(key, signed)) ==> presented == signed
  }

  ghost predicate EnvelopeSized(files: Files) {
    && SUMS in files && INDEX in files
    && |files[SUMS]| < U64_SIZE && |files[INDEX]| < U64_SIZE
  }

  /** A signature made over `before` verifies in `after` exactly when neither the
      manifest nor the index has changed since. */
  lemma SignatureBindsEnvelope(c: Primitives, key: Bytes, before: Files, after: Files)
    requires Lawful(c) && EnvelopeSized(before) && EnvelopeSized(after)
    requires SIG in after && after[SIG] == SignatureText(c.sign(key, Envelope(before[SUMS], before[INDEX])))
    requires Distinguishes(c, key, Envelope(before[SUMS], before[INDEX]), Envelope(after[SUMS], after[INDEX]))
    ensures SignatureCheck(c, after, c.publicKey(key))
         == Success(before[SUMS] == after[SUMS] && before[INDEX] == after[INDEX])
  {
    hide Envelope, SignatureText, ReadHexFile;
    var signed := Envelope(before[SUMS], before[INDEX]);
    SignatureReadsBack(c, key, signed);
    EnvelopeInjective(before[SUMS], before[INDEX], after[SUMS], after[INDEX]);
    assert c.verify(c.publicKey(key), signed, c.sign(key, signed));
  }

  ghost predicate OnlyRecords(steps: seq<Step>) { forall s :: s in steps ==> s.Record? }

  /** After records alone, the index differs from the old one in the last
      recorded state and nothing else. */
  lemma {:induction false} RecordsChangeOneField(c: Primitives, files: Files, steps: seq<Step>)
    requires Lawful(c) && Sealed(c, files) && OnlyRecords(steps)
    ensures
      var after := RunSteps(c, files, steps);
      && Sealed(c, after)
      && (SIG in after <==> SIG in files) && (SIG in files ==> after[SIG] == files[SIG])
      && IndexOf(c, after).Some?
      && IndexOf(c, after).value == IndexOf(c, files).value.(verification := IndexOf(c, after).value.verification)
  {
    if steps != [] {
      var rest, last := steps[..|steps| - 1], steps[|steps| - 1];
      assert last in steps;
      RecordsChangeOneField(c, files, rest);
      StepKeepsSeal(c, RunSteps(c, files, rest), last);
      hide SumsText, Sealed;
    }
  }

  /** Main result: after a bundle is signed and then only patched, its signature
      verifies exactly when the recorded verification state is again the one that
      was signed, that is, when the bytes of `index.json` are. */
  lemma SignatureTracksIndex(c: Primitives, files: Files, steps: seq<Step>, key: Bytes, patches: seq<Step>)
    requires Lawful(c) && Sealed(c, files) && OnlyRecords(patches)
    requires
      var signed := RunSteps(c, files, steps + [Sign(key)]);
      var after := RunSteps(c, signed, patches);
      && EnvelopeSized(signed) && EnvelopeSized(after)
      && Distinguishes(c, key, Envelope(signed[SUMS], signed[INDEX]), Envelope(after[SUMS], after[INDEX]))
    ensures
      var signed := RunSteps(c, files, steps + [Sign(key)]);
      var after := RunSteps(c, signed, patches);
      && IndexOf(c, signed).Some? && IndexOf(c, after).Some?
      && SignatureCheck(c, after, c.publicKey(key)) == Success(signed[INDEX] == after[INDEX])
      && (signed[INDEX] == after[INDEX] <==> IndexOf(c, signed).value.verification == IndexOf(c, after).value.verification)
  {
    var run := steps + [Sign(key)];
    assert run[..|run| - 1] == steps;
    var before := RunSteps(c, files, steps);
    var signed := RunSteps(c, files, run);
    var after := RunSteps(c, signed, patches);
    RunKeepsSeal(c, files, steps);
    RunKeepsSeal(c, files, run);
    RunKeepsSeal(c, signed, patches);
    RecordsChangeOneField(c, signed, patches);
    assert signed == Apply(c, before, Sign(key));
    hide RunSteps, SumsText, Envelope, SignatureText, SignatureCheck, EnvelopeSized, Distinguishes;
    assert signed[SIG] == SignatureText(c.sign(key, Envelope(signed[SUMS], signed[INDEX])));
    SignatureBindsEnvelope(c, key, signed, after);
  }
}
