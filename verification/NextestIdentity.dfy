/** Test names split into package, binary, module path and test. */
module NextestIdentity {
  import opened Text
  import opened Nextest
  import opened NextestSummary
  import opened Wrappers

  lemma {:induction false} RSplitRejoins(s: string)
    ensures RSplitOnce(s).Some? ==> s == RSplitOnce(s).value.0 + "::" + RSplitOnce(s).value.1
  {
    if |s| >= 2 {
      if s[|s| - 2] == ':' && s[|s| - 1] == ':' {
        assert s == s[..|s| - 2] + "::";
      } else {
        RSplitRejoins(s[..|s| - 1]);
        assert s == s[..|s| - 1] + [s[|s| - 1]];
      }
    }
  }

  /** The cut is at the last `::`. */
  lemma {:induction false} RSplitExact(a: string, b: string)
    requires ':' !in b
    ensures RSplitOnce(a + "::" + b) == Some((a, b))
    decreases |b|
  {
    var s := a + "::" + b;
    if b == "" {
      assert s[..|s| - 2] == a;
    } else {
      var b' := b[..|b| - 1];
      assert s[..|s| - 1] == a + "::" + b';
      assert s[|s| - 1] == b[|b| - 1];
      assert b == b' + [b[|b| - 1]];
      RSplitExact(a, b');
    }
  }

  lemma {:induction false} RSplitNothing(s: string)
    requires ':' !in s
    ensures RSplitOnce(s) == None
  {
    if |s| >= 2 {
      RSplitNothing(s[..|s| - 1]);
    }
  }

  /** `{crate}::{binary}`, or the binary alone. */
  function Prefix(crate: Option<string>, binary: string): string {
    if crate.Some? then crate.value + "::" + binary else binary
  }

  /** `{chain}::{test}`, or the bare test of an integration binary. */
  function TestPath(chain: Option<string>, test: string): string {
    if chain.Some? then chain.value + "::" + test else test
  }

  /** The binary and the chain joined, where an empty one leaves the other alone. */
  function Joined(binary: string, chain: string): string {
    if binary != "" && chain != "" then binary + "::" + chain else binary + chain
  }

  /** Main result: a name `{crate}::{binary}${chain}::{test}`, whose crate and
      module chain may be missing, is taken apart into those parts, the binary's
      dashes turned into underscores. */
  lemma IdentityRoundTrip(crate: Option<string>, binary: string, chain: Option<string>, test: string)
    requires (crate.Some? ==> '$' !in crate.value) && '$' !in binary && ':' !in binary && ':' !in test
    ensures
      var own := Underscored(binary);
      ParseIdentity(Prefix(crate, binary) + "$" + TestPath(chain, test))
      == TestIdentity(if crate.Some? then crate.value else "", own, Joined(own, if chain.Some? then chain.value else ""), test)
  {
    hide Underscored, SplitOnce, RSplitOnce;
    var prefix, rest := Prefix(crate, binary), TestPath(chain, test);
    assert prefix + "$" + rest == prefix + ['$'] + rest;
    SplitOnceExact(prefix, '$', rest);
    RSplitNothing(binary);
    RSplitNothing(test);
    if crate.Some? {
      RSplitExact(crate.value, binary);
    }
    if chain.Some? {
      RSplitExact(chain.value, test);
    }
    UnderscoredNothing();
  }

  /** A name without `$` is all test path: no package, no binary. */
  lemma UnqualifiedName(chain: Option<string>, test: string)
    requires '$' !in TestPath(chain, test) && ':' !in test
    ensures ParseIdentity(TestPath(chain, test)) == TestIdentity("", "", if chain.Some? then chain.value else "", test)
  {
    hide Underscored, SplitOnce, RSplitOnce;
    SplitNothing(TestPath(chain, test), '$');
    RSplitNothing("");
    RSplitNothing(test);
    if chain.Some? {
      RSplitExact(chain.value, test);
    }
    UnderscoredNothing();
  }

  lemma {:induction false} SplitNothing(s: string, c: char)
    requires c !in s
    ensures SplitOnce(s, c) == None
  {
    if s != "" {
      SplitNothing(s[1..], c);
    }
  }

  lemma UnderscoredNothing()
    ensures Underscored("") == ""
  {
  }

  /** Dashes become underscores, and every other character stays. */
  lemma {:induction false} UnderscoredAt(s: string)
    ensures |Underscored(s)| == |s|
    ensures forall i :: 0 <= i < |s| ==> Underscored(s)[i] == if s[i] == '-' then '_' else s[i]
  {
    if s != "" {
      UnderscoredAt(s[1..]);
      assert Underscored(s) == [if s[0] == '-' then '_' else s[0]] + Underscored(s[1..]);
    }
  }

  /** The selector the trace uses, `{module_path}::{name}`, is the binary followed
      by everything after the `$`, except for a test path that starts with its
      last `::`, whose leading separator is dropped. */
  lemma SelectorExact(prefix: string, rest: string)
    requires '$' !in prefix && ParseIdentity(prefix + "$" + rest).binary != ""
    ensures
      var id := ParseIdentity(prefix + "$" + rest);
      var dropped := RSplitOnce(rest).Some? && RSplitOnce(rest).value.0 == "";
      id.modulePath + "::" + id.testName == id.binary + "::" + rest <==> !dropped
  {
    hide RSplitOnce, ModulePath, ParseIdentity;
    ParseSplit(prefix, rest);
    var id := ParseIdentity(prefix + "$" + rest);
    RSplitRejoins(rest);
    SelectorParts(id.binary, rest);
  }

  lemma ParseSplit(prefix: string, rest: string)
    requires '$' !in prefix
    ensures
      var id := ParseIdentity(prefix + "$" + rest);
      var (chain, test) := match RSplitOnce(rest) case Some(p) => p case None => ("", rest);
      id.modulePath == ModulePath(id.binary, chain) && id.testName == test
  {
    hide RSplitOnce, ModulePath, Underscored, SplitOnce;
    SplitOnceExact(prefix, '$', rest);
    assert prefix + "$" + rest == prefix + ['$'] + rest;
  }

  lemma SelectorParts(binary: string, rest: string)
    requires binary != "" && (RSplitOnce(rest).Some? ==> rest == RSplitOnce(rest).value.0 + "::" + RSplitOnce(rest).value.1)
    ensures
      var (chain, test) := match RSplitOnce(rest) case Some(p) => p case None => ("", rest);
      ModulePath(binary, chain) + "::" + test == binary + "::" + rest <==> RSplitOnce(rest).None? || chain != ""
  {
    hide RSplitOnce;
    if RSplitOnce(rest).Some? {
      var (chain, test) := RSplitOnce(rest).value;
      if chain == "" {
        assert |ModulePath(binary, chain) + "::" + test| < |binary + "::" + rest|;
      } else {
        assert binary + "::" + chain + "::" + test == binary + "::" + (chain + "::" + test);
      }
    }
  }
}
