/** The `SHA256SUMS` text: how it is written (`hash.rs`) and how the verifier
    reads it back (`verify/bundle.rs`). */
module Manifest {
  import opened Ordering
  import opened Text
  import opened Wrappers

  /** A bundle-relative path: its components. */
  type Path = seq<string>

  /** File names as the operating system allows them, as Unicode text: a name that
      is not valid Unicode has no counterpart here. */
  predicate Component(c: string) { c != "" && '/' !in c && c != "." && c != ".." }

  ghost predicate OsPath(p: Path) { p != [] && forall c :: c in p ==> Component(c) }

  /** `normalize_bundle_path`. */
  function PathText(p: Path): string { Replace(Join("/", p), '\\', "/") }

  /** A path whose text survives the manifest: no newline and no backslash. */
  ghost predicate TextPath(p: Path) { OsPath(p) && forall c :: c in p ==> '\n' !in c && '\\' !in c }

  /** A path that the verifier's line reader recovers too: its text does not end
      in a carriage return. */
  ghost predicate PlainPath(p: Path) {
    TextPath(p) && (p[|p| - 1] != "" ==> p[|p| - 1][|p[|p| - 1]| - 1] != '\r')
  }

  datatype Entry = Entry(digest: string, path: string)

  function EntryLine(e: Entry): string { e.digest + "  " + e.path }

  function EntryLines(entries: seq<Entry>): seq<string> { MapSeq(EntryLine, entries) }

  function ManifestText(entries: seq<Entry>): string { Join("\n", EntryLines(entries)) + "\n" }

  // -------------------------------------------------------------------- reading

  function StripCr(l: string): string { if l != "" && l[|l| - 1] == '\r' then l[..|l| - 1] else l }

  lemma {:induction false} ReadLineShorter(s: string)
    ensures ReadLine(s).Some? ==> |ReadLine(s).value.1| < |s|
    ensures ReadLine(s).Some? ==> '\n' !in ReadLine(s).value.0
  {
    if s != "" && s[0] != '\n' {
      ReadLineShorter(s[1..]);
    }
  }

  /** `str::lines`: the text between newlines, each without one trailing
      carriage return; a final newline starts no line. */
  function Lines(s: string): seq<string>
    decreases |s|
  {
    if s == "" then []
    else
      ReadLineShorter(s);
      match ReadLine(s)
      case Some((l, r)) => [StripCr(l)] + Lines(r)
      case None => [s]
  }

  /** `line.splitn(2, "  ")`. */
  function SplitEntry(line: string): Option<(string, string)> {
    if |line| < 2 then None
    else if line[0] == ' ' && line[1] == ' ' then Some(("", line[2..]))
    else
      match SplitEntry(line[1..])
      case None => None
      case Some((a, b)) => Some(([line[0]] + a, b))
  }

  predicate DigestText(d: string) { |d| == 64 && forall i :: 0 <= i < |d| ==> IsHexDigit(d[i]) }

  lemma {:induction false} SplitEntryExact(d: string, p: string)
    requires ' ' !in d
    ensures SplitEntry(d + "  " + p) == Some((d, p))
  {
    var line := d + "  " + p;
    if d == "" {
      assert line == "  " + p;
      assert line[2..] == p;
    } else {
      assert line[1..] == d[1..] + "  " + p && line[0] == d[0] != ' ';
      assert d == [d[0]] + d[1..];
      SplitEntryExact(d[1..], p);
    }
  }

  // ------------------------------------------------------------ lines read back

  predicate LineSafe(l: string) { '\n' !in l && (l == "" || l[|l| - 1] != '\r') }

  lemma {:induction false} JoinLinesCons(ls: seq<string>)
    requires ls != []
    ensures Join("\n", ls) + "\n" == ls[0] + "\n" + (if |ls| == 1 then "" else Join("\n", ls[1..]) + "\n")
  {
  }

  lemma {:induction false} LinesExact(ls: seq<string>)
    requires ls != [] && forall l :: l in ls ==> LineSafe(l)
    ensures Lines(Join("\n", ls) + "\n") == ls
  {
    JoinLinesCons(ls);
    assert ls[0] in ls;
    var rest := if |ls| == 1 then "" else Join("\n", ls[1..]) + "\n";
    ReadLineExact(ls[0], rest);
    assert StripCr(ls[0]) == ls[0];
    if |ls| > 1 {
      LinesExact(ls[1..]);
    }
    assert ls == [ls[0]] + ls[1..];
  }

  lemma {:induction false} LinesHoldNoNewline(s: string)
    ensures forall l :: l in Lines(s) ==> '\n' !in l
    decreases |s|
  {
    if s != "" {
      ReadLineShorter(s);
      if ReadLine(s).Some? {
        var (l, r) := ReadLine(s).value;
        LinesHoldNoNewline(r);
        assert forall c :: c in StripCr(l) ==> c in l;
      } else {
        NoLineNoNewline(s);
      }
    }
  }

  lemma {:induction false} NoLineNoNewline(s: string)
    requires ReadLine(s).None?
    ensures '\n' !in s
  {
    if s != "" {
      NoLineNoNewline(s[1..]);
      assert s == [s[0]] + s[1..];
    }
  }

  lemma {:induction false} LinesReadBack(ls: seq<string>)
    requires ls != [] && (forall l :: l in ls ==> '\n' !in l) && Lines(Join("\n", ls) + "\n") == ls
    ensures forall l :: l in ls ==> LineSafe(l)
  {
    JoinLinesCons(ls);
    assert ls[0] in ls;
    var rest := if |ls| == 1 then "" else Join("\n", ls[1..]) + "\n";
    ReadLineExact(ls[0], rest);
    var all := Lines(Join("\n", ls) + "\n");
    assert all == [StripCr(ls[0])] + Lines(rest);
    assert ls == [ls[0]] + ls[1..];
    assert all[0] == ls[0] && all[1..] == Lines(rest);
    if |ls| > 1 {
      LinesReadBack(ls[1..]);
    }
  }

  /** The verifier's line reader recovers a list of lines exactly when none holds
      a newline or ends in a carriage return. */
  lemma LinesExactly(ls: seq<string>)
    requires ls != []
    ensures Lines(Join("\n", ls) + "\n") == ls <==> forall l :: l in ls ==> LineSafe(l)
  {
    if forall l :: l in ls ==> LineSafe(l) {
      LinesExact(ls);
    }
    if Lines(Join("\n", ls) + "\n") == ls {
      LinesHoldNoNewline(Join("\n", ls) + "\n");
      LinesReadBack(ls);
    }
  }

  // ------------------------------------------------------------------ path texts

  /** Components of a path text: what lies between slashes, without the empty and
      `.` ones. */
  function Components(s: string): Path
    decreases |s|
  {
    match SplitSlash(s)
    case None => Kept(s)
    case Some((c, r)) => Kept(c) + Components(r)
  }

  function Kept(c: string): Path { if c == "" || c == "." then [] else [c] }

  function SplitSlash(s: string): (r: Option<(string, string)>)
    ensures r.Some? ==> |r.value.1| < |s|
  {
    if s == "" then None
    else if s[0] == '/' then Some(("", s[1..]))
    else
      match SplitSlash(s[1..])
      case None => None
      case Some((c, r)) => Some(([s[0]] + c, r))
  }

  lemma {:induction false} SplitSlashExact(c: string, r: string)
    requires '/' !in c
    ensures SplitSlash(c + "/" + r) == Some((c, r)) && SplitSlash(c) == None
  {
    if c == "" {
      assert c + "/" + r == "/" + r;
    } else {
      assert (c + "/" + r)[1..] == c[1..] + "/" + r;
      assert c == [c[0]] + c[1..];
      SplitSlashExact(c[1..], r);
    }
  }

  /** A path text is read piece by piece between its slashes, and an empty or `.` piece
      is skipped, as the system reads paths. */
  lemma {:induction false} ComponentsPieces(c: string, r: string)
    requires '/' !in c
    ensures Components(c) == if c == "" || c == "." then [] else [c]
    ensures Components(c + "/" + r) == Components(c) + Components(r)
  {
    SplitSlashExact(c, r);
  }

  lemma {:induction false} ComponentsExact(p: Path)
    requires OsPath(p)
    ensures Components(Join("/", p)) == p
  {
    assert p[0] in p;
    if |p| == 1 {
      SplitSlashExact(p[0], "");
    } else {
      SplitSlashExact(p[0], Join("/", p[1..]));
      ComponentsExact(p[1..]);
      assert p == [p[0]] + p[1..];
    }
  }

  lemma {:induction false} ReplaceNothing(s: string, c: char, r: string)
    requires c !in s
    ensures Replace(s, c, r) == s
  {
    if s != "" {
      ReplaceNothing(s[1..], c, r);
      assert s == [s[0]] + s[1..];
    }
  }

  lemma {:induction false} JoinedPath(p: Path)
    requires TextPath(p)
    ensures '\\' !in Join("/", p) && '\n' !in Join("/", p)
    ensures Join("/", p) != "" && p[0] != "" && Join("/", p)[0] == p[0][0]
    ensures p[|p| - 1] != "" && Join("/", p)[|Join("/", p)| - 1] == p[|p| - 1][|p[|p| - 1]| - 1]
  {
    assert p[0] in p;
    if |p| > 1 {
      assert forall c :: c in p[1..] ==> c in p;
      JoinedPath(p[1..]);
    }
  }

  /** The text of a path without newline or backslash leads back to the path. */
  lemma TextPathText(p: Path)
    requires TextPath(p)
    ensures PathText(p) == Join("/", p) && Components(PathText(p)) == p
    ensures '\n' !in PathText(p) && PathText(p) != "" && PathText(p)[0] != '/' && PathText(p)[0] != '\\'
  {
    JoinedPath(p);
    assert p[0] in p && p[0][0] in p[0];
    ReplaceNothing(Join("/", p), '\\', "/");
    ComponentsExact(p);
  }

  lemma {:induction false} JoinLast(p: Path)
    requires p != []
    ensures Join("/", p) == (if |p| == 1 then "" else Join("/", p[..|p| - 1]) + "/") + p[|p| - 1]
  {
    if |p| > 1 {
      JoinSnoc("/", p[..|p| - 1], p[|p| - 1]);
      assert p == p[..|p| - 1] + [p[|p| - 1]];
    }
  }

  /** A text that ends like a directory, which the system never resolves to a
      file. */
  predicate DirectoryText(s: string) { EndsWith(s, "/") || EndsWith(s, "/.") }

  lemma NotDirectoryText(p: Path)
    requires TextPath(p)
    ensures !DirectoryText(PathText(p))
  {
    hide Join, PathText;
    TextPathText(p);
    JoinLast(p);
    var last, s := p[|p| - 1], PathText(p);
    assert last in p && Component(last);
    assert s[|s| - 1] == last[|last| - 1] && last[|last| - 1] in last;
    DirectoryEnding(s);
    assert |last| == 1 ==> last == [last[0]];
    assert |last| >= 2 ==> s[|s| - 2] == last[|last| - 2] && last[|last| - 2] in last;
  }

  lemma DirectoryEnding(s: string)
    ensures DirectoryText(s) ==> s != "" && (s[|s| - 1] == '/' || (|s| >= 2 && s[|s| - 1] == '.' && s[|s| - 2] == '/'))
  {
    if EndsWith(s, "/") {
      assert s[|s| - 1..][0] == '/';
    } else if EndsWith(s, "/.") {
      assert s[|s| - 2..][0] == '/' && s[|s| - 2..][1] == '.';
    }
  }

  lemma {:induction false} ReplaceKeeps(s: string, c: char, d: char, x: char)
    ensures x in Replace(s, c, [d]) <==> (x in s && x != c) || (x == d && c in s)
  {
    if s != "" {
      ReplaceKeeps(s[1..], c, d, x);
      assert s == [s[0]] + s[1..];
    }
  }

  lemma {:induction false} JoinKeeps(p: Path, x: char)
    ensures x in Join("/", p) <==> (exists c :: c in p && x in c) || (|p| > 1 && x == '/')
  {
    if |p| > 1 {
      JoinKeeps(p[1..], x);
      assert p == [p[0]] + p[1..];
    } else if |p| == 1 {
      assert p[0] in p;
    }
  }

  /** A path whose text holds no slash is that one name: it has one component and
      no backslash. */
  lemma FlatText(p: Path)
    requires OsPath(p) && '/' !in PathText(p)
    ensures |p| == 1 && PathText(p) == p[0]
  {
    hide Join, Replace;
    ReplaceKeeps(Join("/", p), '\\', '/', '/');
    assert "/" == ['/'];
    JoinKeeps(p, '/');
    ReplaceNothing(Join("/", p), '\\', "/");
    assert |p| == 1;
    OneName(p);
  }

  lemma OneName(p: Path)
    requires |p| == 1
    ensures Join("/", p) == p[0]
  {
  }

  /** A plain path's text leads back to the path, and fits on a manifest line. */
  lemma PlainPathText(p: Path)
    requires PlainPath(p)
    ensures PathText(p) == Join("/", p) && Components(PathText(p)) == p
    ensures LineSafe(PathText(p)) && PathText(p) != "" && PathText(p)[0] != '/' && PathText(p)[0] != '\\'
  {
    JoinedPath(p);
    TextPathText(p);
  }

  function LineText(ls: seq<string>): string { Join("\n", ls) + "\n" }

  function LinesAfter(ls: seq<string>): string
    requires ls != []
  {
    if |ls| == 1 then "" else LineText(ls[1..])
  }

  lemma FirstLine(ls: seq<string>)
    requires ls != [] && '\n' !in ls[0]
    ensures ReadLine(LineText(ls)) == Some((ls[0], LinesAfter(ls)))
  {
    hide ReadLine, Join;
    JoinLinesCons(ls);
    ReadLineExact(ls[0], LinesAfter(ls));
  }

  /** A text of lines determines the lines, when none is blank or holds a
      newline. */
  lemma {:induction false} LinesInjective(a: seq<string>, b: seq<string>)
    requires forall l :: l in a || l in b ==> l != "" && '\n' !in l
    ensures LineText(a) == LineText(b) <==> a == b
  {
    hide ReadLine, LineText;
    assert a != [] ==> a[0] in a;
    assert b != [] ==> b[0] in b;
    TextLength(a);
    TextLength(b);
    if a != [] && b != [] {
      FirstLine(a);
      FirstLine(b);
      assert forall l :: l in a[1..] || l in b[1..] ==> l in a || l in b;
      LinesInjective(a[1..], b[1..]);
      TextLength(a[1..]);
      TextLength(b[1..]);
      assert a == [a[0]] + a[1..] && b == [b[0]] + b[1..];
    }
  }

  lemma TextLength(ls: seq<string>)
    ensures LineText(ls) != ""
    ensures ls != [] && ls[0] != "" ==> |LineText(ls)| > 1
    ensures ls == [] ==> |LineText(ls)| == 1
  {
  }
}
