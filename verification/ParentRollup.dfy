/** The parent roll-up of a context report (`context/lookup.rs`): the HLR and SYS
    entries above a list of LLRs. */
module ParentRollup {
  import opened Ordering
  import opened Wrappers

  datatype Entry = Entry(uid: Option<string>, id: string, title: string, tracesTo: seq<string>)

  datatype Layer = Hlr | Sys

  datatype ParentRef = ParentRef(id: string, uid: string, layer: Layer, title: string, tracesTo: seq<string>)

  type Pool = map<string, Entry>

  /** Entries by uid; of two with the same uid the last one stays. */
  function ByUid(pool: seq<Entry>): (r: Pool)
    ensures forall u :: u in r ==> r[u].uid == Some(u) && r[u] in pool
    ensures forall e :: e in pool && e.uid.Some? ==> e.uid.value in r
  {
    if pool == [] then map[]
    else
      var last := pool[|pool| - 1];
      var rest := ByUid(pool[..|pool| - 1]);
      if last.uid.Some? then rest[last.uid.value := last] else rest
  }

  function RowOf(layer: Layer, e: Entry): ParentRef {
    ParentRef(e.id, if e.uid.Some? then e.uid.value else "", layer, e.title, e.tracesTo)
  }

  /** Of several entries with a uid, the last one is found. */
  lemma {:induction false} LastEntryWins(pool: seq<Entry>, i: nat)
    requires i < |pool| && pool[i].uid.Some? && forall j :: i < j < |pool| ==> pool[j].uid != pool[i].uid
    ensures pool[i].uid.value in ByUid(pool) && ByUid(pool)[pool[i].uid.value] == pool[i]
  {
    var rest := pool[..|pool| - 1];
    if i < |pool| - 1 {
      assert forall j :: 0 <= j < |rest| ==> rest[j] == pool[j];
      LastEntryWins(rest, i);
    }
  }

  datatype Walked = Walked(seen: set<string>, rows: seq<ParentRef>)

  function Grandparents(sys: Pool, uids: seq<string>, w: Walked): Walked
    decreases |uids|
  {
    if uids == [] then w
    else if uids[0] in w.seen then Grandparents(sys, uids[1..], w)
    else
      var rows := if uids[0] in sys then w.rows + [RowOf(Sys, sys[uids[0]])] else w.rows;
      Grandparents(sys, uids[1..], Walked(w.seen + {uids[0]}, rows))
  }

  /** The walk above one parent uid. */
  function OneStep(hlr: Pool, sys: Pool, u: string, w: Walked): Walked {
    if u in w.seen then w
    else if u in hlr then Grandparents(sys, hlr[u].tracesTo, Walked(w.seen + {u}, w.rows + [RowOf(Hlr, hlr[u])]))
    else Walked(w.seen + {u}, w.rows)
  }

  function Parents(hlr: Pool, sys: Pool, uids: seq<string>, w: Walked): Walked
    decreases |uids|
  {
    if uids == [] then w else Parents(hlr, sys, uids[1..], OneStep(hlr, sys, uids[0], w))
  }

  function Walk(hlr: Pool, sys: Pool, llrs: seq<Entry>, w: Walked): Walked
    decreases |llrs|
  {
    if llrs == [] then w else Walk(hlr, sys, llrs[1..], Parents(hlr, sys, llrs[0].tracesTo, w))
  }

  method WalkGrandparents(sys: Pool, uids: seq<string>, w: Walked) returns (r: Walked)
    ensures r == Grandparents(sys, uids, w)
  {
    var seen, rows := w.seen, w.rows;
    var i := 0;
    while i < |uids|
      invariant 0 <= i <= |uids|
      invariant Grandparents(sys, uids, w) == Grandparents(sys, uids[i..], Walked(seen, rows))
    {
      if uids[i] !in seen {
        seen := seen + {uids[i]};
        if uids[i] in sys {
          rows := rows + [RowOf(Sys, sys[uids[i]])];
        }
      }
      i := i + 1;
    }
    r := Walked(seen, rows);
  }

  method WalkParents(hlr: Pool, sys: Pool, uids: seq<string>, w: Walked) returns (r: Walked)
    ensures r == Parents(hlr, sys, uids, w)
  {
    hide Grandparents;
    r := w;
    var i := 0;
    while i < |uids|
      invariant 0 <= i <= |uids|
      invariant Parents(hlr, sys, uids, w) == Parents(hlr, sys, uids[i..], r)
    {
      if uids[i] !in r.seen {
        r := r.(seen := r.seen + {uids[i]});
        if uids[i] in hlr {
          r := r.(rows := r.rows + [RowOf(Hlr, hlr[uids[i]])]);
          r := WalkGrandparents(sys, hlr[uids[i]].tracesTo, r);
        }
      }
      i := i + 1;
    }
  }

  function IdOf(r: ParentRef): string { r.id }

  function RolledUp(llrs: seq<Entry>, hlrPool: seq<Entry>, sysPool: seq<Entry>): seq<ParentRef> {
    SortBy(IdOf, StringLeq, Walk(ByUid(hlrPool), ByUid(sysPool), llrs, Walked({}, [])).rows)
  }

  method RollUpParents(llrs: seq<Entry>, hlrPool: seq<Entry>, sysPool: seq<Entry>) returns (rows: seq<ParentRef>)
    ensures rows == RolledUp(llrs, hlrPool, sysPool)
  {
    hide Parents, SortBy, StringLeq;
    var hlr, sys := ByUid(hlrPool), ByUid(sysPool);
    var w := Walked({}, []);
    var i := 0;
    while i < |llrs|
      invariant 0 <= i <= |llrs|
      invariant Walk(hlr, sys, llrs, Walked({}, [])) == Walk(hlr, sys, llrs[i..], w)
    {
      w := WalkParents(hlr, sys, llrs[i].tracesTo, w);
      i := i + 1;
    }
    rows := SortBy(IdOf, StringLeq, w.rows);
  }

  // ------------------------------------------------------------- what it means

  ghost predicate ReachedHlr(hlr: Pool, llrs: seq<Entry>, u: string) {
    u in hlr && exists l :: l in llrs && u in l.tracesTo
  }

  ghost predicate ReachedSys(hlr: Pool, sys: Pool, llrs: seq<Entry>, g: string) {
    g in sys && exists u :: ReachedHlr(hlr, llrs, u) && g in hlr[u].tracesTo
  }

  /** The row shows the entry: its uid, id, title and links. */
  predicate Shows(r: ParentRef, e: Entry) { e.uid == Some(r.uid) && r.id == e.id && r.title == e.title && r.tracesTo == e.tracesTo }

  /** The row of an HLR named by some LLR, or of a SYS entry named by such an HLR. */
  ghost predicate IsParent(hlr: Pool, sys: Pool, llrs: seq<Entry>, r: ParentRef) {
    match r.layer
    case Hlr => ReachedHlr(hlr, llrs, r.uid) && Shows(r, hlr[r.uid])
    case Sys => ReachedSys(hlr, sys, llrs, r.uid) && Shows(r, sys[r.uid])
  }

  /** No LLR names a SYS uid, and no HLR that an LLR names names an HLR uid. */
  ghost predicate Layered(hlr: Pool, sys: Pool, llrs: seq<Entry>) {
    && (forall l, u :: l in llrs && u in l.tracesTo ==> u !in sys)
    && (forall u, g :: ReachedHlr(hlr, llrs, u) && g in hlr[u].tracesTo ==> g !in hlr)
  }

  ghost predicate Keyed(p: Pool) { forall u :: u in p ==> p[u].uid == Some(u) }

  function UidOf(r: ParentRef): string { r.uid }

  /** What the walk keeps: rows are parents, each under a uid that is seen, each
      uid once. */
  ghost predicate Sound(hlr: Pool, sys: Pool, llrs: seq<Entry>, w: Walked) {
    && DistinctKeys(UidOf, w.rows)
    && forall r :: r in w.rows ==> r.uid in w.seen && IsParent(hlr, sys, llrs, r)
  }

  lemma AddRow(hlr: Pool, sys: Pool, llrs: seq<Entry>, w: Walked, r: ParentRef)
    requires Sound(hlr, sys, llrs, w) && r.uid !in w.seen && IsParent(hlr, sys, llrs, r)
    ensures Sound(hlr, sys, llrs, Walked(w.seen + {r.uid}, w.rows + [r]))
  {
    hide IsParent;
    var rows := w.rows + [r];
    forall i, j | 0 <= i < j < |rows| ensures UidOf(rows[i]) != UidOf(rows[j]) {
      assert rows[i] in w.rows;
    }
  }

  lemma {:induction false} GrandparentsSound(hlr: Pool, sys: Pool, llrs: seq<Entry>, u: string, uids: seq<string>, w: Walked)
    requires Keyed(sys) && Sound(hlr, sys, llrs, w)
    requires ReachedHlr(hlr, llrs, u) && forall g :: g in uids ==> g in hlr[u].tracesTo
    ensures var r := Grandparents(sys, uids, w);
            Sound(hlr, sys, llrs, r) && r.seen == w.seen + (set g | g in uids) && forall x :: x in w.rows ==> x in r.rows
    decreases |uids|
  {
    hide Sound, ReachedHlr;
    if uids != [] {
      var g, rest := uids[0], uids[1..];
      assert uids == [g] + rest;
      var next := w;
      if g !in w.seen {
        next := Walked(w.seen + {g}, if g in sys then w.rows + [RowOf(Sys, sys[g])] else w.rows);
        if g in sys {
          assert ReachedSys(hlr, sys, llrs, g);
          AddRow(hlr, sys, llrs, w, RowOf(Sys, sys[g]));
        } else {
          SeenMore(hlr, sys, llrs, w, g);
        }
      }
      GrandparentsSound(hlr, sys, llrs, u, rest, next);
    }
  }

  lemma SeenMore(hlr: Pool, sys: Pool, llrs: seq<Entry>, w: Walked, g: string)
    requires Sound(hlr, sys, llrs, w)
    ensures Sound(hlr, sys, llrs, Walked(w.seen + {g}, w.rows))
  {
  }

  lemma {:induction false} ParentsSound(hlr: Pool, sys: Pool, llrs: seq<Entry>, l: Entry, uids: seq<string>, w: Walked)
    requires Keyed(hlr) && Keyed(sys) && Sound(hlr, sys, llrs, w)
    requires l in llrs && forall u :: u in uids ==> u in l.tracesTo
    ensures var r := Parents(hlr, sys, uids, w);
            Sound(hlr, sys, llrs, r) && (forall x :: x in w.rows ==> x in r.rows)
    decreases |uids|
  {
    hide Sound, Grandparents;
    if uids != [] {
      var u, rest := uids[0], uids[1..];
      assert uids == [u] + rest;
      if u in w.seen {
        ParentsSound(hlr, sys, llrs, l, rest, w);
      } else if u in hlr {
        assert ReachedHlr(hlr, llrs, u);
        AddRow(hlr, sys, llrs, w, RowOf(Hlr, hlr[u]));
        var own := Walked(w.seen + {u}, w.rows + [RowOf(Hlr, hlr[u])]);
        GrandparentsSound(hlr, sys, llrs, u, hlr[u].tracesTo, own);
        ParentsSound(hlr, sys, llrs, l, rest, Grandparents(sys, hlr[u].tracesTo, own));
      } else {
        SeenMore(hlr, sys, llrs, w, u);
        ParentsSound(hlr, sys, llrs, l, rest, Walked(w.seen + {u}, w.rows));
      }
    }
  }

  lemma {:induction false} WalkSound(hlr: Pool, sys: Pool, all: seq<Entry>, llrs: seq<Entry>, w: Walked)
    requires Keyed(hlr) && Keyed(sys) && Sound(hlr, sys, all, w)
    requires forall l :: l in llrs ==> l in all
    ensures Sound(hlr, sys, all, Walk(hlr, sys, llrs, w))
    decreases |llrs|
  {
    hide Sound, Parents;
    if llrs != [] {
      assert llrs == [llrs[0]] + llrs[1..];
      ParentsSound(hlr, sys, all, llrs[0], llrs[0].tracesTo, w);
      WalkSound(hlr, sys, all, llrs[1..], Parents(hlr, sys, llrs[0].tracesTo, w));
    }
  }

  // ---------------------------------------------- the order of the mentions

  /** A uid named at one layer: by an LLR, or by an HLR that an LLR names. */
  datatype Mention = Mention(layer: Layer, uid: string)

  function GrandMentions(uids: seq<string>): (r: seq<Mention>)
    ensures forall m :: m in r <==> m.layer == Sys && m.uid in uids
  {
    if uids == [] then [] else [Mention(Sys, uids[0])] + GrandMentions(uids[1..])
  }

  function MentionsOf(hlr: Pool, u: string): seq<Mention> {
    [Mention(Hlr, u)] + if u in hlr then GrandMentions(hlr[u].tracesTo) else []
  }

  function ParentMentions(hlr: Pool, uids: seq<string>): seq<Mention> {
    if uids == [] then [] else MentionsOf(hlr, uids[0]) + ParentMentions(hlr, uids[1..])
  }

  /** Every mention in the order of the trace, whatever was seen before. */
  function Mentions(hlr: Pool, llrs: seq<Entry>): seq<Mention> {
    if llrs == [] then [] else ParentMentions(hlr, llrs[0].tracesTo) + Mentions(hlr, llrs[1..])
  }

  /** The layer at which a uid is first mentioned. */
  function First(ms: seq<Mention>, u: string): Option<Layer> {
    if ms == [] then None else if ms[0].uid == u then Some(ms[0].layer) else First(ms[1..], u)
  }

  function PoolAt(hlr: Pool, sys: Pool, layer: Layer): Pool { if layer == Hlr then hlr else sys }

  /** A uid that names an entry at the layer where it is mentioned is first
      mentioned at that layer. */
  ghost predicate ProperlyMet(hlr: Pool, sys: Pool, ms: seq<Mention>) {
    forall m :: m in ms && m.uid in PoolAt(hlr, sys, m.layer) ==> First(ms, m.uid) == Some(m.layer)
  }

  lemma {:induction false} FirstConcat(a: seq<Mention>, b: seq<Mention>, u: string)
    ensures First(a + b, u) == if First(a, u).Some? then First(a, u) else First(b, u)
    ensures First(a, u).Some? <==> exists m :: m in a && m.uid == u
  {
    if a == [] {
      assert a + b == b;
    } else {
      assert (a + b)[1..] == a[1..] + b;
      FirstConcat(a[1..], b, u);
      assert a == [a[0]] + a[1..];
    }
  }

  function Meet(hlr: Pool, sys: Pool, w: Walked, m: Mention): Walked {
    if m.uid in w.seen then w
    else
      var pool := PoolAt(hlr, sys, m.layer);
      Walked(w.seen + {m.uid}, if m.uid in pool then w.rows + [RowOf(m.layer, pool[m.uid])] else w.rows)
  }

  function Run(hlr: Pool, sys: Pool, ms: seq<Mention>, w: Walked): Walked
    decreases |ms|
  {
    if ms == [] then w else Run(hlr, sys, ms[1..], Meet(hlr, sys, w, ms[0]))
  }

  lemma {:induction false} RunConcat(hlr: Pool, sys: Pool, a: seq<Mention>, b: seq<Mention>, w: Walked)
    ensures Run(hlr, sys, a + b, w) == Run(hlr, sys, b, Run(hlr, sys, a, w))
    decreases |a|
  {
    hide Meet;
    if a == [] {
      assert a + b == b;
    } else {
      assert (a + b)[1..] == a[1..] + b;
      RunConcat(hlr, sys, a[1..], b, Meet(hlr, sys, w, a[0]));
    }
  }

  const START := Walked({}, [])

  ghost predicate RowFor(hlr: Pool, sys: Pool, ms: seq<Mention>, r: ParentRef) {
    var pool := PoolAt(hlr, sys, r.layer);
    First(ms, r.uid) == Some(r.layer) && r.uid in pool && r == RowOf(r.layer, pool[r.uid])
  }

  /** Met in order, a uid gets a row exactly when it names an entry at the layer
      of its first mention. */
  lemma {:induction false} RunRows(hlr: Pool, sys: Pool, ms: seq<Mention>)
    requires Keyed(hlr) && Keyed(sys)
    ensures var w := Run(hlr, sys, ms, START);
            (forall u :: u in w.seen <==> First(ms, u).Some?) && forall r :: r in w.rows <==> RowFor(hlr, sys, ms, r)
    decreases |ms|
  {
    if ms != [] {
      var n := |ms| - 1;
      var init, m := ms[..n], ms[n];
      assert ms == init + [m];
      RunRows(hlr, sys, init);
      RunConcat(hlr, sys, init, [m], START);
      assert [m][1..] == [];
      forall u ensures First(ms, u) == if First(init, u).Some? then First(init, u) else if m.uid == u then Some(m.layer) else None {
        FirstConcat(init, [m], u);
      }
    }
  }

  lemma {:induction false} GrandRun(hlr: Pool, sys: Pool, uids: seq<string>, w: Walked)
    ensures Run(hlr, sys, GrandMentions(uids), w) == Grandparents(sys, uids, w)
    decreases |uids|
  {
    if uids != [] {
      assert GrandMentions(uids)[1..] == GrandMentions(uids[1..]);
      GrandRun(hlr, sys, uids[1..], Meet(hlr, sys, w, Mention(Sys, uids[0])));
    }
  }

  lemma {:induction false} NothingNew(hlr: Pool, sys: Pool, ms: seq<Mention>, w: Walked)
    requires forall m :: m in ms ==> m.uid in w.seen
    ensures Run(hlr, sys, ms, w) == w
    decreases |ms|
  {
    if ms != [] {
      NothingNew(hlr, sys, ms[1..], w);
    }
  }

  /** A reported HLR has had its own parents walked. */
  ghost predicate Opened(hlr: Pool, w: Walked) {
    forall u, g :: u in hlr && RowOf(Hlr, hlr[u]) in w.rows && g in hlr[u].tracesTo ==> g in w.seen
  }

  /** Unless a named HLR was seen without being reported, walking above it is
      meeting its mentions in order. */
  lemma OneStepIsRun(hlr: Pool, sys: Pool, u: string, w: Walked)
    requires Keyed(hlr) && Keyed(sys) && Opened(hlr, w)
    requires u in w.seen && u in hlr ==> RowOf(Hlr, hlr[u]) in w.rows
    ensures OneStep(hlr, sys, u, w) == Run(hlr, sys, MentionsOf(hlr, u), w)
    ensures Opened(hlr, OneStep(hlr, sys, u, w))
  {
    hide Grandparents, Run;
    var rest := if u in hlr then GrandMentions(hlr[u].tracesTo) else [];
    RunConcat(hlr, sys, [Mention(Hlr, u)], rest, w);
    RunOne(hlr, sys, Mention(Hlr, u), w);
    if u in w.seen {
      NothingNew(hlr, sys, rest, w);
    } else if u in hlr {
      var own := Walked(w.seen + {u}, w.rows + [RowOf(Hlr, hlr[u])]);
      GrandRun(hlr, sys, hlr[u].tracesTo, own);
      GrandparentsGrow(sys, hlr[u].tracesTo, own);
      OpenedStep(hlr, sys, u, w, Grandparents(sys, hlr[u].tracesTo, own));
    } else {
      NothingNew(hlr, sys, rest, Walked(w.seen + {u}, w.rows));
    }
  }

  lemma OpenedStep(hlr: Pool, sys: Pool, u: string, w: Walked, f: Walked)
    requires Keyed(hlr) && Opened(hlr, w) && w.seen <= f.seen && u in hlr
    requires forall g :: g in hlr[u].tracesTo ==> g in f.seen
    requires forall r :: r in f.rows ==> r in w.rows || r == RowOf(Hlr, hlr[u]) || r.layer == Sys
    ensures Opened(hlr, f)
  {
    forall v, g | v in hlr && RowOf(Hlr, hlr[v]) in f.rows && g in hlr[v].tracesTo ensures g in f.seen {
      assert RowOf(Hlr, hlr[v]).uid == v;
    }
  }

  lemma RunOne(hlr: Pool, sys: Pool, m: Mention, w: Walked)
    ensures Run(hlr, sys, [m], w) == Meet(hlr, sys, w, m) && Run(hlr, sys, [], w) == w
  {
    hide Meet;
    assert [m][1..] == [];
  }

  /** A later state: a uid that was seen before gets no row any more. */
  ghost predicate Grows(w: Walked, f: Walked) {
    w.seen <= f.seen && forall r :: r in f.rows ==> r in w.rows || r.uid !in w.seen
  }

  lemma {:induction false} GrandparentsGrow(sys: Pool, uids: seq<string>, w: Walked)
    requires Keyed(sys)
    ensures var f := Grandparents(sys, uids, w);
            Grows(w, f) && (forall g :: g in uids ==> g in f.seen) && forall r :: r in f.rows ==> r in w.rows || r.layer == Sys
    decreases |uids|
  {
    if uids != [] {
      var g := uids[0];
      assert uids == [g] + uids[1..];
      var next := if g in w.seen then w else Walked(w.seen + {g}, if g in sys then w.rows + [RowOf(Sys, sys[g])] else w.rows);
      GrandparentsGrow(sys, uids[1..], next);
    }
  }

  lemma {:induction false} ParentsGrow(hlr: Pool, sys: Pool, uids: seq<string>, w: Walked)
    requires Keyed(hlr) && Keyed(sys)
    ensures Grows(w, Parents(hlr, sys, uids, w))
    decreases |uids|
  {
    hide Grandparents;
    if uids != [] {
      var u := uids[0];
      if u in w.seen {
        ParentsGrow(hlr, sys, uids[1..], w);
      } else if u in hlr {
        var own := Walked(w.seen + {u}, w.rows + [RowOf(Hlr, hlr[u])]);
        GrandparentsGrow(sys, hlr[u].tracesTo, own);
        ParentsGrow(hlr, sys, uids[1..], Grandparents(sys, hlr[u].tracesTo, own));
      } else {
        ParentsGrow(hlr, sys, uids[1..], Walked(w.seen + {u}, w.rows));
      }
    }
  }

  lemma {:induction false} WalkGrows(hlr: Pool, sys: Pool, llrs: seq<Entry>, w: Walked)
    requires Keyed(hlr) && Keyed(sys)
    ensures Grows(w, Walk(hlr, sys, llrs, w))
    decreases |llrs|
  {
    hide Parents;
    if llrs != [] {
      ParentsGrow(hlr, sys, llrs[0].tracesTo, w);
      WalkGrows(hlr, sys, llrs[1..], Parents(hlr, sys, llrs[0].tracesTo, w));
    }
  }

  // -------------------------------------------------- the walk meets in order

  /** Either the mentions are properly met, or the final rows `f` are known to
      hold every HLR still to be named: both mean that no named HLR was seen
      without being reported. */
  ghost predicate NoneLost(hlr: Pool, sys: Pool, pre: seq<Mention>, rest: seq<Mention>, f: Walked, w: Walked) {
    || ProperlyMet(hlr, sys, pre + rest)
    || (Grows(w, f) && forall u :: u in hlr && Mention(Hlr, u) in rest ==> RowOf(Hlr, hlr[u]) in f.rows)
  }

  lemma NotLost(hlr: Pool, sys: Pool, u: string, pre: seq<Mention>, rest: seq<Mention>, f: Walked, w: Walked)
    requires Keyed(hlr) && Keyed(sys) && w == Run(hlr, sys, pre, START)
    requires NoneLost(hlr, sys, pre, rest, f, w) && Mention(Hlr, u) in rest && u in w.seen && u in hlr
    ensures RowOf(Hlr, hlr[u]) in w.rows
  {
    hide Run;
    RunRows(hlr, sys, pre);
    if ProperlyMet(hlr, sys, pre + rest) {
      FirstConcat(pre, rest, u);
      assert Mention(Hlr, u) in pre + rest;
      assert RowFor(hlr, sys, pre, RowOf(Hlr, hlr[u]));
    }
  }

  lemma {:induction false} ParentsAreRun(hlr: Pool, sys: Pool, uids: seq<string>, pre: seq<Mention>, post: seq<Mention>, f: Walked, w: Walked)
    requires Keyed(hlr) && Keyed(sys) && w == Run(hlr, sys, pre, START) && Opened(hlr, w)
    requires NoneLost(hlr, sys, pre, ParentMentions(hlr, uids) + post, f, w)
    requires ProperlyMet(hlr, sys, pre + (ParentMentions(hlr, uids) + post)) || Grows(Parents(hlr, sys, uids, w), f)
    ensures var r := Parents(hlr, sys, uids, w);
            r == Run(hlr, sys, pre + ParentMentions(hlr, uids), START) && Opened(hlr, r)
    decreases |uids|
  {
    hide Parents, Run, Opened, Grows, ProperlyMet, MentionsOf, OneStep;
    if uids == [] {
      assert pre + ParentMentions(hlr, uids) == pre;
      NoParents(hlr, sys, w);
    } else {
      var u, more := uids[0], uids[1..];
      var own := MentionsOf(hlr, u);
      var all := ParentMentions(hlr, uids) + post;
      var rest := ParentMentions(hlr, more) + post;
      assert all == own + rest;
      assert pre + all == (pre + own) + rest;
      OwnMention(hlr, u);
      assert Mention(Hlr, u) in all;
      if u in w.seen && u in hlr {
        NotLost(hlr, sys, u, pre, all, f, w);
      }
      OneStepIsRun(hlr, sys, u, w);
      var next := OneStep(hlr, sys, u, w);
      RunConcat(hlr, sys, pre, own, START);
      ParentsStep(hlr, sys, uids, w);
      ParentsGrow(hlr, sys, more, next);
      if !ProperlyMet(hlr, sys, pre + all) {
        GrowsOn(next, Parents(hlr, sys, more, next), f);
      }
      ParentsAreRun(hlr, sys, more, pre + own, post, f, next);
      assert pre + own + ParentMentions(hlr, more) == pre + ParentMentions(hlr, uids);
    }
  }

  lemma OwnMention(hlr: Pool, u: string)
    ensures Mention(Hlr, u) in MentionsOf(hlr, u)
  {
    assert MentionsOf(hlr, u)[0] == Mention(Hlr, u);
  }

  lemma ParentsStep(hlr: Pool, sys: Pool, uids: seq<string>, w: Walked)
    requires uids != []
    ensures Parents(hlr, sys, uids, w) == Parents(hlr, sys, uids[1..], OneStep(hlr, sys, uids[0], w))
  {
  }

  lemma NoParents(hlr: Pool, sys: Pool, w: Walked)
    ensures Parents(hlr, sys, [], w) == w
  {
  }

  lemma GrowsOn(a: Walked, b: Walked, c: Walked)
    requires Grows(a, b) && Grows(b, c)
    ensures Grows(a, c)
  {
  }

  lemma {:induction false} WalkIsRun(hlr: Pool, sys: Pool, llrs: seq<Entry>, pre: seq<Mention>, f: Walked, w: Walked)
    requires Keyed(hlr) && Keyed(sys) && w == Run(hlr, sys, pre, START) && Opened(hlr, w)
    requires NoneLost(hlr, sys, pre, Mentions(hlr, llrs), f, w) && f == Walk(hlr, sys, llrs, w)
    ensures f == Run(hlr, sys, pre + Mentions(hlr, llrs), START)
    decreases |llrs|
  {
    hide Parents, Run, Opened, Grows, ProperlyMet, ParentMentions;
    if llrs == [] {
      assert pre + Mentions(hlr, llrs) == pre;
    } else {
      var uids, more := llrs[0].tracesTo, llrs[1..];
      var own, rest := ParentMentions(hlr, uids), Mentions(hlr, more);
      var next := Parents(hlr, sys, uids, w);
      WalkGrows(hlr, sys, more, next);
      ParentsAreRun(hlr, sys, uids, pre, rest, f, w);
      assert pre + (own + rest) == (pre + own) + rest;
      WalkIsRun(hlr, sys, more, pre + own, f, next);
    }
  }

  // ------------------------------------------------------------ completeness

  lemma {:induction false} ParentMentionsMeaning(hlr: Pool, uids: seq<string>, m: Mention)
    ensures m in ParentMentions(hlr, uids) <==>
            if m.layer == Hlr then m.uid in uids else exists u :: u in uids && u in hlr && m.uid in hlr[u].tracesTo
  {
    if uids != [] {
      assert uids == [uids[0]] + uids[1..];
      ParentMentionsMeaning(hlr, uids[1..], m);
    }
  }

  lemma {:induction false} MentionsMeaning(hlr: Pool, sys: Pool, llrs: seq<Entry>, m: Mention)
    ensures m in Mentions(hlr, llrs) && m.uid in PoolAt(hlr, sys, m.layer) <==>
            if m.layer == Hlr then ReachedHlr(hlr, llrs, m.uid) else ReachedSys(hlr, sys, llrs, m.uid)
  {
    hide ParentMentions;
    if llrs != [] {
      assert llrs == [llrs[0]] + llrs[1..];
      MentionsMeaning(hlr, sys, llrs[1..], m);
      ParentMentionsMeaning(hlr, llrs[0].tracesTo, m);
    }
  }

  /** Whatever the trace holds, every row is a parent, no uid is listed twice,
      and the rows are sorted by id. */
  lemma RollUpSound(llrs: seq<Entry>, hlrPool: seq<Entry>, sysPool: seq<Entry>)
    ensures var rows := RolledUp(llrs, hlrPool, sysPool);
            DistinctKeys(UidOf, rows) && (forall i, j :: 0 <= i < j < |rows| ==> StringLeq(rows[i].id, rows[j].id)) && forall r :: r in rows ==> IsParent(ByUid(hlrPool), ByUid(sysPool), llrs, r)
  {
    hide Walk, StringLeq, SortBy, IsParent, DistinctKeys, SortedBy, ByUid;
    var hlr, sys := ByUid(hlrPool), ByUid(sysPool);
    NothingWalked(hlr, sys, llrs);
    WalkSound(hlr, sys, llrs, llrs, Walked({}, []));
    var rows := Walk(hlr, sys, llrs, START).rows;
    StringOrder();
    SortByFacts(IdOf, StringLeq, rows);
    DistinctKeysPermute(UidOf, rows, SortBy(IdOf, StringLeq, rows));
    PermutationElements(rows, SortBy(IdOf, StringLeq, rows));
  }

  lemma NothingWalked(hlr: Pool, sys: Pool, llrs: seq<Entry>)
    ensures Sound(hlr, sys, llrs, START)
  {
  }

  lemma StartIsOpen(hlr: Pool, sys: Pool)
    ensures Opened(hlr, START) && Run(hlr, sys, [], START) == START
  {
  }

  lemma ParentsAreMentions(hlr: Pool, sys: Pool, llrs: seq<Entry>, r: ParentRef)
    requires Keyed(hlr) && Keyed(sys)
    ensures IsParent(hlr, sys, llrs, r) <==>
            var pool := PoolAt(hlr, sys, r.layer);
            Mention(r.layer, r.uid) in Mentions(hlr, llrs) && r.uid in pool && r == RowOf(r.layer, pool[r.uid])
  {
    hide Mentions, ReachedHlr, ReachedSys;
    MentionsMeaning(hlr, sys, llrs, Mention(r.layer, r.uid));
  }

  /** Met in order, the mentions give every parent a row exactly when they are
      properly met. */
  lemma RunCompleteExactly(hlr: Pool, sys: Pool, llrs: seq<Entry>)
    requires Keyed(hlr) && Keyed(sys)
    ensures var ms := Mentions(hlr, llrs);
            (forall r :: IsParent(hlr, sys, llrs, r) ==> r in Run(hlr, sys, ms, START).rows) <==> ProperlyMet(hlr, sys, ms)
  {
    hide Mentions, Run, IsParent;
    var ms := Mentions(hlr, llrs);
    RunRows(hlr, sys, ms);
    forall r { ParentsAreMentions(hlr, sys, llrs, r); }
    if forall r :: IsParent(hlr, sys, llrs, r) ==> r in Run(hlr, sys, ms, START).rows {
      forall m | m in ms && m.uid in PoolAt(hlr, sys, m.layer) ensures First(ms, m.uid) == Some(m.layer) {
        assert IsParent(hlr, sys, llrs, RowOf(m.layer, PoolAt(hlr, sys, m.layer)[m.uid]));
      }
    }
  }

  /** The walk misses no parent exactly when the mentions are properly met. */
  lemma WalkCompleteExactly(hlr: Pool, sys: Pool, llrs: seq<Entry>)
    requires Keyed(hlr) && Keyed(sys)
    ensures (forall r :: IsParent(hlr, sys, llrs, r) ==> r in Walk(hlr, sys, llrs, START).rows) <==> ProperlyMet(hlr, sys, Mentions(hlr, llrs))
  {
    hide Walk, Mentions, Run, Opened, IsParent, ProperlyMet, START, PoolAt;
    var ms, f := Mentions(hlr, llrs), Walk(hlr, sys, llrs, START);
    assert [] + ms == ms;
    StartIsOpen(hlr, sys);
    WalkGrows(hlr, sys, llrs, START);
    RunCompleteExactly(hlr, sys, llrs);
    if ProperlyMet(hlr, sys, ms) {
      WalkIsRun(hlr, sys, llrs, [], f, START);
    } else if forall r :: IsParent(hlr, sys, llrs, r) ==> r in f.rows {
      forall u | u in hlr && Mention(Hlr, u) in ms ensures RowOf(Hlr, hlr[u]) in f.rows {
        NamedIsParent(hlr, sys, llrs, u);
      }
      WalkIsRun(hlr, sys, llrs, [], f, START);
    }
  }

  lemma NamedIsParent(hlr: Pool, sys: Pool, llrs: seq<Entry>, u: string)
    requires Keyed(hlr) && Keyed(sys) && u in hlr && Mention(Hlr, u) in Mentions(hlr, llrs)
    ensures IsParent(hlr, sys, llrs, RowOf(Hlr, hlr[u]))
  {
    hide Mentions, IsParent;
    ParentsAreMentions(hlr, sys, llrs, RowOf(Hlr, hlr[u]));
  }

  /** Main result: the rows are exactly the parents, the HLRs the LLRs name and
      the SYS entries those name, if and only if every such uid is first
      mentioned, in the order of the trace, at the layer of its entry. */
  lemma RollUpExactly(llrs: seq<Entry>, hlrPool: seq<Entry>, sysPool: seq<Entry>)
    ensures var hlr, sys := ByUid(hlrPool), ByUid(sysPool);
            (forall r :: r in RolledUp(llrs, hlrPool, sysPool) <==> IsParent(hlr, sys, llrs, r)) <==> ProperlyMet(hlr, sys, Mentions(hlr, llrs))
  {
    hide Walk, StringLeq, SortBy, ByUid, ProperlyMet, IsParent, Mentions, DistinctKeys;
    RollUpSound(llrs, hlrPool, sysPool);
    WalkCompleteExactly(ByUid(hlrPool), ByUid(sysPool), llrs);
    var rows := Walk(ByUid(hlrPool), ByUid(sysPool), llrs, START).rows;
    StringOrder();
    SortByFacts(IdOf, StringLeq, rows);
    PermutationElements(rows, SortBy(IdOf, StringLeq, rows));
  }

  /** In particular when the layers are kept apart. */
  lemma LayeredIsExact(llrs: seq<Entry>, hlrPool: seq<Entry>, sysPool: seq<Entry>)
    requires Layered(ByUid(hlrPool), ByUid(sysPool), llrs)
    ensures forall r :: r in RolledUp(llrs, hlrPool, sysPool) <==> IsParent(ByUid(hlrPool), ByUid(sysPool), llrs, r)
  {
    hide ByUid, RolledUp, IsParent, Mentions;
    var hlr, sys := ByUid(hlrPool), ByUid(sysPool);
    var ms := Mentions(hlr, llrs);
    forall m | m in ms && m.uid in PoolAt(hlr, sys, m.layer) ensures First(ms, m.uid) == Some(m.layer) {
      OneLayer(hlr, sys, llrs, m);
    }
    RollUpExactly(llrs, hlrPool, sysPool);
  }

  lemma OneLayer(hlr: Pool, sys: Pool, llrs: seq<Entry>, m: Mention)
    requires Layered(hlr, sys, llrs) && m in Mentions(hlr, llrs) && m.uid in PoolAt(hlr, sys, m.layer)
    ensures First(Mentions(hlr, llrs), m.uid) == Some(m.layer)
  {
    hide Mentions;
    var ms := Mentions(hlr, llrs);
    var other := Mention(if m.layer == Hlr then Sys else Hlr, m.uid);
    MentionsMeaning(hlr, sys, llrs, m);
    MentionedBy(hlr, llrs, other);
    assert other !in ms;
    FirstConcat(ms, [], m.uid);
    FirstIsMention(ms, m.uid);
    assert exists k :: k in ms && k.uid == m.uid;
    assert First(ms, m.uid).value == m.layer || Mention(First(ms, m.uid).value, m.uid) == other;
  }

  lemma {:induction false} FirstIsMention(ms: seq<Mention>, u: string)
    ensures First(ms, u).Some? ==> Mention(First(ms, u).value, u) in ms
  {
    if ms != [] {
      assert ms == [ms[0]] + ms[1..];
      FirstIsMention(ms[1..], u);
    }
  }

  lemma {:induction false} MentionedBy(hlr: Pool, llrs: seq<Entry>, m: Mention)
    ensures m in Mentions(hlr, llrs) <==>
            if m.layer == Hlr then exists l :: l in llrs && m.uid in l.tracesTo
            else exists u :: ReachedHlr(hlr, llrs, u) && m.uid in hlr[u].tracesTo
  {
    hide ParentMentions;
    if llrs != [] {
      assert llrs == [llrs[0]] + llrs[1..];
      MentionedBy(hlr, llrs[1..], m);
      ParentMentionsMeaning(hlr, llrs[0].tracesTo, m);
    }
  }

  // --------------------------------------------------- why the layers matter

  /** One `seen` set serves both levels. An LLR that names a SYS uid before the
      HLR under it loses that SYS row. */
  lemma SysNamedByLlr(l: Entry, h: Entry, s: Entry, u: string, g: string)
    requires u != g && h.uid == Some(u) && s.uid == Some(g)
    requires l.tracesTo == [g, u] && h.tracesTo == [g]
    ensures ReachedSys(ByUid([h]), ByUid([s]), [l], g) && RolledUp([l], [h], [s]) == [RowOf(Hlr, h)]
  {
    hide StringLeq;
    var hlr, sys := ByUid([h]), ByUid([s]);
    Singletons(h, s, u, g);
    assert l in [l] && u in l.tracesTo && g in h.tracesTo;
    assert ReachedHlr(hlr, [l], u);
    var w0 := Walked({}, []);
    var w1 := Walked(w0.seen + {g}, w0.rows);
    var own := Walked(w1.seen + {u}, w1.rows + [RowOf(Hlr, h)]);
    assert [l][1..] == [] && [g, u][1..] == [u] && [u][1..] == [] && [g][1..] == [];
    assert Grandparents(sys, [g], own) == own by { assert Grandparents(sys, [], own) == own; }
    assert Parents(hlr, sys, [u], w1) == own by { assert Parents(hlr, sys, [], own) == own; }
    assert Parents(hlr, sys, [g, u], w0) == own;
    assert Walk(hlr, sys, [l], w0) == own by { assert Walk(hlr, sys, [], own) == own; }
    OneRow(own.rows, RowOf(Hlr, h));
  }

  lemma OneRow(rows: seq<ParentRef>, r: ParentRef)
    requires rows == [] + [r]
    ensures SortBy(IdOf, StringLeq, rows) == [r]
  {
    assert rows == [r] && [r][1..] == [];
  }

  /** An HLR that another reported HLR names first loses its own row. */
  lemma HlrNamedByHlr(l: Entry, h: Entry, k: Entry, u: string, v: string)
    requires u != v && h.uid == Some(u) && k.uid == Some(v)
    requires l.tracesTo == [u, v] && h.tracesTo == [v]
    ensures ReachedHlr(ByUid([h, k]), [l], v) && RolledUp([l], [h, k], []) == [RowOf(Hlr, h)]
  {
    hide StringLeq;
    Doubletons(h, k, u, v);
    var hlr, sys := ByUid([h, k]), ByUid([]);
    assert l in [l] && v in l.tracesTo;
    var w0 := Walked({}, []);
    var own := Walked(w0.seen + {u}, w0.rows + [RowOf(Hlr, h)]);
    var w := Walked(own.seen + {v}, own.rows);
    assert [l][1..] == [] && [u, v][1..] == [v] && [v][1..] == [];
    assert Grandparents(sys, [v], own) == w by { assert Grandparents(sys, [], w) == w; }
    assert Parents(hlr, sys, [v], w) == w by { assert Parents(hlr, sys, [], w) == w; }
    assert Parents(hlr, sys, [u, v], w0) == w;
    assert Walk(hlr, sys, [l], w0) == w by { assert Walk(hlr, sys, [], w) == w; }
    OneRow(w.rows, RowOf(Hlr, h));
  }

  lemma Singletons(h: Entry, s: Entry, u: string, g: string)
    requires h.uid == Some(u) && s.uid == Some(g)
    ensures ByUid([h]) == map[u := h] && ByUid([s]) == map[g := s]
  {
    assert [h][..0] == [] && [s][..0] == [];
  }

  lemma Doubletons(h: Entry, k: Entry, u: string, v: string)
    requires u != v && h.uid == Some(u) && k.uid == Some(v)
    ensures ByUid([h, k]) == map[u := h, v := k]
  {
    Singletons(h, k, u, v);
    assert [h, k][..1] == [h];
  }
}
