/**
 The overlap filter and the cap on clone candidates: a candidate whose sites all lie inside a kept
 candidate is dropped, wider candidates are considered first, and what is left stays in input order.
 */
module CloneRules {
  import opened Sequences

  datatype Site = Site(path: string, startLine: nat, endLine: nat)

  /** `body` stands for the rule, the family and the facts that the filter never reads. */
  datatype Candidate = Candidate(id: string, body: string, sites: seq<Site>, rank: nat)

  predicate SiteWithin(inner: Site, outer: Site)
  {
    inner.path == outer.path && outer.startLine <= inner.startLine && inner.endLine <= outer.endLine
  }

  predicate CoveredBy(c: Candidate, container: Candidate)
  {
    forall s :: s in c.sites ==> exists outer :: outer in container.sites && SiteWithin(s, outer)
  }

  /** `end.saturating_sub(start) + 1`. */
  function Lines(s: Site): nat
  {
    (if s.endLine >= s.startLine then s.endLine - s.startLine else 0) + 1
  }

  function Longest(sites: seq<Site>): nat
  {
    if sites == [] then 0
    else var rest := Longest(sites[1..]); if Lines(sites[0]) >= rest then Lines(sites[0]) else rest
  }

  function WidestSite(c: Candidate): nat
  {
    Longest(c.sites)
  }

  function TotalLines(sites: seq<Site>): nat
  {
    if sites == [] then 0 else Lines(sites[0]) + TotalLines(sites[1..])
  }

  function Coverage(c: Candidate): nat
  {
    TotalLines(c.sites)
  }

  /** The order the filter considers candidates in: widest site, then coverage, then rank. */
  predicate Precedes(ranked: seq<Candidate>, a: nat, b: nat)
  {
    && a < |ranked| && b < |ranked|
    && var (wa, wb, ca, cb) :=
         (WidestSite(ranked[a]), WidestSite(ranked[b]), Coverage(ranked[a]), Coverage(ranked[b]));
       wa > wb || (wa == wb && (ca > cb || (ca == cb && a < b)))
  }

  // ---- The filter, declaratively ----

  /** A candidate with a site is dropped when any earlier candidate, kept or not, covers it. */
  predicate Dominated(ranked: seq<Candidate>, i: nat)
    requires i < |ranked|
  {
    ranked[i].sites != [] && exists j: nat :: j < |ranked| && Precedes(ranked, j, i) && CoveredBy(ranked[i], ranked[j])
  }

  /** The kept positions below `n`, ascending. */
  function Kept(ranked: seq<Candidate>, n: nat): seq<nat>
    requires n <= |ranked|
  {
    if n == 0 then [] else Kept(ranked, n - 1) + (if Dominated(ranked, n - 1) then [] else [n - 1])
  }

  function Pick(ranked: seq<Candidate>, positions: seq<nat>): seq<Candidate>
    requires forall p :: 0 <= p < |positions| ==> positions[p] < |ranked|
  {
    seq(|positions|, p requires 0 <= p < |positions| => ranked[positions[p]])
  }

  lemma {:induction false} KeptAscends(ranked: seq<Candidate>, n: nat)
    requires n <= |ranked|
    ensures forall p :: 0 <= p < |Kept(ranked, n)| ==> Kept(ranked, n)[p] < n
    ensures forall p, q :: 0 <= p < q < |Kept(ranked, n)| ==> Kept(ranked, n)[p] < Kept(ranked, n)[q]
    ensures forall i: nat :: i in Kept(ranked, n) <==> i < n && !Dominated(ranked, i)
  {
    hide Dominated;
    if n > 0 { KeptAscends(ranked, n - 1); }
  }

  function Survivors(ranked: seq<Candidate>): seq<Candidate>
  {
    KeptAscends(ranked, |ranked|);
    Pick(ranked, Kept(ranked, |ranked|))
  }

  // ---- Covering ----

  lemma CoveredTransitive(a: Candidate, b: Candidate, c: Candidate)
    requires CoveredBy(a, b) && CoveredBy(b, c)
    ensures CoveredBy(a, c)
  {
    forall s | s in a.sites ensures exists outer :: outer in c.sites && SiteWithin(s, outer) {
      var middle :| middle in b.sites && SiteWithin(s, middle);
      var outer :| outer in c.sites && SiteWithin(middle, outer);
    }
  }

  lemma {:induction false} LongestBounds(sites: seq<Site>)
    ensures forall s :: s in sites ==> Lines(s) <= Longest(sites)
    ensures sites != [] ==> exists s :: s in sites && Lines(s) == Longest(sites)
  {
    if sites != [] {
      LongestBounds(sites[1..]);
      assert sites == [sites[0]] + sites[1..];
      assert sites[0] in sites;
    }
  }

  /** A container is at least as wide as what it contains. */
  lemma CoverWidens(a: Candidate, b: Candidate)
    requires CoveredBy(a, b)
    ensures WidestSite(a) <= WidestSite(b)
  {
    LongestBounds(a.sites);
    LongestBounds(b.sites);
    if a.sites != [] {
      var s :| s in a.sites && Lines(s) == Longest(a.sites);
      var outer :| outer in b.sites && SiteWithin(s, outer);
      assert Lines(s) <= Lines(outer);
    }
  }

  /** The positions considered before `j`. */
  function Ahead(ranked: seq<Candidate>, j: nat): set<nat>
  {
    set x: nat | x < |ranked| && Precedes(ranked, x, j)
  }

  /** A dominated candidate is covered by an earlier one that is kept: follow dominators upwards. */
  lemma {:induction false} KeptDominator(ranked: seq<Candidate>, i: nat, j: nat) returns (k: nat)
    requires i < |ranked| && j < |ranked| && ranked[i].sites != []
    requires Precedes(ranked, j, i) && CoveredBy(ranked[i], ranked[j])
    ensures k < |ranked| && Precedes(ranked, k, i) && CoveredBy(ranked[i], ranked[k]) && !Dominated(ranked, k)
    decreases Ahead(ranked, j)
  {
    if Dominated(ranked, j) {
      var j' :| 0 <= j' < |ranked| && Precedes(ranked, j', j) && CoveredBy(ranked[j], ranked[j']);
      CoveredTransitive(ranked[i], ranked[j], ranked[j']);
      assert j' in Ahead(ranked, j) && j' !in Ahead(ranked, j') && Ahead(ranked, j') <= Ahead(ranked, j);
      k := KeptDominator(ranked, i, j');
    } else {
      k := j;
    }
  }

  // ---- The filter, as the program runs it ----

  predicate HasPath(c: Candidate, path: string)
  {
    exists s :: s in c.sites && s.path == path
  }

  /** `filed` is `keptAt` with position `i` added under each path of `c`. */
  ghost predicate FiledUnder(keptAt: map<string, seq<nat>>, filed: map<string, seq<nat>>, c: Candidate, i: nat)
  {
    && filed.Keys == keptAt.Keys + (set s | s in c.sites :: s.path)
    && forall path :: path in filed ==>
         filed[path] == (if path in keptAt then keptAt[path] else []) + (if HasPath(c, path) then [i] else [])
  }

  /** Files the kept candidate `i` under each of its distinct paths. */
  method FileUnder(keptAt: map<string, seq<nat>>, c: Candidate, i: nat) returns (filed: map<string, seq<nat>>)
    ensures FiledUnder(keptAt, filed, c, i)
  {
    var todo := set s | s in c.sites :: s.path;
    filed := keptAt;
    while todo != {}
      invariant todo <= set s | s in c.sites :: s.path
      invariant filed.Keys == keptAt.Keys + ((set s | s in c.sites :: s.path) - todo)
      invariant forall path :: path in filed ==>
                  filed[path] == (if path in keptAt then keptAt[path] else [])
                                 + (if HasPath(c, path) && path !in todo then [i] else [])
      decreases todo
    {
      var path :| path in todo;
      filed := filed[path := (if path in filed then filed[path] else []) + [i]];
      todo := todo - {path};
    }
  }

  predicate Filed(keptAt: map<string, seq<nat>>, path: string, k: nat)
  {
    path in keptAt && k in keptAt[path]
  }

  /** The map files exactly the kept positions among `done`, under each of their paths. */
  ghost predicate FiledExactly(ranked: seq<Candidate>, keptAt: map<string, seq<nat>>, done: seq<nat>)
  {
    forall path, k: nat {:trigger Filed(keptAt, path, k)} ::
      Filed(keptAt, path, k) <==> k in done && k < |ranked| && !Dominated(ranked, k) && HasPath(ranked[k], path)
  }

  ghost predicate PositionsIn(ranked: seq<Candidate>, keptAt: map<string, seq<nat>>)
  {
    forall path, k: nat :: Filed(keptAt, path, k) ==> k < |ranked|
  }

  predicate CoveredByFiled(ranked: seq<Candidate>, keptAt: map<string, seq<nat>>, c: Candidate)
    requires PositionsIn(ranked, keptAt)
  {
    && c.sites != [] && c.sites[0].path in keptAt
    && exists k: nat :: k in keptAt[c.sites[0].path] && Filed(keptAt, c.sites[0].path, k) && CoveredBy(c, ranked[k])
  }

  /** Looking under one path of the candidate finds a kept container whenever there is any dominator. */
  lemma LookupAgrees(ranked: seq<Candidate>, keptAt: map<string, seq<nat>>, done: seq<nat>, i: nat)
    requires i < |ranked| && forall k :: k in done ==> k < |ranked|
    requires forall k: nat :: k in done <==> k < |ranked| && Precedes(ranked, k, i)
    requires PositionsIn(ranked, keptAt) && FiledExactly(ranked, keptAt, done)
    ensures CoveredByFiled(ranked, keptAt, ranked[i]) <==> Dominated(ranked, i)
  {
    if CoveredByFiled(ranked, keptAt, ranked[i]) {
      var path := ranked[i].sites[0].path;
      var k: nat :| k in keptAt[path] && Filed(keptAt, path, k) && CoveredBy(ranked[i], ranked[k]);
    }
    if Dominated(ranked, i) {
      var j: nat :| j < |ranked| && Precedes(ranked, j, i) && CoveredBy(ranked[i], ranked[j]);
      var k := KeptDominator(ranked, i, j);
      var first := ranked[i].sites[0];
      assert first in ranked[i].sites;
      var outer :| outer in ranked[k].sites && SiteWithin(first, outer);
      assert HasPath(ranked[k], first.path);
      assert Filed(keptAt, first.path, k);
    }
  }

  function ByWidth(ranked: seq<Candidate>): (nat, nat) -> bool
  {
    (a: nat, b: nat) => Precedes(ranked, a, b)
  }

  function ConsiderationOrder(ranked: seq<Candidate>): seq<nat>
  {
    StableSort(Positions(|ranked|), ByWidth(ranked))
  }

  lemma ByWidthIsOrder(ranked: seq<Candidate>)
    ensures OrderOn(Positions(|ranked|), ByWidth(ranked))
  {
    hide WidestSite, Coverage;
    assert forall x :: x in Positions(|ranked|) ==> x < |ranked|;
  }

  lemma SortIsPermutation(ranked: seq<Candidate>)
    ensures var order := ConsiderationOrder(ranked);
            && |order| == |ranked| && SortedBy(order, ByWidth(ranked))
            && forall k: nat :: k in order <==> k < |ranked|
  {
    hide Precedes;
    var indices := Positions(|ranked|);
    ByWidthIsOrder(ranked);
    StableSortSorted(indices, ByWidth(ranked));
    var order := ConsiderationOrder(ranked);
    assert |order| == |multiset(order)| == |multiset(indices)|;
    forall k: nat ensures k in order <==> k < |ranked| {
      assert k in multiset(order) <==> k in multiset(indices);
      if k < |ranked| { assert indices[k] == k; }
    }
  }

  /** Up to any point, the order has visited exactly what precedes the next position. */
  lemma OrderVisits(ranked: seq<Candidate>, p: nat, k: nat)
    requires p < |ConsiderationOrder(ranked)|
    ensures var order := ConsiderationOrder(ranked);
            k in order[..p] <==> k < |ranked| && Precedes(ranked, k, order[p])
  {
    hide WidestSite, Coverage;
    SortIsPermutation(ranked);
    var order := ConsiderationOrder(ranked);
    var lt := ByWidth(ranked);
    hide ConsiderationOrder;
    if k in order[..p] {
      var q :| 0 <= q < p && order[..p][q] == k;
      assert lt(order[q], order[p]) && k in order;
    } else {
      assert k < |ranked| ==> k in order;
    }
  }

  lemma FiledMembers(keptAt: map<string, seq<nat>>, filed: map<string, seq<nat>>, c: Candidate, i: nat,
                     path: string, k: nat)
    requires FiledUnder(keptAt, filed, c, i)
    ensures Filed(filed, path, k) <==> Filed(keptAt, path, k) || (k == i && HasPath(c, path))
  {
    if HasPath(c, path) {
      var s :| s in c.sites && s.path == path;
      assert path in filed;
    }
  }

  lemma FilingStep(ranked: seq<Candidate>, keptAt: map<string, seq<nat>>, filed: map<string, seq<nat>>,
                   done: seq<nat>, i: nat)
    requires i < |ranked| && (forall k :: k in done ==> k < |ranked|)
    requires PositionsIn(ranked, keptAt) && FiledExactly(ranked, keptAt, done)
    requires if Dominated(ranked, i) then filed == keptAt else FiledUnder(keptAt, filed, ranked[i], i)
    ensures PositionsIn(ranked, filed) && FiledExactly(ranked, filed, done + [i])
  {
    hide Dominated, Precedes;
    forall path, k: nat ensures Filed(filed, path, k) <==>
                                k in done + [i] && k < |ranked| && !Dominated(ranked, k) && HasPath(ranked[k], path)
    {
      assert Filed(keptAt, path, k) <==> k in done && k < |ranked| && !Dominated(ranked, k) && HasPath(ranked[k], path);
      if !Dominated(ranked, i) { FiledMembers(keptAt, filed, ranked[i], i, path, k); }
    }
  }

  lemma NothingFiled(ranked: seq<Candidate>)
    ensures PositionsIn(ranked, map[]) && FiledExactly(ranked, map[], [])
  {
  }

  /** `drop_overlapped`. */
  method DropOverlapped(ranked: seq<Candidate>) returns (survivors: seq<Candidate>)
    ensures survivors == Survivors(ranked)
  {
    var order := ConsiderationOrder(ranked);
    SortIsPermutation(ranked);
    hide ConsiderationOrder, Dominated, CoveredByFiled, FiledExactly, PositionsIn, Precedes, FiledUnder;
    var keptAt: map<string, seq<nat>> := map[];
    NothingFiled(ranked);
    var keep := new bool[|ranked|](_ => false);
    for p := 0 to |order|
      invariant forall k :: k in order[..p] ==> k < |ranked|
      invariant PositionsIn(ranked, keptAt) && FiledExactly(ranked, keptAt, order[..p])
      invariant forall k: nat :: k < |ranked| ==> (keep[k] <==> k in order[..p] && !Dominated(ranked, k))
    {
      var i := order[p];
      assert i in order;
      forall k: nat ensures k in order[..p] <==> k < |ranked| && Precedes(ranked, k, i) { OrderVisits(ranked, p, k); }
      LookupAgrees(ranked, keptAt, order[..p], i);
      assert order[..p + 1] == order[..p] + [i];
      var filed := keptAt;
      if !CoveredByFiled(ranked, keptAt, ranked[i]) {
        keep[i] := true;
        filed := FileUnder(keptAt, ranked[i], i);
      }
      FilingStep(ranked, keptAt, filed, order[..p], i);
      keptAt := filed;
    }
    assert order[..|order|] == order;
    survivors := [];
    KeptAscends(ranked, |ranked|);
    for k := 0 to |ranked|
      invariant forall p :: 0 <= p < |Kept(ranked, k)| ==> Kept(ranked, k)[p] < |ranked|
      invariant survivors == Pick(ranked, Kept(ranked, k))
    {
      if keep[k] { survivors := survivors + [ranked[k]]; }
    }
  }

  // ---- What the filter promises ----

  /** Every dropped candidate is covered by a kept one that was considered before it. */
  lemma DroppedIsCoveredByKept(ranked: seq<Candidate>, i: nat) returns (k: nat)
    requires i < |ranked| && i !in Kept(ranked, |ranked|)
    ensures k in Kept(ranked, |ranked|) && k < |ranked|
    ensures Precedes(ranked, k, i) && CoveredBy(ranked[i], ranked[k])
  {
    KeptAscends(ranked, |ranked|);
    var j: nat :| j < |ranked| && Precedes(ranked, j, i) && CoveredBy(ranked[i], ranked[j]);
    k := KeptDominator(ranked, i, j);
  }

  /**
   A kept candidate is never covered by one considered before it; one considered after it can only tie
   with it in width and cover no more lines.
   */
  lemma KeptOverlap(ranked: seq<Candidate>, i: nat, j: nat)
    requires i in Kept(ranked, |ranked|) && i < |ranked| && j < |ranked| && i != j
    requires ranked[i].sites != [] && CoveredBy(ranked[i], ranked[j])
    ensures Precedes(ranked, i, j)
    ensures WidestSite(ranked[i]) == WidestSite(ranked[j]) && Coverage(ranked[i]) >= Coverage(ranked[j])
  {
    KeptAscends(ranked, |ranked|);
    assert !Precedes(ranked, j, i);
    CoverWidens(ranked[i], ranked[j]);
  }

  /** A strictly wider container always wins, whatever the ranks. */
  lemma WiderContainerWins(ranked: seq<Candidate>, i: nat, j: nat)
    requires i < |ranked| && j < |ranked| && ranked[i].sites != []
    requires CoveredBy(ranked[i], ranked[j]) && WidestSite(ranked[i]) < WidestSite(ranked[j])
    ensures i !in Kept(ranked, |ranked|)
  {
    KeptAscends(ranked, |ranked|);
    assert Precedes(ranked, j, i);
  }

  lemma SurvivorPosition(ranked: seq<Candidate>, c: Candidate) returns (i: nat)
    requires c in Survivors(ranked)
    ensures i < |ranked| && i in Kept(ranked, |ranked|) && ranked[i] == c
  {
    KeptAscends(ranked, |ranked|);
    var p :| 0 <= p < |Survivors(ranked)| && Survivors(ranked)[p] == c;
    i := Kept(ranked, |ranked|)[p];
  }

  lemma KeptSurvives(ranked: seq<Candidate>, i: nat)
    requires i < |ranked| && i in Kept(ranked, |ranked|)
    ensures ranked[i] in Survivors(ranked)
  {
    KeptAscends(ranked, |ranked|);
    var p :| 0 <= p < |Kept(ranked, |ranked|)| && Kept(ranked, |ranked|)[p] == i;
    assert Survivors(ranked)[p] == ranked[i];
  }

  lemma CoveredByItself(c: Candidate)
    ensures CoveredBy(c, c)
  {
    forall s | s in c.sites ensures exists outer :: outer in c.sites && SiteWithin(s, outer) {
      assert SiteWithin(s, s);
    }
  }

  /** Ranking the same candidates differently never changes which places are reported. */
  lemma RankingDoesNotLosePlaces(ranked: seq<Candidate>, reranked: seq<Candidate>, c: Candidate)
    requires multiset(ranked) == multiset(reranked)
    requires c in Survivors(ranked)
    ensures exists d :: d in Survivors(reranked) && CoveredBy(c, d)
  {
    var i := SurvivorPosition(ranked, c);
    assert c in multiset(ranked);
    assert c in multiset(reranked);
    var j: nat :| j < |reranked| && reranked[j] == c;
    if j in Kept(reranked, |reranked|) {
      KeptSurvives(reranked, j);
      assert CoveredBy(c, c) by { CoveredByItself(c); }
    } else {
      var k := DroppedIsCoveredByKept(reranked, j);
      KeptSurvives(reranked, k);
    }
  }

  /** The survivors are a subsequence of the ranked list: strictly rising positions in it. */
  lemma SurvivorsAreSubsequence(ranked: seq<Candidate>)
    ensures var kept := Kept(ranked, |ranked|);
            && |Survivors(ranked)| == |kept|
            && (forall p :: 0 <= p < |kept| ==> kept[p] < |ranked| && Survivors(ranked)[p] == ranked[kept[p]])
            && (forall p, q :: 0 <= p < q < |kept| ==> kept[p] < kept[q])
  {
    KeptAscends(ranked, |ranked|);
  }

  lemma {:induction false} KeepsAll(ranked: seq<Candidate>, n: nat)
    requires n <= |ranked| && forall i: nat :: i < |ranked| ==> !Dominated(ranked, i)
    ensures Kept(ranked, n) == Positions(n)
  {
    if n > 0 {
      KeepsAll(ranked, n - 1);
      assert Positions(n) == Positions(n - 1) + [n - 1];
    }
  }

  /** Filtering the survivors again drops nothing. */
  lemma FilterIsIdempotent(ranked: seq<Candidate>)
    ensures Survivors(Survivors(ranked)) == Survivors(ranked)
  {
    var survivors, kept := Survivors(ranked), Kept(ranked, |ranked|);
    KeptAscends(ranked, |ranked|);
    forall p: nat | p < |survivors| ensures !Dominated(survivors, p) {
      assert kept[p] in kept;
    }
    KeepsAll(survivors, |survivors|);
    assert Pick(survivors, Positions(|survivors|)) == survivors;
  }

  // ---- The cap ----

  function CountDominated(ranked: seq<Candidate>, n: nat): nat
    requires n <= |ranked|
  {
    if n == 0 then 0 else CountDominated(ranked, n - 1) + (if Dominated(ranked, n - 1) then 1 else 0)
  }

  /** Every ranked candidate is a survivor or one of the dominated: with the cap, kept, over it, or overlapped. */
  lemma {:induction false} EveryCandidateIsAccountedFor(ranked: seq<Candidate>, n: nat)
    requires n <= |ranked|
    ensures |Kept(ranked, n)| + CountDominated(ranked, n) == n
  {
    if n > 0 { EveryCandidateIsAccountedFor(ranked, n - 1); }
  }

  /** `rank_and_cap` over an already ranked list. */
  method RankAndCap(ranked: seq<Candidate>, max: nat) returns (kept: seq<Candidate>, over: nat)
    ensures |kept| <= max && over == |Survivors(ranked)| - |kept|
    ensures over > 0 ==> |kept| == max
    ensures |kept| + over + CountDominated(ranked, |ranked|) == |ranked|
    ensures forall p :: 0 <= p < |kept| ==> kept[p] == Survivors(ranked)[p].(rank := p)
  {
    var survivors := DropOverlapped(ranked);
    var found := |survivors|;
    kept := [];
    for position := 0 to if max <= found then max else found
      invariant |kept| == position
      invariant forall p :: 0 <= p < position ==> kept[p] == survivors[p].(rank := p)
    {
      kept := kept + [survivors[position].(rank := position)];
    }
    over := found - |kept|;
    EveryCandidateIsAccountedFor(ranked, |ranked|);
  }

  // ---- The same promises, in paths and line numbers ----

  /** Every site of `c` lies inside a site of `container`. */
  ghost predicate LiesInside(c: Candidate, container: Candidate)
  {
    forall s :: s in c.sites ==>
      exists o :: o in container.sites && o.path == s.path && o.startLine <= s.startLine && s.endLine <= o.endLine
  }

  /** A container with a longer stretch than any of a candidate's drops the candidate, whatever the ranks. */
  lemma LongerStretchWins(ranked: seq<Candidate>, i: nat, j: nat, wide: Site)
    requires i < |ranked| && j < |ranked| && ranked[i].sites != [] && LiesInside(ranked[i], ranked[j])
    requires wide in ranked[j].sites && wide.startLine < wide.endLine
    requires forall s :: s in ranked[i].sites ==> s.endLine - s.startLine < wide.endLine - wide.startLine
    ensures i !in Kept(ranked, |ranked|)
  {
    LongestBounds(ranked[i].sites);
    LongestBounds(ranked[j].sites);
    forall s | s in ranked[i].sites ensures exists o :: o in ranked[j].sites && SiteWithin(s, o) {
      var o :| o in ranked[j].sites && o.path == s.path && o.startLine <= s.startLine && s.endLine <= o.endLine;
      assert SiteWithin(s, o);
    }
    WiderContainerWins(ranked, i, j);
  }

  lemma {:induction false} TotalLinesConcat(a: seq<Site>, b: seq<Site>)
    ensures TotalLines(a + b) == TotalLines(a) + TotalLines(b)
  {
    if a == [] {
      assert a + b == b;
    } else {
      assert (a + b)[1..] == a[1..] + b;
      TotalLinesConcat(a[1..], b);
    }
  }

  predicate HasLine(s: Site, line: nat)
  {
    s.startLine <= line <= s.endLine
  }

  /** The lines of a site, one by one. */
  function LineSet(s: Site): set<nat>
  {
    set line: nat | line <= s.endLine && HasLine(s, line)
  }

  lemma {:induction false} LinesCountsLines(s: Site)
    requires s.startLine <= s.endLine
    ensures Lines(s) == |LineSet(s)|
    decreases s.endLine
  {
    if s.startLine == s.endLine {
      assert LineSet(s) == {s.startLine};
    } else {
      var t := s.(endLine := s.endLine - 1);
      LinesCountsLines(t);
      forall line: nat ensures line in LineSet(s) <==> line in LineSet(t) || line == s.endLine {
        assert HasLine(s, line) <==> HasLine(t, line) || line == s.endLine;
      }
      assert LineSet(s) == LineSet(t) + {s.endLine};
    }
  }

  /** Coverage adds up the lines of the sites; a site whose end is before its start counts as one line. */
  lemma CoverageAddsLines(a: seq<Site>, s: Site, b: seq<Site>)
    ensures TotalLines(a + [s] + b) ==
            TotalLines(a) + TotalLines(b) + (if s.startLine <= s.endLine then |LineSet(s)| else 1)
    ensures TotalLines([]) == 0
  {
    TotalLinesConcat(a + [s], b);
    TotalLinesConcat(a, [s]);
    assert [s][1..] == [];
    if s.startLine <= s.endLine { LinesCountsLines(s); }
  }

  lemma CoverSites(a: Candidate, b: Candidate)
    requires forall s :: s in a.sites ==> s in b.sites
    ensures CoveredBy(a, b)
  {
    forall s | s in a.sites ensures exists o :: o in b.sites && SiteWithin(s, o) { assert SiteWithin(s, s); }
  }

  /** Of two equally wide candidates the one with a site more drops the other, whatever the ranks. */
  lemma OneMoreSiteWins(ranked: seq<Candidate>, i: nat, j: nat, more: Site, wide: Site)
    requires i < |ranked| && j < |ranked| && ranked[j].sites == ranked[i].sites + [more]
    requires wide in ranked[i].sites && wide.startLine <= wide.endLine
    requires more.endLine - more.startLine <= wide.endLine - wide.startLine
    ensures i !in Kept(ranked, |ranked|)
  {
    var (a, b) := (ranked[i], ranked[j]);
    TotalLinesConcat(a.sites, [more]);
    LongestBounds(a.sites);
    LongestBounds(b.sites);
    CoverSites(a, b);
    CoverWidens(a, b);
    assert Lines(more) <= Lines(wide);
    KeptAscends(ranked, |ranked|);
    assert Precedes(ranked, j, i);
  }

  /** Of two candidates with the same sites the one ranked first drops the other. */
  lemma FirstRankWins(ranked: seq<Candidate>, i: nat, j: nat)
    requires i < j < |ranked| && ranked[i].sites == ranked[j].sites && ranked[j].sites != []
    ensures j !in Kept(ranked, |ranked|)
  {
    CoverSites(ranked[j], ranked[i]);
    KeptAscends(ranked, |ranked|);
    assert Precedes(ranked, i, j);
  }

  lemma InsideIsCovered(c: Candidate, container: Candidate)
    ensures CoveredBy(c, container) <==> LiesInside(c, container)
  {
    if CoveredBy(c, container) {
      forall s | s in c.sites
        ensures exists o :: o in container.sites && o.path == s.path && o.startLine <= s.startLine && s.endLine <= o.endLine
      {
        var o :| o in container.sites && SiteWithin(s, o);
      }
    }
    if LiesInside(c, container) {
      forall s | s in c.sites ensures exists o :: o in container.sites && SiteWithin(s, o) {
        var o :| o in container.sites && o.path == s.path && o.startLine <= s.startLine && s.endLine <= o.endLine;
        assert SiteWithin(s, o);
      }
    }
  }

  /** A candidate is kept if it has no site, or no other candidate has all its sites inside its own. */
  lemma UncoveredIsKept(ranked: seq<Candidate>, i: nat)
    requires i < |ranked|
    requires ranked[i].sites == [] || forall j: nat :: j < |ranked| && j != i ==> !LiesInside(ranked[i], ranked[j])
    ensures i in Kept(ranked, |ranked|)
  {
    KeptAscends(ranked, |ranked|);
    forall j: nat | j < |ranked| && CoveredBy(ranked[i], ranked[j]) ensures LiesInside(ranked[i], ranked[j]) {
      InsideIsCovered(ranked[i], ranked[j]);
    }
  }
}
