/**
 The stable site key: repo, path, fingerprint and an ordinal that tells apart rows with the same
 fingerprint in one file. What keeps a key from changing when rows are reordered or lines move.
 */
module SiteKeys {
  import opened Sequences
  import opened Text
  import opened Digits
  import opened Fingerprints

  datatype Row = Row(repo: string, path: string, ruleId: string, snippet: string, line: nat, advisory: string)

  type Group = (string, string, string)

  function GroupOf(r: Row): Group
  {
    (r.repo, r.path, Fingerprint(r.ruleId, r.snippet))
  }

  const NUL: char := 0 as char

  function SiteKey(g: Group, ordinal: nat): string
  {
    g.0 + [NUL] + g.1 + [NUL] + g.2 + [NUL] + Decimal(ordinal)
  }

  // ---- The order inside a group ----

  /** The order of `str`: by bytes, which for UTF-8 is by code points. */
  predicate StringLess(a: string, b: string)
  {
    b != [] && (a == [] || a[0] < b[0] || (a[0] == b[0] && StringLess(a[1..], b[1..])))
  }

  lemma {:induction false} StringLessTotal(a: string, b: string)
    ensures StringLess(a, b) || StringLess(b, a) || a == b
    ensures !(StringLess(a, b) && StringLess(b, a)) && !StringLess(a, a)
  {
    if a != [] {
      assert a == [a[0]] + a[1..];
      StringLessTotal(a[1..], a[1..]);
      if b != [] {
        assert b == [b[0]] + b[1..];
        StringLessTotal(a[1..], b[1..]);
      }
    }
  }

  lemma {:induction false} StringLessTransitive(a: string, b: string, c: string)
    requires StringLess(a, b) && StringLess(b, c)
    ensures StringLess(a, c)
  {
    if a != [] && a[0] == b[0] && b[0] == c[0] { StringLessTransitive(a[1..], b[1..], c[1..]); }
  }

  /** The sort key of `sort_by_key`: the line, then the advisory id. */
  predicate KeyBefore(r: Row, s: Row)
  {
    r.line < s.line || (r.line == s.line && StringLess(r.advisory, s.advisory))
  }

  function ByKey(rows: seq<Row>): (nat, nat) -> bool
  {
    (a: nat, b: nat) => a < |rows| && b < |rows| && KeyBefore(rows[a], rows[b])
  }

  /** Row `a` is numbered before row `b`: by line, then advisory, then arrival. */
  predicate Before(rows: seq<Row>, a: nat, b: nat)
    requires a < |rows| && b < |rows|
  {
    KeyBefore(rows[a], rows[b]) || (!KeyBefore(rows[b], rows[a]) && a < b)
  }

  lemma BeforeIsOrder(rows: seq<Row>, a: nat, b: nat, c: nat)
    requires a < |rows| && b < |rows| && c < |rows|
    ensures a != b ==> Before(rows, a, b) || Before(rows, b, a)
    ensures !(Before(rows, a, b) && Before(rows, b, a))
    ensures Before(rows, a, b) && Before(rows, b, c) ==> Before(rows, a, c)
  {
    var (x, y, z) := (rows[a].advisory, rows[b].advisory, rows[c].advisory);
    StringLessTotal(x, y);
    StringLessTotal(y, z);
    StringLessTotal(x, z);
    if StringLess(x, y) && StringLess(y, z) { StringLessTransitive(x, y, z); }
  }

  // ---- Ordinals, declaratively ----

  /** The rows below `n` of one group, in arrival order. */
  function Members(rows: seq<Row>, g: Group, n: nat): seq<nat>
    requires n <= |rows|
  {
    if n == 0 then []
    else if GroupOf(rows[n - 1]) == g then Members(rows, g, n - 1) + [n - 1]
    else Members(rows, g, n - 1)
  }

  lemma {:induction false} MembersSpec(rows: seq<Row>, g: Group, n: nat)
    requires n <= |rows|
    ensures forall i: nat :: i in Members(rows, g, n) <==> i < n && GroupOf(rows[i]) == g
    ensures Ascending(Members(rows, g, n))
    ensures forall p :: 0 <= p < |Members(rows, g, n)| ==> Members(rows, g, n)[p] < n
  {
    hide GroupOf;
    if n > 0 { MembersSpec(rows, g, n - 1); }
  }

  function NumberedBefore(rows: seq<Row>, i: nat): nat -> bool
    requires i < |rows|
  {
    (j: nat) => j < |rows| && Before(rows, j, i)
  }

  /** How many rows of its group are numbered before a row. */
  function Ordinal(rows: seq<Row>, i: nat): nat
    requires i < |rows|
  {
    Count(Members(rows, GroupOf(rows[i]), |rows|), NumberedBefore(rows, i))
  }

  function SiteKeyOf(rows: seq<Row>, i: nat): string
    requires i < |rows|
  {
    SiteKey(GroupOf(rows[i]), Ordinal(rows, i))
  }

  function SiteKeyList(rows: seq<Row>): seq<string>
  {
    seq(|rows|, i requires 0 <= i < |rows| => SiteKeyOf(rows, i))
  }

  // ---- Ordinals, as the program assigns them ----

  function Sorted(rows: seq<Row>, g: Group): seq<nat>
  {
    StableSort(Members(rows, g, |rows|), ByKey(rows))
  }

  lemma TiedIsBefore(rows: seq<Row>, a: nat, b: nat)
    requires a < |rows| && b < |rows|
    ensures Tied(ByKey(rows))(a, b) == Before(rows, a, b)
  {
  }

  lemma MembersOrdered(rows: seq<Row>, g: Group)
    ensures OrderOn(Members(rows, g, |rows|), Tied(ByKey(rows))) && Distinct(Members(rows, g, |rows|))
  {
    var members := Members(rows, g, |rows|);
    var lt := Tied(ByKey(rows));
    MembersSpec(rows, g, |rows|);
    hide Members, Before, Tied;
    forall x, y | x in members && y in members
      ensures (x != y ==> lt(x, y) || lt(y, x)) && !(lt(x, y) && lt(y, x))
    {
      BeforeIsOrder(rows, x, y, y);
      TiedIsBefore(rows, x, y);
      TiedIsBefore(rows, y, x);
    }
    forall x, y, z | x in members && y in members && z in members && lt(x, y) && lt(y, z) ensures lt(x, z) {
      BeforeIsOrder(rows, x, y, z);
      TiedIsBefore(rows, x, y);
      TiedIsBefore(rows, y, z);
      TiedIsBefore(rows, x, z);
    }
  }

  /** The sorted group holds the same rows, each before the later ones. */
  lemma SortedGroup(rows: seq<Row>, g: Group)
    ensures multiset(Sorted(rows, g)) == multiset(Members(rows, g, |rows|))
    ensures SortedBy(Sorted(rows, g), Tied(ByKey(rows)))
  {
    var members := Members(rows, g, |rows|);
    MembersOrdered(rows, g);
    MembersSpec(rows, g, |rows|);
    forall x, y | x in members && y in members ensures !(ByKey(rows)(x, y) && ByKey(rows)(y, x)) {
      StringLessTotal(rows[x].advisory, rows[y].advisory);
    }
    StableSortTied(members, ByKey(rows));
    hide Members, Tied;
    StableSortSorted(members, Tied(ByKey(rows)));
  }

  lemma SortedInGroup(rows: seq<Row>, g: Group, q: nat)
    requires q < |Sorted(rows, g)|
    ensures Sorted(rows, g)[q] < |rows| && GroupOf(rows[Sorted(rows, g)[q]]) == g
  {
    hide GroupOf;
    SortedGroup(rows, g);
    MembersSpec(rows, g, |rows|);
    assert Sorted(rows, g)[q] in multiset(Sorted(rows, g));
    assert Sorted(rows, g)[q] in Members(rows, g, |rows|);
  }

  lemma BeforeAtPlace(rows: seq<Row>, sorted: seq<nat>, q: nat, k: nat)
    requires q < |sorted| && k < |sorted| && sorted[q] < |rows| && sorted[k] < |rows|
    requires SortedBy(sorted, Tied(ByKey(rows)))
    ensures Before(rows, sorted[q], sorted[k]) <==> q < k
  {
    hide Before, Tied;
    TiedIsBefore(rows, sorted[q], sorted[k]);
    TiedIsBefore(rows, sorted[k], sorted[q]);
    BeforeIsOrder(rows, sorted[q], sorted[k], sorted[k]);
  }

  /** The row at place `k` of its sorted group has ordinal `k`. */
  lemma PlaceIsOrdinal(rows: seq<Row>, g: Group, k: nat)
    requires k < |Sorted(rows, g)|
    ensures var i := Sorted(rows, g)[k];
            i < |rows| && GroupOf(rows[i]) == g && Ordinal(rows, i) == k
  {
    var sorted := Sorted(rows, g);
    SortedGroup(rows, g);
    SortedInGroup(rows, g, k);
    var i := sorted[k];
    var p := NumberedBefore(rows, i);
    forall q | 0 <= q < |sorted| ensures p(sorted[q]) <==> q < k {
      SortedInGroup(rows, g, q);
      BeforeAtPlace(rows, sorted, q, k);
    }
    CountPrefix(sorted, p, k);
    CountPermutation(sorted, Members(rows, g, |rows|), p);
  }

  lemma PlaceOf(rows: seq<Row>, i: nat) returns (k: nat)
    requires i < |rows|
    ensures k < |Sorted(rows, GroupOf(rows[i]))| && Sorted(rows, GroupOf(rows[i]))[k] == i && Ordinal(rows, i) == k
  {
    var g := GroupOf(rows[i]);
    SortedGroup(rows, g);
    MembersSpec(rows, g, |rows|);
    assert i in multiset(Members(rows, g, |rows|));
    assert i in multiset(Sorted(rows, g));
    k :| 0 <= k < |Sorted(rows, g)| && Sorted(rows, g)[k] == i;
    PlaceIsOrdinal(rows, g, k);
  }

  lemma SortedIs(rows: seq<Row>, g: Group)
    ensures StableSort(Members(rows, g, |rows|), ByKey(rows)) == Sorted(rows, g)
    ensures forall k :: 0 <= k < |Sorted(rows, g)| ==> Sorted(rows, g)[k] < |rows|
  {
    forall k | 0 <= k < |Sorted(rows, g)| ensures Sorted(rows, g)[k] < |rows| { SortedInGroup(rows, g, k); }
  }

  function Lookup(groups: map<Group, seq<nat>>, g: Group): seq<nat>
  {
    if g in groups then groups[g] else []
  }

  ghost predicate GroupedTo(rows: seq<Row>, n: nat, groups: map<Group, seq<nat>>)
    requires n <= |rows|
  {
    && (forall j: nat :: j < n ==> GroupOf(rows[j]) in groups)
    && (forall g :: Lookup(groups, g) == Members(rows, g, n))
  }

  lemma GroupStep(rows: seq<Row>, n: nat, groups: map<Group, seq<nat>>)
    requires n < |rows| && GroupedTo(rows, n, groups)
    ensures var g := GroupOf(rows[n]); GroupedTo(rows, n + 1, groups[g := Lookup(groups, g) + [n]])
  {
    hide GroupOf;
    var g := GroupOf(rows[n]);
    var grown := groups[g := Lookup(groups, g) + [n]];
    forall k ensures Lookup(grown, k) == Members(rows, k, n + 1) {
      assert Lookup(groups, k) == Members(rows, k, n);
    }
  }

  lemma EmptyMembers(rows: seq<Row>, g: Group)
    ensures Members(rows, g, 0) == []
  {
  }

  lemma GroupedEnds(rows: seq<Row>, groups: map<Group, seq<nat>>)
    ensures GroupedTo(rows, 0, map[])
    ensures GroupedTo(rows, |rows|, groups) ==>
              && (forall i: nat :: i < |rows| ==> GroupOf(rows[i]) in groups)
              && (forall g :: g in groups ==> groups[g] == Members(rows, g, |rows|))
  {
    hide GroupOf, Members;
    forall g ensures Members(rows, g, 0) == [] { EmptyMembers(rows, g); }
    if GroupedTo(rows, |rows|, groups) {
      forall g | g in groups ensures groups[g] == Members(rows, g, |rows|) {
        assert Lookup(groups, g) == Members(rows, g, |rows|);
      }
    }
  }

  /** The map of groups: each group's members in arrival order. */
  method GroupRows(rows: seq<Row>) returns (groups: map<Group, seq<nat>>)
    ensures forall i: nat :: i < |rows| ==> GroupOf(rows[i]) in groups
    ensures forall g :: g in groups ==> groups[g] == Members(rows, g, |rows|)
  {
    hide GroupedTo, GroupOf, Members, Lookup;
    groups := map[];
    GroupedEnds(rows, groups);
    for i := 0 to |rows|
      invariant GroupedTo(rows, i, groups)
    {
      GroupStep(rows, i, groups);
      groups := groups[GroupOf(rows[i]) := Lookup(groups, GroupOf(rows[i])) + [i]];
    }
    GroupedEnds(rows, groups);
  }

  /** `assign_ordinals`: the rows of each group, sorted, then numbered. */
  method AssignOrdinals(rows: seq<Row>) returns (ordinals: seq<nat>)
    ensures |ordinals| == |rows|
    ensures forall i: nat :: i < |rows| ==> ordinals[i] == Ordinal(rows, i)
  {
    hide Members, Ordinal, GroupOf, Sorted;
    var groups := GroupRows(rows);
    var written := new nat[|rows|](_ => 0);
    var todo := groups.Keys;
    while todo != {}
      invariant todo <= groups.Keys
      invariant forall i: nat :: i < |rows| && GroupOf(rows[i]) !in todo ==> written[i] == Ordinal(rows, i)
      decreases todo
    {
      var g :| g in todo;
      var members := StableSort(groups[g], ByKey(rows));
      SortedIs(rows, g);
      for ordinal := 0 to |members|
        invariant forall i: nat :: i < |rows| && GroupOf(rows[i]) !in todo ==> written[i] == Ordinal(rows, i)
        invariant forall k :: 0 <= k < |members| ==> members[k] < |rows|
        invariant forall k :: 0 <= k < ordinal ==> written[members[k]] == Ordinal(rows, members[k])
      {
        PlaceIsOrdinal(rows, g, ordinal);
        written[members[ordinal]] := ordinal;
      }
      forall i: nat | i < |rows| && GroupOf(rows[i]) == g ensures written[i] == Ordinal(rows, i) {
        var k := PlaceOf(rows, i);
      }
      todo := todo - {g};
    }
    return written[..];
  }

  /** `site_keys`. */
  method AllSiteKeys(rows: seq<Row>) returns (keys: seq<string>)
    ensures keys == SiteKeyList(rows)
  {
    hide Ordinal, GroupOf, SiteKey;
    var ordinals := AssignOrdinals(rows);
    keys := seq(|rows|, i requires 0 <= i < |rows| => SiteKey(GroupOf(rows[i]), ordinals[i]));
  }

  // ---- What keeps a key apart, and what keeps it the same ----

  function GroupSize(rows: seq<Row>, g: Group): nat
  {
    |Members(rows, g, |rows|)|
  }

  lemma SortedLength(rows: seq<Row>, g: Group)
    ensures |Sorted(rows, g)| == GroupSize(rows, g)
  {
    SortedGroup(rows, g);
    assert |multiset(Sorted(rows, g))| == |multiset(Members(rows, g, |rows|))|;
  }

  /** The ordinals of a group of `n` rows are exactly 0 to `n` - 1, one row each. */
  lemma OrdinalsCoverGroup(rows: seq<Row>, i: nat, j: nat)
    requires i < |rows| && j < |rows| && GroupOf(rows[i]) == GroupOf(rows[j])
    ensures Ordinal(rows, i) < GroupSize(rows, GroupOf(rows[i]))
    ensures Ordinal(rows, i) == Ordinal(rows, j) ==> i == j
  {
    hide GroupOf, Members, Ordinal, Sorted;
    var k := PlaceOf(rows, i);
    var l := PlaceOf(rows, j);
    SortedLength(rows, GroupOf(rows[i]));
  }

  lemma EveryOrdinalIsTaken(rows: seq<Row>, g: Group, k: nat) returns (i: nat)
    requires k < GroupSize(rows, g)
    ensures i < |rows| && GroupOf(rows[i]) == g && Ordinal(rows, i) == k
  {
    SortedLength(rows, g);
    PlaceIsOrdinal(rows, g, k);
    i := Sorted(rows, g)[k];
  }

  // Reading a key back.

  /** Without NUL in the repo and the path, a key gives back its four parts. */
  lemma SiteKeyInjective(g: Group, m: nat, h: Group, n: nat)
    requires NUL !in g.0 && NUL !in g.1 && NUL !in h.0 && NUL !in h.1 && |g.2| == |h.2|
    requires SiteKey(g, m) == SiteKey(h, n)
    ensures g == h && m == n
  {
    var (u, v) := (g.2 + [NUL] + Decimal(m), h.2 + [NUL] + Decimal(n));
    assert SiteKey(g, m) == g.0 + [NUL] + (g.1 + [NUL] + u);
    assert SiteKey(h, n) == h.0 + [NUL] + (h.1 + [NUL] + v);
    FirstSeparator(g.0, g.1 + [NUL] + u, h.0, h.1 + [NUL] + v, NUL);
    FirstSeparator(g.1, u, h.1, v, NUL);
    assert u[..|g.2|] == g.2 && v[..|h.2|] == h.2;
    assert u[|g.2| + 1..] == Decimal(m) && v[|h.2| + 1..] == Decimal(n);
    DecimalValue(m);
    DecimalValue(n);
  }

  lemma FingerprintLength(r: Row)
    ensures |GroupOf(r).2| == 16
  {
  }

  /** All keys of a run are different, even where fingerprints collide. */
  lemma KeysAreDistinct(rows: seq<Row>, i: nat, j: nat)
    requires i < j < |rows|
    requires forall k: nat :: k < |rows| ==> NUL !in rows[k].repo && NUL !in rows[k].path
    ensures SiteKeyList(rows)[i] != SiteKeyList(rows)[j]
  {
    if SiteKeyOf(rows, i) == SiteKeyOf(rows, j) {
      hide Ordinal, SiteKey, Fingerprint;
      FingerprintLength(rows[i]);
      FingerprintLength(rows[j]);
      SiteKeyInjective(GroupOf(rows[i]), Ordinal(rows, i), GroupOf(rows[j]), Ordinal(rows, j));
      OrdinalsCoverGroup(rows, i, j);
      assert false;
    }
  }

  // Reordering the rows.

  function PartsOf(rows: seq<Row>, i: nat): (Group, nat)
    requires i < |rows|
  {
    (GroupOf(rows[i]), Ordinal(rows, i))
  }

  function PartsList(rows: seq<Row>): seq<(Group, nat)>
  {
    seq(|rows|, i requires 0 <= i < |rows| => PartsOf(rows, i))
  }

  function KeyText(): ((Group, nat)) -> string
  {
    (parts: (Group, nat)) => SiteKey(parts.0, parts.1)
  }

  function InGroup(g: Group): Row -> bool
  {
    (r: Row) => GroupOf(r) == g
  }

  lemma {:induction false} MembersCount(rows: seq<Row>, g: Group, n: nat)
    requires n <= |rows|
    ensures |Members(rows, g, n)| == Count(rows[..n], InGroup(g))
  {
    hide GroupOf;
    if n > 0 {
      MembersCount(rows, g, n - 1);
      assert rows[..n] == rows[..n - 1] + [rows[n - 1]];
      CountConcat(rows[..n - 1], [rows[n - 1]], InGroup(g));
    }
  }

  lemma GroupSizeIsCount(rows: seq<Row>, g: Group)
    ensures GroupSize(rows, g) == Count(rows, InGroup(g))
  {
    MembersCount(rows, g, |rows|);
    assert rows[..|rows|] == rows;
  }

  /** Every (group, ordinal) pair below the group's size occurs once, and no other occurs. */
  lemma PartsMultiplicity(rows: seq<Row>, g: Group, k: nat)
    ensures multiset(PartsList(rows))[(g, k)] == if k < GroupSize(rows, g) then 1 else 0
  {
    hide GroupOf, Ordinal, GroupSize;
    var parts := PartsList(rows);
    forall i: nat, j: nat | i < j < |rows| ensures parts[i] != parts[j] {
      if GroupOf(rows[i]) == GroupOf(rows[j]) { OrdinalsCoverGroup(rows, i, j); }
    }
    DistinctMultiplicity(parts, (g, k));
    if k < GroupSize(rows, g) {
      var i := EveryOrdinalIsTaken(rows, g, k);
      assert parts[i] == (g, k);
    } else if (g, k) in parts {
      var i :| 0 <= i < |parts| && parts[i] == (g, k);
      OrdinalsCoverGroup(rows, i, i);
    }
  }

  lemma ReorderingKeepsTheParts(rows: seq<Row>, rows': seq<Row>)
    requires multiset(rows) == multiset(rows')
    ensures multiset(PartsList(rows)) == multiset(PartsList(rows'))
  {
    hide PartsList, GroupSize, Count;
    var left, right := multiset(PartsList(rows)), multiset(PartsList(rows'));
    forall parts ensures left[parts] == right[parts] {
      var (g, k) := parts;
      PartsMultiplicity(rows, g, k);
      PartsMultiplicity(rows', g, k);
      GroupSizeIsCount(rows, g);
      GroupSizeIsCount(rows', g);
      CountPermutation(rows, rows', InGroup(g));
    }
    assert left == right;
  }

  lemma KeysAreTextsOfParts(rows: seq<Row>)
    ensures Map(PartsList(rows), KeyText()) == SiteKeyList(rows)
  {
    hide GroupOf, Ordinal, SiteKey;
  }

  /** The same rows in any order get the same keys, as a multiset. */
  lemma ReorderingKeepsTheKeys(rows: seq<Row>, rows': seq<Row>)
    requires multiset(rows) == multiset(rows')
    ensures multiset(SiteKeyList(rows)) == multiset(SiteKeyList(rows'))
  {
    KeysAreTextsOfParts(rows);
    KeysAreTextsOfParts(rows');
    ReorderingKeepsTheParts(rows, rows');
    hide PartsList, SiteKeyList, KeyText;
    MapPermutation(PartsList(rows), PartsList(rows'), KeyText());
  }

  function TiedWith(r: Row): Row -> bool
  {
    (s: Row) => GroupOf(s) == GroupOf(r) && s.line == r.line && s.advisory == r.advisory
  }

  /** No other row of its group has both the line and the advisory of row `i`. */
  ghost predicate Untied(rows: seq<Row>, i: nat)
    requires i < |rows|
  {
    forall a: nat :: a < |rows| && a != i ==> !TiedWith(rows[i])(rows[a])
  }

  function EarlierInGroup(r: Row): Row -> bool
  {
    (s: Row) => GroupOf(s) == GroupOf(r) && KeyBefore(s, r)
  }

  lemma UntiedReordered(rows: seq<Row>, rows': seq<Row>, i: nat, j: nat)
    requires multiset(rows) == multiset(rows') && i < |rows| && j < |rows'| && rows[i] == rows'[j] && Untied(rows, i)
    ensures Untied(rows', j)
  {
    hide GroupOf;
    CountOne(rows, TiedWith(rows[i]), i);
    CountPermutation(rows, rows', TiedWith(rows[i]));
    CountOne(rows', TiedWith(rows[i]), j);
  }

  lemma {:induction false} OrdinalCountTo(rows: seq<Row>, i: nat, n: nat)
    requires i < |rows| && Untied(rows, i) && n <= |rows|
    ensures Count(Members(rows, GroupOf(rows[i]), n), NumberedBefore(rows, i)) == Count(rows[..n], EarlierInGroup(rows[i]))
  {
    hide GroupOf;
    if n > 0 {
      var last: nat := n - 1;
      OrdinalCountTo(rows, i, last);
      assert rows[..n] == rows[..last] + [rows[last]];
      CountConcat(rows[..last], [rows[last]], EarlierInGroup(rows[i]));
      CountConcat<nat>(Members(rows, GroupOf(rows[i]), last), [last], NumberedBefore(rows, i));
      StringLessTotal(rows[last].advisory, rows[i].advisory);
    }
  }

  lemma OrdinalIsCount(rows: seq<Row>, i: nat)
    requires i < |rows| && Untied(rows, i)
    ensures Ordinal(rows, i) == Count(rows, EarlierInGroup(rows[i]))
  {
    hide GroupOf, Untied, Members, NumberedBefore, EarlierInGroup;
    OrdinalCountTo(rows, i, |rows|);
    assert rows[..|rows|] == rows;
  }

  /** A row without ties keeps its own key however the rows are ordered. */
  lemma ReorderingKeepsEachKey(rows: seq<Row>, rows': seq<Row>, i: nat, j: nat)
    requires multiset(rows) == multiset(rows') && i < |rows| && Untied(rows, i)
    requires j < |rows'| && rows[i] == rows'[j]
    ensures SiteKeyOf(rows, i) == SiteKeyOf(rows', j)
  {
    hide GroupOf, Ordinal, Untied;
    UntiedReordered(rows, rows', i, j);
    OrdinalIsCount(rows, i);
    OrdinalIsCount(rows', j);
    CountPermutation(rows, rows', EarlierInGroup(rows[i]));
  }

  // The same order inside each group.

  /** Row for row the same groups, and inside each group the same order. */
  ghost predicate SameOrder(rows: seq<Row>, rows': seq<Row>)
  {
    && |rows| == |rows'|
    && (forall i: nat :: i < |rows| ==> GroupOf(rows[i]) == GroupOf(rows'[i]))
    && (forall i: nat, j: nat :: i < |rows| && j < |rows| && GroupOf(rows[i]) == GroupOf(rows[j]) ==>
          (Before(rows, i, j) <==> Before(rows', i, j)))
  }

  lemma {:induction false} SameMembers(rows: seq<Row>, rows': seq<Row>, g: Group, n: nat)
    requires SameOrder(rows, rows') && n <= |rows| == |rows'|
    ensures Members(rows, g, n) == Members(rows', g, n)
  {
    hide GroupOf, Before;
    if n > 0 { SameMembers(rows, rows', g, n - 1); }
  }

  lemma SameOrdinal(rows: seq<Row>, rows': seq<Row>, i: nat)
    requires SameOrder(rows, rows') && i < |rows| == |rows'|
    ensures SiteKeyOf(rows, i) == SiteKeyOf(rows', i)
  {
    var g := GroupOf(rows[i]);
    SameMembers(rows, rows', g, |rows|);
    MembersSpec(rows, g, |rows|);
    hide GroupOf, Before, Members;
    forall j | j in Members(rows, g, |rows|) ensures NumberedBefore(rows, i)(j) == NumberedBefore(rows', i)(j) {
      assert Before(rows, j, i) <==> Before(rows', j, i);
    }
    CountAgrees(Members(rows, g, |rows|), NumberedBefore(rows, i), NumberedBefore(rows', i));
  }

  // Ties.

  /** The rows with two of them changing places. */
  function Swapped(rows: seq<Row>, i: nat, k: nat): seq<Row>
    requires i < |rows| && k < |rows|
  {
    rows[i := rows[k]][k := rows[i]]
  }

  lemma SwappedTiesKeepOrder(rows: seq<Row>, i: nat, k: nat)
    requires i < |rows| && k < |rows| && TiedWith(rows[i])(rows[k])
    ensures SameOrder(rows, Swapped(rows, i, k))
  {
    hide GroupOf, StringLess;
    var rows' := Swapped(rows, i, k);
    forall a: nat | a < |rows|
      ensures GroupOf(rows[a]) == GroupOf(rows'[a])
      ensures rows[a].line == rows'[a].line && rows[a].advisory == rows'[a].advisory
    {
    }
  }

  lemma OrdinalInKey(g: Group, m: nat, n: nat)
    ensures SiteKey(g, m) == SiteKey(g, n) ==> m == n
  {
    var head := g.0 + [NUL] + g.1 + [NUL] + g.2 + [NUL];
    assert SiteKey(g, m)[|head|..] == Decimal(m) && SiteKey(g, n)[|head|..] == Decimal(n);
    DecimalValue(m);
    DecimalValue(n);
  }

  /** Two tied rows that change places change keys: each gets the other's ordinal. */
  lemma TiedRowsSwapKeys(rows: seq<Row>, i: nat, k: nat)
    requires i < |rows| && k < |rows| && i != k && TiedWith(rows[i])(rows[k])
    ensures var rows' := Swapped(rows, i, k);
            && multiset(rows') == multiset(rows) && rows'[k] == rows[i]
            && SiteKeyOf(rows', k) == SiteKeyOf(rows, k) && SiteKeyOf(rows', k) != SiteKeyOf(rows, i)
  {
    hide GroupOf, Ordinal, SiteKey, SameOrder;
    SwappedTiesKeepOrder(rows, i, k);
    SameOrdinal(rows, Swapped(rows, i, k), k);
    OrdinalsCoverGroup(rows, i, k);
    OrdinalInKey(GroupOf(rows[i]), Ordinal(rows, i), Ordinal(rows, k));
  }

  /** A row keeps its key in every order of the same rows exactly when no other row ties with it. */
  lemma RowKeepsItsKeyIff(rows: seq<Row>, i: nat)
    requires i < |rows|
    ensures Untied(rows, i) <==>
            forall rows': seq<Row>, j: nat ::
              multiset(rows) == multiset(rows') && j < |rows'| && rows[i] == rows'[j] ==>
                SiteKeyOf(rows, i) == SiteKeyOf(rows', j)
  {
    hide TiedWith, SiteKeyOf;
    if Untied(rows, i) {
      forall rows': seq<Row>, j: nat | multiset(rows) == multiset(rows') && j < |rows'| && rows[i] == rows'[j]
        ensures SiteKeyOf(rows, i) == SiteKeyOf(rows', j)
      {
        ReorderingKeepsEachKey(rows, rows', i, j);
      }
    } else {
      var k: nat :| k < |rows| && k != i && TiedWith(rows[i])(rows[k]);
      TiedRowsSwapKeys(rows, i, k);
    }
  }

  lemma LayoutKeepsFingerprint(ruleId: string)
    ensures Fingerprint(ruleId, "f ()") == Fingerprint(ruleId, "f  ()")
  {
    hide Fingerprint;
    var words := ["f", "()"];
    assert words[1..] == ["()"] && [" ", ""][1..] == [""] && ["  ", ""][1..] == [""];
    assert Layout(["()"], [""]) == "()";
    assert "" + Layout(words, [" ", ""]) == "f ()" && "" + Layout(words, ["  ", ""]) == "f  ()";
    RelayoutKeepsFingerprint(ruleId, words, "", [" ", ""], "", ["  ", ""]);
  }

  /** Two rows on one line whose snippets differ in layout only are tied: in the other order they change keys. */
  lemma LayoutTieWitness(a: Row)
    requires a.snippet == "f ()"
    ensures var b := a.(snippet := "f  ()");
            a != b && SiteKeyOf([b, a], 1) == SiteKeyOf([a, b], 1) && SiteKeyOf([b, a], 1) != SiteKeyOf([a, b], 0)
  {
    var b := a.(snippet := "f  ()");
    LayoutKeepsFingerprint(a.ruleId);
    hide Fingerprint, SiteKeyOf;
    assert |a.snippet| != |b.snippet|;
    assert Swapped([a, b], 0, 1) == [b, a];
    TiedRowsSwapKeys([a, b], 0, 1);
  }

  // Moving lines.

  /** The same rows but for their lines, which keep their order inside each group. */
  ghost predicate LinesMoved(rows: seq<Row>, rows': seq<Row>)
  {
    && |rows| == |rows'|
    && (forall i: nat :: i < |rows| ==> rows'[i] == rows[i].(line := rows'[i].line))
    && (forall i: nat, j: nat :: i < |rows| && j < |rows| && GroupOf(rows[i]) == GroupOf(rows[j]) ==>
          (rows[i].line < rows[j].line <==> rows'[i].line < rows'[j].line))
  }

  lemma MovedLinesKeepOrder(rows: seq<Row>, rows': seq<Row>)
    requires LinesMoved(rows, rows')
    ensures SameOrder(rows, rows')
  {
    hide StringLess, Fingerprint;
    forall i: nat | i < |rows|
      ensures GroupOf(rows[i]) == GroupOf(rows'[i]) && rows[i].advisory == rows'[i].advisory
    {
      assert rows'[i] == rows[i].(line := rows'[i].line);
    }
  }

  /** An edit that moves lines without reordering a group changes no key. */
  lemma MovingLinesKeepsKeys(rows: seq<Row>, rows': seq<Row>)
    requires LinesMoved(rows, rows')
    ensures SiteKeyList(rows) == SiteKeyList(rows')
  {
    MovedLinesKeepOrder(rows, rows');
    forall i: nat | i < |rows| ensures SiteKeyOf(rows, i) == SiteKeyOf(rows', i) {
      SameOrdinal(rows, rows', i);
    }
    hide SiteKeyOf;
  }

  // From the rows' own columns.

  /** The order of the advisory ids, spelled out: the first character that differs decides, or the shorter is first. */
  ghost predicate IsDictionaryLess(a: string, b: string, k: nat)
  {
    && k <= |a| && k <= |b| && a[..k] == b[..k]
    && (if k == |a| then k < |b| else k < |b| && a[k] < b[k])
  }

  lemma {:induction false} StringLessIff(a: string, b: string)
    ensures StringLess(a, b) <==> exists k: nat :: IsDictionaryLess(a, b, k)
  {
    if a != [] && b != [] && a[0] == b[0] {
      StringLessIff(a[1..], b[1..]);
      if k: nat :| IsDictionaryLess(a[1..], b[1..], k) {
        assert a[..k + 1] == [a[0]] + a[1..][..k] && b[..k + 1] == [b[0]] + b[1..][..k];
        assert IsDictionaryLess(a, b, k + 1);
      }
      if k: nat :| IsDictionaryLess(a, b, k) {
        assert k > 0 && a[1..][..k - 1] == a[..k][1..] && b[1..][..k - 1] == b[..k][1..];
        assert IsDictionaryLess(a[1..], b[1..], k - 1);
      }
    } else {
      if StringLess(a, b) { assert IsDictionaryLess(a, b, 0); }
      if k: nat :| IsDictionaryLess(a, b, k) { assert k > 0 ==> a[..k][0] == b[..k][0]; }
    }
  }

  /** Rows of different repos, paths or fingerprints never share a group. */
  lemma GroupIs(r: Row, s: Row)
    ensures GroupOf(r) == GroupOf(s) <==>
            r.repo == s.repo && r.path == s.path && Fingerprint(r.ruleId, r.snippet) == Fingerprint(s.ruleId, s.snippet)
  {
  }

  lemma {:induction false} CountSubset(members: seq<nat>, p: nat -> bool, q: nat -> bool)
    requires forall y :: y in members && p(y) ==> q(y)
    ensures Count(members, p) <= Count(members, q)
  {
    if members != [] {
      assert members[0] in members;
      CountSubset(members[1..], p, q);
    }
  }

  lemma {:induction false} CountStep(members: seq<nat>, p: nat -> bool, q: nat -> bool, x: nat)
    requires x in members && !p(x) && q(x) && forall y :: y in members && p(y) ==> q(y)
    ensures Count(members, p) < Count(members, q)
  {
    if members[0] == x {
      CountSubset(members[1..], p, q);
    } else {
      CountStep(members[1..], p, q, x);
    }
  }

  /** Inside a group the ordinals follow the lines, then the advisories, then the order of arrival. */
  lemma OrdinalsFollowLines(rows: seq<Row>, i: nat, j: nat)
    requires i < |rows| && j < |rows| && GroupOf(rows[i]) == GroupOf(rows[j])
    requires || rows[i].line < rows[j].line
             || (rows[i].line == rows[j].line && exists k: nat :: IsDictionaryLess(rows[i].advisory, rows[j].advisory, k))
             || (rows[i].line == rows[j].line && rows[i].advisory == rows[j].advisory && i < j)
    ensures Ordinal(rows, i) < Ordinal(rows, j)
  {
    StringLessIff(rows[i].advisory, rows[j].advisory);
    StringLessTotal(rows[i].advisory, rows[j].advisory);
    assert Before(rows, i, j);
    var members := Members(rows, GroupOf(rows[i]), |rows|);
    MembersSpec(rows, GroupOf(rows[i]), |rows|);
    BeforeIsOrder(rows, i, i, i);
    hide GroupOf, Before, Members, IsDictionaryLess;
    forall y | y in members && NumberedBefore(rows, i)(y) ensures NumberedBefore(rows, j)(y) {
      BeforeIsOrder(rows, y, i, j);
    }
    CountStep(members, NumberedBefore(rows, i), NumberedBefore(rows, j), i);
  }

  lemma LoneRowOrdinal(rows: seq<Row>, i: nat)
    requires i < |rows| && forall j: nat :: j < |rows| && j != i ==> GroupOf(rows[j]) != GroupOf(rows[i])
    ensures Ordinal(rows, i) == 0
  {
    var members := Members(rows, GroupOf(rows[i]), |rows|);
    MembersSpec(rows, GroupOf(rows[i]), |rows|);
    BeforeIsOrder(rows, i, i, i);
    CountAll(members, NumberedBefore(rows, i));
  }

  /** A row alone in its group has ordinal 0, written out in its key. */
  lemma LoneRowKey(rows: seq<Row>, i: nat)
    requires i < |rows| && forall j: nat :: j < |rows| && j != i ==> GroupOf(rows[j]) != GroupOf(rows[i])
    ensures SiteKeyOf(rows, i) ==
            rows[i].repo + "\0" + rows[i].path + "\0" + Fingerprint(rows[i].ruleId, rows[i].snippet) + "\0" + "0"
  {
    LoneRowOrdinal(rows, i);
    assert [NUL] == "\0";
  }

  /** Two rules on one line do not number each other: their ids one byte apart, both rows have ordinal 0. */
  lemma RulesNumberApart(a: Row, b: Row, before: seq<Byte>, x: Byte, y: Byte, after: seq<Byte>)
    requires b == a.(ruleId := b.ruleId) && x != y
    requires Utf8(a.ruleId) == before + [x] + after && Utf8(b.ruleId) == before + [y] + after
    ensures GroupOf(a) != GroupOf(b) && Ordinal([a, b], 0) == 0 && Ordinal([a, b], 1) == 0
  {
    OneByteRuleEditChangesFingerprint(a.ruleId, b.ruleId, a.snippet, before, x, y, after);
    hide Fingerprint, Utf8;
    hide Ordinal;
    LoneRowOrdinal([a, b], 0);
    LoneRowOrdinal([a, b], 1);
  }
}
