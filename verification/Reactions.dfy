/**
  Reaction awareness (src/fabric_context/reactions.rs): the reactions dated inside one cursor window
  are grouped by message and emoji, ordered, and capped.
 */
module Reactions {
  import opened Orders
  import opened Numbers
  import opened Cursor

  const MAX_REACTION_ROWS: nat := 8

  /** One captured reaction; `at` is its creation time. */
  datatype Cap = Cap(reactor: string, emoji: string, target: string, snippet: string, at: nat)

  datatype Group = Group(reactors: seq<string>, emoji: string, snippet: string, latest: nat)

  /** A rendered row; the source prints the age of `latest`. */
  datatype Row = Row(reactors: seq<string>, emoji: string, snippet: string, latest: nat)

  type Key = (string, string)

  function KeyOf(c: Cap): Key { (c.target, c.emoji) }

  predicate PairLe(a: Key, b: Key) {
    (a.0 != b.0 && StrLe(a.0, b.0)) || (a.0 == b.0 && StrLe(a.1, b.1))
  }

  /** Oldest first, then by snippet, then by emoji. */
  predicate GroupLe(a: Group, b: Group) {
    || a.latest < b.latest
    || (a.latest == b.latest && PairLe((a.snippet, a.emoji), (b.snippet, b.emoji)))
  }

  lemma PairLeIsOrder()
    ensures TotalOrder(PairLe)
  {
    StrLeIsOrder();
  }

  lemma GroupLeIsOrder()
    ensures TotalPreorder(GroupLe)
  {
    PairLeIsOrder();
    forall a, b, c | GroupLe(a, b) && GroupLe(b, c) ensures GroupLe(a, c) {
      GroupLeTransitive(a, b, c);
    }
  }

  lemma GroupLeTransitive(a: Group, b: Group, c: Group)
    requires TotalOrder(PairLe) && GroupLe(a, b) && GroupLe(b, c)
    ensures GroupLe(a, c)
  {
    if a.latest == b.latest == c.latest {
      assert PairLe((a.snippet, a.emoji), (c.snippet, c.emoji)) by {
        assert PairLe((b.snippet, b.emoji), (c.snippet, c.emoji));
      }
    }
  }

  // ---- grouping ----

  function Join(g: Group, c: Cap): Group {
    g.(reactors := if c.reactor in g.reactors then g.reactors else g.reactors + [c.reactor],
       latest := Max(g.latest, c.at))
  }

  function Add(groups: map<Key, Group>, c: Cap): map<Key, Group> {
    var key := KeyOf(c);
    var group := if key in groups then groups[key] else Group([], c.emoji, c.snippet, 0);
    groups[key := Join(group, c)]
  }

  function GroupsOf(sources: seq<Cap>, w: Window): map<Key, Group> {
    if sources == [] then map[] else
      var last, groups := sources[|sources| - 1], GroupsOf(sources[..|sources| - 1], w);
      if Within(w, last.at) then Add(groups, last) else groups
  }

  /** The reaction counts in window `w`, under key `k`. */
  ghost predicate Counted(sources: seq<Cap>, w: Window, k: Key, c: Cap) {
    c in sources && Within(w, c.at) && KeyOf(c) == k
  }

  /** `g` is what the reactions counted under `k` amount to. */
  ghost predicate Summarises(g: Group, sources: seq<Cap>, w: Window, k: Key) {
    && g.emoji == k.1 && NoRepeats(g.reactors)
    && (forall r :: r in g.reactors <==> exists c :: Counted(sources, w, k, c) && c.reactor == r)
    && (forall c :: Counted(sources, w, k, c) ==> c.at <= g.latest)
    && (exists c :: Counted(sources, w, k, c) && c.at == g.latest)
    && (exists c :: Counted(sources, w, k, c) && c.snippet == g.snippet)
  }

  lemma JoinSummarises(g: Group, sources: seq<Cap>, c: Cap, w: Window, k: Key)
    requires Within(w, c.at) && KeyOf(c) == k && Summarises(g, sources, w, k)
    ensures Summarises(Join(g, c), sources + [c], w, k)
  {
    var more := sources + [c];
    assert forall d :: Counted(more, w, k, d) <==> Counted(sources, w, k, d) || d == c;
    assert Counted(more, w, k, c);
    forall r ensures r in Join(g, c).reactors <==> exists d :: Counted(more, w, k, d) && d.reactor == r {
      if r in g.reactors {
        var d :| Counted(sources, w, k, d) && d.reactor == r;
        assert Counted(more, w, k, d);
      }
    }
    var d :| Counted(sources, w, k, d) && d.at == g.latest;
    assert Counted(more, w, k, d);
    var e :| Counted(sources, w, k, e) && e.snippet == g.snippet;
    assert Counted(more, w, k, e);
  }

  lemma StartSummarises(sources: seq<Cap>, c: Cap, w: Window, k: Key)
    requires Within(w, c.at) && KeyOf(c) == k && forall d :: !Counted(sources, w, k, d)
    ensures Summarises(Join(Group([], c.emoji, c.snippet, 0), c), sources + [c], w, k)
  {
    var more := sources + [c];
    assert Counted(more, w, k, c);
    forall d | Counted(more, w, k, d) ensures d == c {
      assert !Counted(sources, w, k, d);
    }
  }

  lemma SkipSummarises(sources: seq<Cap>, c: Cap, w: Window, k: Key)
    requires !(Within(w, c.at) && KeyOf(c) == k)
    ensures forall d :: Counted(sources + [c], w, k, d) <==> Counted(sources, w, k, d)
    ensures forall g :: Summarises(g, sources, w, k) ==> Summarises(g, sources + [c], w, k)
  {
    forall g | Summarises(g, sources, w, k) ensures Summarises(g, sources + [c], w, k) {
      assert forall d :: Counted(sources + [c], w, k, d) <==> Counted(sources, w, k, d);
      var d :| Counted(sources, w, k, d) && d.at == g.latest;
      assert Counted(sources + [c], w, k, d);
      var e :| Counted(sources, w, k, e) && e.snippet == g.snippet;
      assert Counted(sources + [c], w, k, e);
    }
  }

  /** There is a group exactly for the keys that count, and it says what counts. */
  lemma {:induction false} GroupsMean(sources: seq<Cap>, w: Window, k: Key)
    ensures k in GroupsOf(sources, w) <==> exists c :: Counted(sources, w, k, c)
    ensures k in GroupsOf(sources, w) ==> Summarises(GroupsOf(sources, w)[k], sources, w, k)
  {
    if sources != [] {
      var front, c := sources[..|sources| - 1], sources[|sources| - 1];
      assert sources == front + [c];
      GroupsMean(front, w, k);
      if !(Within(w, c.at) && KeyOf(c) == k) {
        SkipSummarises(front, c, w, k);
      } else if k in GroupsOf(front, w) {
        JoinSummarises(GroupsOf(front, w)[k], front, c, w, k);
        assert Counted(sources, w, k, c);
      } else {
        StartSummarises(front, c, w, k);
        assert Counted(sources, w, k, c);
      }
    }
  }

  predicate Counts(c: Cap, w: Window, k: Key) {
    w.lo < c.at <= w.hi && c.target == k.0 && c.emoji == k.1
  }

  /** A group shows the snippet of the first reaction that counts in it. */
  lemma {:induction false} SnippetOfFirst(sources: seq<Cap>, w: Window, k: Key, i: nat)
    requires i < |sources| && Counts(sources[i], w, k) && forall j :: 0 <= j < i ==> !Counts(sources[j], w, k)
    ensures k in GroupsOf(sources, w) && GroupsOf(sources, w)[k].snippet == sources[i].snippet
  {
    var front, n := sources[..|sources| - 1], |sources| - 1;
    if i < n {
      assert front[i] == sources[i] && forall j :: 0 <= j < i ==> front[j] == sources[j];
      SnippetOfFirst(front, w, k, i);
    } else {
      GroupsMean(front, w, k);
      assert forall c :: !Counted(front, w, k, c);
    }
  }

  // ---- rendering ----

  function RowOf(g: Group): Row {
    Row(SortBy(g.reactors, StrLe), g.emoji, g.snippet, g.latest)
  }

  ghost function Listing(groups: map<Key, Group>): (gs: seq<Group>)
    ensures |gs| == |groups|
    ensures forall k :: k in groups ==> groups[k] in gs
    ensures forall g :: g in gs ==> exists k :: k in groups && groups[k] == g
  {
    PairLeIsOrder();
    var keys := InOrder(groups.Keys, PairLe);
    ListsSize(keys, groups.Keys);
    var gs := seq(|keys|, i requires 0 <= i < |keys| => assert keys[i] in keys; groups[keys[i]]);
    ListingIsComplete(groups, keys, gs);
    gs
  }

  lemma ListingIsComplete(groups: map<Key, Group>, keys: seq<Key>, gs: seq<Group>)
    requires Lists(keys, groups.Keys) && |gs| == |keys|
    requires forall i :: 0 <= i < |keys| ==> keys[i] in groups && gs[i] == groups[keys[i]]
    ensures forall k :: k in groups ==> groups[k] in gs
    ensures forall g :: g in gs ==> exists k :: k in groups && groups[k] == g
  {
    forall k | k in groups ensures groups[k] in gs {
      var i :| 0 <= i < |keys| && keys[i] == k;
      assert gs[i] == groups[k];
    }
  }

  /** The groups in the order in which they are rendered. */
  ghost function Ordered(groups: map<Key, Group>): seq<Group> {
    SortBy(Listing(groups), GroupLe)
  }

  function Shown(n: nat): nat { if n <= MAX_REACTION_ROWS then n else MAX_REACTION_ROWS }

  ghost function Rendered(groups: map<Key, Group>): seq<Row> {
    Project(Ordered(groups)[..Shown(|groups|)], RowOf)
  }

  method GroupReactions(sources: seq<Cap>, cursor: nat, now: nat) returns (rows: seq<Row>, omitted: nat)
    ensures rows == Rendered(GroupsOf(sources, Window(cursor, now)))
    ensures |rows| + omitted == |GroupsOf(sources, Window(cursor, now))|
    ensures |rows| <= 8 && (|rows| < 8 ==> omitted == 0)
  {
    var w := Window(cursor, now);
    var groups: map<Key, Group> := map[];
    for i := 0 to |sources|
      invariant groups == GroupsOf(sources[..i], w)
    {
      assert sources[..i + 1][..i] == sources[..i];
      if Within(w, sources[i].at) { groups := Add(groups, sources[i]); }
    }
    assert sources[..|sources|] == sources;
    PairLeIsOrder();
    var keys := WalkInOrder(groups.Keys, PairLe);
    assert forall i :: 0 <= i < |keys| ==> keys[i] in keys;
    var ordered := SortBy(seq(|keys|, i requires 0 <= i < |keys| => groups[keys[i]]), GroupLe);
    assert ordered == Ordered(groups);
    var total := |ordered|;
    omitted := if total <= MAX_REACTION_ROWS then 0 else total - MAX_REACTION_ROWS;
    rows := Project(ordered[..Shown(total)], RowOf);
  }

  /** The cap drops only later groups, and nothing when at most eight groups count. */
  lemma {:induction false} CapDropsTheNewest(groups: map<Key, Group>, k: Key)
    requires k in groups
    ensures RowOf(groups[k]) in Rendered(groups) ||
      forall i :: 0 <= i < |Rendered(groups)| ==> GroupLe(Ordered(groups)[i], groups[k])
    ensures |groups| <= MAX_REACTION_ROWS ==> RowOf(groups[k]) in Rendered(groups)
  {
    var i := Rank(groups, k);
    CutAt(Ordered(groups), Shown(|groups|), i);
  }

  lemma Rank(groups: map<Key, Group>, k: Key) returns (i: nat)
    requires k in groups
    ensures i < |Ordered(groups)| == |groups| && Ordered(groups)[i] == groups[k]
    ensures Sorted(Ordered(groups), GroupLe)
  {
    GroupLeIsOrder();
    SortBySorted(Listing(groups), GroupLe);
    SameElements(Listing(groups), Ordered(groups));
    assert groups[k] in Ordered(groups);
    i :| 0 <= i < |Ordered(groups)| && Ordered(groups)[i] == groups[k];
  }

  lemma CutAt(ordered: seq<Group>, n: nat, i: nat)
    requires Sorted(ordered, GroupLe) && n <= |ordered| && i < |ordered|
    ensures i < n ==> RowOf(ordered[i]) in Project(ordered[..n], RowOf)
    ensures n <= i ==> forall k :: 0 <= k < n ==> GroupLe(ordered[k], ordered[i])
  {
    if i < n { assert Project(ordered[..n], RowOf)[i] == RowOf(ordered[i]); }
  }

  /** The row shows the group's emoji, snippet and latest time, and its reactors in ascending order. */
  ghost predicate Shows(row: Row, g: Group) {
    && row.emoji == g.emoji && row.snippet == g.snippet && row.latest == g.latest
    && multiset(row.reactors) == multiset(g.reactors)
    && forall i, j :: 0 <= i < j < |row.reactors| ==> StrLe(row.reactors[i], row.reactors[j])
  }

  lemma {:induction false} RowShows(g: Group)
    ensures Shows(RowOf(g), g)
  {
    StrLeIsOrder();
    SortBySorted(g.reactors, StrLe);
  }

  ghost predicate Earlier(a: Row, b: Row) {
    || a.latest < b.latest
    || (a.latest == b.latest && a.snippet != b.snippet && StrLe(a.snippet, b.snippet))
    || (a.latest == b.latest && a.snippet == b.snippet && StrLe(a.emoji, b.emoji))
  }

  lemma {:induction false} EarlierRow(a: Group, b: Group)
    requires GroupLe(a, b)
    ensures Earlier(RowOf(a), RowOf(b))
  {}

  lemma {:induction false} OrderedGroups(groups: map<Key, Group>)
    ensures Sorted(Ordered(groups), GroupLe) && |Ordered(groups)| == |groups|
    ensures forall g :: g in Ordered(groups) ==> exists k :: k in groups && groups[k] == g
  {
    GroupLeIsOrder();
    SortBySorted(Listing(groups), GroupLe);
    SameElements(Listing(groups), Ordered(groups));
  }

  lemma {:induction false} RowIsOfGroup(groups: map<Key, Group>, i: nat) returns (k: Key)
    requires i < |Rendered(groups)|
    ensures k in groups && i < |Ordered(groups)| && groups[k] == Ordered(groups)[i]
    ensures Rendered(groups)[i] == RowOf(groups[k]) && Shows(Rendered(groups)[i], groups[k])
  {
    OrderedGroups(groups);
    var g := Ordered(groups)[i];
    assert g in Ordered(groups);
    k :| k in groups && groups[k] == g;
    RowShows(g);
  }

  /** Every row is that of a group, and rows come by time, then snippet, then emoji. */
  lemma {:induction false} RowsInOrder(groups: map<Key, Group>, i: nat, j: nat) returns (k: Key, l: Key)
    requires i < j < |Rendered(groups)|
    ensures k in groups && Shows(Rendered(groups)[i], groups[k])
    ensures l in groups && Shows(Rendered(groups)[j], groups[l])
    ensures Earlier(Rendered(groups)[i], Rendered(groups)[j])
  {
    k := RowIsOfGroup(groups, i);
    l := RowIsOfGroup(groups, j);
    OrderedGroups(groups);
    EarlierRow(groups[k], groups[l]);
  }

  /** A group is shown, or eight rows are and none of them is later. */
  lemma {:induction false} ShownOrLater(groups: map<Key, Group>, k: Key)
    requires k in groups
    ensures (exists i :: 0 <= i < |Rendered(groups)| && Shows(Rendered(groups)[i], groups[k]))
      || (|Rendered(groups)| == 8 && forall i :: 0 <= i < 8 ==> Rendered(groups)[i].latest <= groups[k].latest)
  {
    var n := Rank(groups, k);
    RowShows(groups[k]);
    if n < Shown(|groups|) { assert Rendered(groups)[n] == RowOf(groups[k]); }
  }

  // ---- each reaction is reported once ----

  /**
    However hooks interleave: a reaction dated inside the span that a session's cursor has covered,
    and captured by the hook that claimed its window, counts in exactly one claimed window, where
    it is part of the one group of its message and emoji.
   */
  lemma ReactionReportedOnce(steps: seq<Step>, pubkey: string, captured: seq<seq<Cap>>, c: Cap)
    requires pubkey in Run(steps).cursors && 0 < c.at <= Run(steps).cursors[pubkey]
    requires |captured| == |WindowsOf(Run(steps).claims, pubkey)|
    requires forall i :: 0 <= i < |captured| && Within(WindowsOf(Run(steps).claims, pubkey)[i], c.at) ==>
      c in captured[i]
    ensures ReportedOnce(captured, WindowsOf(Run(steps).claims, pubkey), c)
  {
    var ws := WindowsOf(Run(steps).claims, pubkey);
    ClaimsFormAChain(steps, pubkey);
    ChainPartitions(ws, 0, Run(steps).cursors[pubkey], c.at);
    var i :| 0 <= i < |ws| && Within(ws[i], c.at);
    GroupsMean(captured[i], ws[i], KeyOf(c));
    assert Counted(captured[i], ws[i], KeyOf(c), c);
  }

  ghost predicate ReportedOnce(captured: seq<seq<Cap>>, ws: seq<Window>, c: Cap)
    requires |captured| == |ws|
  {
    exists i :: 0 <= i < |ws| && Reported(captured[i], ws[i], c)
      && forall j, k :: 0 <= j < |ws| && Counted(captured[j], ws[j], k, c) ==> j == i && k == KeyOf(c)
  }

  ghost predicate Reported(sources: seq<Cap>, w: Window, c: Cap) {
    && Counted(sources, w, KeyOf(c), c)
    && KeyOf(c) in GroupsOf(sources, w)
    && c.reactor in GroupsOf(sources, w)[KeyOf(c)].reactors
  }
}
