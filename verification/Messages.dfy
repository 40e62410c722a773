/**
  The message rows of a channel (src/fabric_context/assemble.rs): a full view keeps only the recent
  cluster of its four-hour window, a delta keeps everything after the cursor, and messages forced
  in from the inbox are always shown.
 */
module Messages {
  import opened Orders
  import opened Numbers

  const WINDOW_SECS: nat := 14400
  const MAX_CLUSTER_GAP_SECS: nat := 1200
  const MAX_CLUSTER_ROWS: nat := 30

  datatype Ev = Ev(id: string, body: string, at: nat, mentionsSelf: bool, forcedMention: bool)

  datatype Bundle = Bundle(events: seq<Ev>, forced: seq<Ev>)

  /** A rendered message; the source prints the age of `at`. */
  datatype Row = Row(id: string, body: string, at: nat, mention: bool)

  function IdOf(e: Ev): string { e.id }

  predicate EvLe(a: Ev, b: Ev) {
    a.at < b.at || (a.at == b.at && StrLe(a.id, b.id))
  }

  lemma EvLeIsOrder()
    ensures TotalPreorder(EvLe)
  {
    StrLeIsOrder();
  }

  // ---- the recent cluster ----

  predicate Tight(a: Ev, b: Ev) { b.at <= a.at + MAX_CLUSTER_GAP_SECS }

  /** At most thirty rows, none more than twenty minutes after the one before it. */
  ghost predicate Cluster(q: seq<Ev>) {
    |q| <= MAX_CLUSTER_ROWS && forall i :: 0 <= i < |q| - 1 ==> Tight(q[i], q[i + 1])
  }

  /** `start` begins the longest suffix of `s` that is a cluster. */
  ghost predicate StartsLongestCluster(s: seq<Ev>, start: nat) {
    && start <= |s| && Cluster(s[start..])
    && forall k :: 0 <= k <= |s| && Cluster(s[k..]) ==> start <= k
  }

  ghost predicate IsRecentCluster(events: seq<Ev>, r: seq<Ev>) {
    if |events| <= MAX_CLUSTER_ROWS then r == events
    else exists start: nat ::
      StartsLongestCluster(SortBy(events, EvLe), start) && r == SortBy(events, EvLe)[start..]
  }

  method RecentCluster(events: seq<Ev>) returns (r: seq<Ev>)
    ensures IsRecentCluster(events, r)
    ensures events != [] ==> r != []
  {
    if |events| <= MAX_CLUSTER_ROWS { return events; }
    var sorted := SortBy(events, EvLe);
    EvLeIsOrder();
    SortBySorted(events, EvLe);
    var start := |sorted| - 1;
    while start > 0
      invariant 0 <= start < |sorted|
      invariant Cluster(sorted[start..])
    {
      assert EvLe(sorted[start - 1], sorted[start]);
      var gap := SaturatingSub(sorted[start].at, sorted[start - 1].at);
      if gap > MAX_CLUSTER_GAP_SECS || |sorted| - start >= MAX_CLUSTER_ROWS { break; }
      ClusterGrows(sorted, start);
      start := start - 1;
    }
    ClusterStops(sorted, start);
    r := sorted[start..];
  }

  lemma ClusterGrows(s: seq<Ev>, start: nat)
    requires 0 < start < |s| && Cluster(s[start..])
    requires Tight(s[start - 1], s[start]) && |s| - start < MAX_CLUSTER_ROWS
    ensures Cluster(s[start - 1..])
  {
    var q, longer := s[start..], s[start - 1..];
    forall i | 0 <= i < |longer| - 1 ensures Tight(longer[i], longer[i + 1]) {
      if 0 < i { assert longer[i] == q[i - 1] && longer[i + 1] == q[i]; }
    }
  }

  lemma ClusterStops(s: seq<Ev>, start: nat)
    requires start < |s| && Cluster(s[start..])
    requires start == 0 || !Tight(s[start - 1], s[start]) || |s| - start >= MAX_CLUSTER_ROWS
    ensures StartsLongestCluster(s, start)
  {
    forall k | 0 <= k < start ensures !Cluster(s[k..]) {
      var q, i := s[k..], start - 1 - k;
      assert q[i] == s[start - 1] && q[i + 1] == s[start];
    }
  }

  // ---- rows ----

  function Fresh(events: seq<Ev>, since: nat): seq<Ev> {
    if events == [] then [] else
      var last := events[|events| - 1];
      Fresh(events[..|events| - 1], since) + if last.at > since then [last] else []
  }

  /** Forced messages are appended unless their id is already there. */
  function WithForced(kept: seq<Ev>, forced: seq<Ev>): seq<Ev> {
    if forced == [] then kept else
      var shown, last := WithForced(kept, forced[..|forced| - 1]), forced[|forced| - 1];
      if last.id in Project(shown, IdOf) then shown else shown + [last]
  }

  function RowOf(e: Ev, mentions: set<string>): Row {
    Row(e.id, e.body, e.at, e.mentionsSelf || e.id in mentions)
  }

  function Since(cursor: nat, now: nat): nat {
    if cursor == 0 then SaturatingSub(now, WINDOW_SECS) else cursor
  }

  /** After the cursor, or, in a full view, within the last four hours and not at time zero. */
  ghost predicate IsCurrent(e: Ev, cursor: nat, now: nat) {
    if cursor != 0 then cursor < e.at else 0 < e.at && now < e.at + 14400
  }

  /** The positions of the current events. */
  ghost function Current(events: seq<Ev>, cursor: nat, now: nat): set<nat> {
    set i: nat | 0 <= i < |events| && IsCurrent(events[i], cursor, now)
  }

  lemma {:induction false} FreshMeans(events: seq<Ev>, cursor: nat, now: nat)
    ensures forall e :: e in Fresh(events, Since(cursor, now)) <==> e in events && IsCurrent(e, cursor, now)
  {
    if events != [] {
      var front, last := events[..|events| - 1], events[|events| - 1];
      assert events == front + [last];
      FreshMeans(front, cursor, now);
    }
  }

  lemma {:induction false} CurrentSize(events: seq<Ev>, cursor: nat, now: nat)
    ensures |Fresh(events, Since(cursor, now))| == |Current(events, cursor, now)|
  {
    if events == [] {
      assert Current(events, cursor, now) == {};
    } else {
      var front, n := events[..|events| - 1], |events| - 1;
      CurrentSize(front, cursor, now);
      var before := Current(front, cursor, now);
      assert n !in before;
      assert Current(events, cursor, now) == if IsCurrent(events[n], cursor, now) then before + {n} else before;
    }
  }

  /** The events kept before forced ones are added. */
  ghost predicate Keeps(bundle: Bundle, cursor: nat, now: nat, kept: seq<Ev>) {
    var recent := Fresh(bundle.events, Since(cursor, now));
    if cursor == 0 then IsRecentCluster(recent, kept) else kept == recent
  }

  /** The events shown: what is kept and what is forced, in time-and-id order. */
  ghost predicate Shows(bundle: Bundle, cursor: nat, now: nat, kept: seq<Ev>, shown: seq<Ev>) {
    Keeps(bundle, cursor, now, kept) && shown == SortBy(WithForced(kept, bundle.forced), EvLe)
  }

  ghost predicate Mentioned(bundle: Bundle, id: string) {
    exists f :: f in bundle.forced && f.forcedMention && f.id == id
  }

  ghost predicate Renders(bundle: Bundle, shown: seq<Ev>, rows: seq<Row>) {
    |rows| == |shown| && forall i :: 0 <= i < |rows| ==>
      && rows[i].id == shown[i].id && rows[i].at == shown[i].at && rows[i].body == shown[i].body
      && (rows[i].mention <==> shown[i].mentionsSelf || Mentioned(bundle, shown[i].id))
  }

  method MessageRows(bundle: Bundle, cursor: nat, now: nat) returns (rows: seq<Row>, omitted: nat)
    ensures exists kept, shown ::
      && Shows(bundle, cursor, now, kept, shown) && Renders(bundle, shown, rows)
      && omitted + |kept| == |Current(bundle.events, cursor, now)|
      && (cursor != 0 ==> omitted == 0)
  {
    CurrentSize(bundle.events, cursor, now);
    var events := SelectFresh(bundle.events, Since(cursor, now));
    omitted := 0;
    if cursor == 0 {
      var total := |events|;
      var cluster := RecentCluster(events);
      ClusterIsPart(events, cluster);
      events := cluster;
      omitted := total - |events|;
    }
    ghost var kept := events;
    events := PushForced(events, bundle.forced);
    events := SortBy(events, EvLe);
    rows := RenderRows(bundle, events);
    assert Shows(bundle, cursor, now, kept, events);
  }

  method SelectFresh(all: seq<Ev>, since: nat) returns (events: seq<Ev>)
    ensures events == Fresh(all, since)
  {
    events := [];
    for i := 0 to |all|
      invariant events == Fresh(all[..i], since)
    {
      assert all[..i + 1][..i] == all[..i];
      if all[i].at > since { events := events + [all[i]]; }
    }
    assert all[..|all|] == all;
  }

  method RenderRows(bundle: Bundle, shown: seq<Ev>) returns (rows: seq<Row>)
    ensures Renders(bundle, shown, rows)
  {
    var mentions := set f | f in bundle.forced && f.forcedMention :: f.id;
    rows := seq(|shown|, i requires 0 <= i < |shown| => RowOf(shown[i], mentions));
    forall id ensures id in mentions <==> Mentioned(bundle, id) {}
  }

  lemma IdsOfElements(events: seq<Ev>)
    ensures forall id :: id in Project(events, IdOf) <==> exists e :: e in events && e.id == id
  {
    forall e | e in events ensures e.id in Project(events, IdOf) {
      var i :| 0 <= i < |events| && events[i] == e;
      assert Project(events, IdOf)[i] == e.id;
    }
  }

  method PushForced(kept: seq<Ev>, forced: seq<Ev>) returns (events: seq<Ev>)
    ensures events == WithForced(kept, forced)
  {
    events := kept;
    var seen := set e | e in events :: e.id;
    IdsOfElements(events);
    for i := 0 to |forced|
      invariant events == WithForced(kept, forced[..i])
      invariant forall id :: id in seen <==> id in Project(events, IdOf)
    {
      assert forced[..i + 1][..i] == forced[..i];
      if forced[i].id !in seen {
        seen := seen + {forced[i].id};
        ProjectConcat(events, [forced[i]], IdOf);
        assert Project([forced[i]], IdOf) == [forced[i].id];
        events := events + [forced[i]];
      }
    }
    assert forced[..|forced|] == forced;
  }

  // ---- what the rows guarantee ----

  lemma ClusterIsPart(events: seq<Ev>, r: seq<Ev>)
    requires IsRecentCluster(events, r)
    ensures |r| <= |events| && (forall e :: e in r ==> e in events)
    ensures NoRepeats(Project(events, IdOf)) ==> NoRepeats(Project(r, IdOf))
  {
    if |events| > MAX_CLUSTER_ROWS {
      var sorted := SortBy(events, EvLe);
      var start: nat :| StartsLongestCluster(sorted, start) && r == sorted[start..];
      SameElements(events, sorted);
      if NoRepeats(Project(events, IdOf)) {
        ProjectPermutes(events, sorted, IdOf);
        PermutationNoRepeats(Project(events, IdOf), Project(sorted, IdOf));
        SuffixNoRepeats(sorted, start);
      }
    }
  }

  lemma SuffixNoRepeats(s: seq<Ev>, start: nat)
    requires start <= |s| && NoRepeats(Project(s, IdOf))
    ensures NoRepeats(Project(s[start..], IdOf))
  {
    assert forall i :: 0 <= i < |s| - start ==> Project(s[start..], IdOf)[i] == Project(s, IdOf)[start + i];
  }

  lemma {:induction false} FreshKeepsIds(events: seq<Ev>, since: nat)
    requires NoRepeats(Project(events, IdOf))
    ensures NoRepeats(Project(Fresh(events, since), IdOf))
    ensures forall id :: id in Project(Fresh(events, since), IdOf) ==> id in Project(events, IdOf)
  {
    if events != [] {
      var front, last := events[..|events| - 1], events[|events| - 1];
      IdsSplit(events);
      FreshKeepsIds(front, since);
      ProjectConcat(Fresh(front, since), [last], IdOf);
      assert Project([last], IdOf) == [last.id];
    }
  }

  lemma IdsSplit(events: seq<Ev>)
    requires events != [] && NoRepeats(Project(events, IdOf))
    ensures var front, last := events[..|events| - 1], events[|events| - 1];
      && Project(events, IdOf) == Project(front, IdOf) + [last.id]
      && NoRepeats(Project(front, IdOf)) && last.id !in Project(front, IdOf)
  {
    var ids := Project(events, IdOf);
    assert Project(events[..|events| - 1], IdOf) == ids[..|ids| - 1];
  }

  /** Forcing adds every missing id once and keeps what was there. */
  lemma {:induction false} ForcedAreShown(kept: seq<Ev>, forced: seq<Ev>)
    ensures kept <= WithForced(kept, forced)
    ensures forall f :: f in forced ==> f.id in Project(WithForced(kept, forced), IdOf)
    ensures forall e :: e in WithForced(kept, forced) ==> e in kept || e in forced
    ensures NoRepeats(Project(kept, IdOf)) ==> NoRepeats(Project(WithForced(kept, forced), IdOf))
  {
    if forced != [] {
      var front, last := forced[..|forced| - 1], forced[|forced| - 1];
      assert forced == front + [last];
      ForcedAreShown(kept, front);
      ProjectConcat(WithForced(kept, front), [last], IdOf);
    }
  }

  /**
    The rows are in time-and-id order, every kept and every forced message is among them, nothing
    else is, and no id is repeated when the bundle's own ids are distinct.
   */
  lemma RowsAreComplete(bundle: Bundle, cursor: nat, now: nat, kept: seq<Ev>, shown: seq<Ev>)
    requires Shows(bundle, cursor, now, kept, shown)
    ensures Sorted(shown, EvLe)
    ensures forall e :: e in kept ==> e in shown
    ensures forall f :: f in bundle.forced ==> f.id in Project(shown, IdOf)
    ensures forall e :: e in shown ==> e in kept || e in bundle.forced
    ensures NoRepeats(Project(bundle.events, IdOf)) ==> NoRepeats(Project(shown, IdOf))
  {
    var all := WithForced(kept, bundle.forced);
    EvLeIsOrder();
    SortBySorted(all, EvLe);
    SameElements(all, shown);
    ForcedAreShown(kept, bundle.forced);
    ProjectPermutes(all, shown, IdOf);
    SameElements(Project(all, IdOf), Project(shown, IdOf));
    if NoRepeats(Project(bundle.events, IdOf)) {
      var recent := Fresh(bundle.events, Since(cursor, now));
      FreshKeepsIds(bundle.events, Since(cursor, now));
      if cursor == 0 { ClusterIsPart(recent, kept); }
      PermutationNoRepeats(Project(all, IdOf), Project(shown, IdOf));
    }
  }

  // ---- by the numbers ----

  /**
    An id is shown in a delta exactly if an event with that id is after the cursor or one is forced,
    and every event after the cursor is shown itself.
   */
  lemma {:induction false} DeltaShows(bundle: Bundle, cursor: nat, now: nat, kept: seq<Ev>, shown: seq<Ev>)
    requires Shows(bundle, cursor, now, kept, shown) && cursor != 0
    ensures forall e :: e in bundle.events && cursor < e.at ==> e in shown
    ensures forall e :: e in shown ==> (e in bundle.events && cursor < e.at) || e in bundle.forced
    ensures forall f :: f in bundle.forced ==> f.id in Project(shown, IdOf)
  {
    RowsAreComplete(bundle, cursor, now, kept, shown);
    FreshMeans(bundle.events, cursor, now);
  }

  /**
    A full view shows, besides what is forced, only events of the last 14400 seconds, and all of
    them if there are at most 30.
   */
  lemma {:induction false} FullViewShows(bundle: Bundle, now: nat, kept: seq<Ev>, shown: seq<Ev>)
    requires Shows(bundle, 0, now, kept, shown)
    ensures forall e :: e in shown ==>
      (e in bundle.events && 0 < e.at && now < e.at + 14400) || e in bundle.forced
    ensures |Current(bundle.events, 0, now)| <= 30 ==>
      forall e :: e in bundle.events && 0 < e.at && now < e.at + 14400 ==> e in shown
  {
    var recent := Fresh(bundle.events, Since(0, now));
    RowsAreComplete(bundle, 0, now, kept, shown);
    FreshMeans(bundle.events, 0, now);
    CurrentSize(bundle.events, 0, now);
    ClusterIsPart(recent, kept);
  }

  /**
    Of more than 30 events the cluster keeps the last ones in time-and-id order: no two neighbours
    more than 1200 seconds apart, at most 30, and it stops only at 30 or at a longer gap.
   */
  lemma {:induction false} ClusterByNumbers(events: seq<Ev>, r: seq<Ev>) returns (sorted: seq<Ev>, start: nat)
    requires IsRecentCluster(events, r) && |events| > 30
    ensures multiset(sorted) == multiset(events) && start <= |sorted| && r == sorted[start..]
    ensures forall i, j :: 0 <= i < j < |sorted| ==>
      sorted[i].at < sorted[j].at || (sorted[i].at == sorted[j].at && StrLe(sorted[i].id, sorted[j].id))
    ensures 0 < |r| <= 30 && forall i :: 0 <= i < |r| - 1 ==> r[i + 1].at <= r[i].at + 1200
    ensures |r| < 30 && 0 < start ==> sorted[start - 1].at + 1200 < sorted[start].at
  {
    sorted := SortBy(events, EvLe);
    EvLeIsOrder();
    SortBySorted(events, EvLe);
    start :| StartsLongestCluster(sorted, start) && r == sorted[start..];
    assert start < |sorted| by {
      var last := sorted[|sorted| - 1..];
      assert |last| == 1 && Cluster(last);
    }
    if 0 < start && |r| < 30 && Tight(sorted[start - 1], sorted[start]) { ClusterGrows(sorted, start); }
  }
}
