/**
  Presence deltas (src/session_state.rs, src/session_presence.rs and the presence part of
  src/fabric_context/assemble.rs). A peer's lease makes it offline on the first second after it
  expires; a delta reports a status whose change falls in its window.
 */
module Presence {
  import opened Orders
  import opened Text
  import opened Numbers
  import opened Cursor

  datatype SessionState = Working | Idle | Suspended | Offline

  function Observed(state: SessionState, live: bool): SessionState {
    if live then state else Offline
  }

  function SemanticChangeAt(state: SessionState, updatedAt: u64, expiration: u64, now: u64): u64 {
    if state != Offline && expiration < now then Max(updatedAt, SaturatingAdd(expiration, 1)) else updatedAt
  }

  datatype Failure = Failure(outcome: string, message: string, finishedAt: u64)

  datatype Status = Status(
    pubkey: string, slug: string, state: SessionState, activity: string, title: string,
    changedAt: u64, stateSince: u64, expiration: Option<u64>, failure: Option<Failure>)

  datatype PublicPresence = PublicPresence(state: SessionState, since: u64, title: string, activity: string)

  function TextOf(p: PublicPresence): string {
    if p.state == Working && Trim(p.activity) != "" then Trim(p.activity) else Trim(p.title)
  }

  function Projected(s: Status, now: u64): PublicPresence {
    var live := s.expiration.None? || s.expiration.value >= now;
    var state := Observed(s.state, live);
    PublicPresence(
      state,
      if s.expiration.Some? then SemanticChangeAt(s.state, s.stateSince, s.expiration.value, now) else s.stateSince,
      s.title,
      if state == Working then s.activity else "")
  }

  datatype Row = Row(name: string, state: SessionState, status: string, since: u64, failure: Option<Failure>)

  datatype View = View(self: string, refs: map<string, string>)

  function NameOf(view: View, s: Status): string {
    if Trim(s.slug) != "" then s.slug
    else if s.pubkey in view.refs then view.refs[s.pubkey]
    else ""
  }

  function PresenceRow(view: View, s: Status, cursor: u64, now: u64): Option<Row> {
    var p := Projected(s, now);
    var changedAt := if p.state == s.state then s.changedAt else Max(s.changedAt, p.since);
    var failure :=
      if s.failure.Some? && cursor < s.failure.value.finishedAt <= now then s.failure else None;
    if (changedAt <= cursor || changedAt > now) && failure.None? then None
    else if s.pubkey == view.self then None
    else
      var text := TextOf(p);
      if text == "" && failure.None? then None
      else Some(Row(NameOf(view, s), p.state, text, p.since, failure))
  }

  method PresenceRows(view: View, statuses: seq<Status>, cursor: u64, now: u64) returns (rows: seq<Row>)
    ensures cursor == 0 ==> rows == []
    ensures cursor != 0 ==> rows == Reported(view, statuses, cursor, now)
  {
    rows := [];
    if cursor == 0 { return; }
    for i := 0 to |statuses|
      invariant rows == Reported(view, statuses[..i], cursor, now)
    {
      assert statuses[..i + 1][..i] == statuses[..i];
      var row := PresenceRow(view, statuses[i], cursor, now);
      if row.Some? { rows := rows + [row.value]; }
    }
    assert statuses[..|statuses|] == statuses;
  }

  function Reported(view: View, statuses: seq<Status>, cursor: u64, now: u64): seq<Row> {
    if statuses == [] then [] else
      var row := PresenceRow(view, statuses[|statuses| - 1], cursor, now);
      Reported(view, statuses[..|statuses| - 1], cursor, now) + if row.Some? then [row.value] else []
  }

  // ---- going offline ----

  /** A peer with a live reported state, a lease, something to show and no native failure. */
  predicate LeasedPeer(view: View, s: Status) {
    && s.state != Offline && s.expiration.Some? && s.expiration.value < U64_MAX
    && s.failure.None? && s.pubkey != view.self && Trim(s.title) != ""
  }

  /** The second at which an unrenewed lease is seen to have gone offline. */
  function OfflineAt(s: Status): (t: u64)
    requires s.expiration.Some? && s.expiration.value < U64_MAX
    ensures s.changedAt <= s.expiration.value + 1 && s.stateSince <= s.expiration.value + 1 ==>
      t == s.expiration.value + 1
  {
    Max(s.changedAt, Max(s.stateSince, s.expiration.value + 1))
  }

  predicate ReportsOffline(view: View, s: Status, cursor: u64, now: u64) {
    cursor != 0 && PresenceRow(view, s, cursor, now).Some?
      && PresenceRow(view, s, cursor, now).value.state == Offline
  }

  /** The offline row appears in exactly the delta windows that contain that second. */
  lemma OfflineIffWindowContains(view: View, s: Status, cursor: u64, now: u64)
    requires LeasedPeer(view, s) && cursor != 0
    ensures ReportsOffline(view, s, cursor, now) <==> Within(Window(cursor, now), OfflineAt(s))
  {}

  ghost predicate U64Windows(ws: seq<Window>) {
    forall i :: 0 <= i < |ws| ==> 0 < ws[i].lo <= U64_MAX && ws[i].hi <= U64_MAX
  }

  /** Over consecutive delta windows the transition is reported once, where its second falls. */
  lemma {:induction false} OfflineReportedOnce(view: View, s: Status, ws: seq<Window>, lo: u64, hi: u64)
    requires LeasedPeer(view, s) && Chain(ws, lo, hi) && U64Windows(ws)
    ensures (exists i :: 0 <= i < |ws| && ReportsOffline(view, s, ws[i].lo, ws[i].hi))
      <==> lo < OfflineAt(s) <= hi
    ensures forall i, j :: 0 <= i < |ws| && 0 <= j < |ws| ==>
      ReportsOffline(view, s, ws[i].lo, ws[i].hi) && ReportsOffline(view, s, ws[j].lo, ws[j].hi) ==> i == j
  {
    ChainPartitions(ws, lo, hi, OfflineAt(s));
    forall i | 0 <= i < |ws|
      ensures ReportsOffline(view, s, ws[i].lo, ws[i].hi) <==> Within(ws[i], OfflineAt(s))
    {
      OfflineIffWindowContains(view, s, ws[i].lo, ws[i].hi);
    }
  }

  /**
    So for any interleaving of hooks on one session: the first window it claims (from cursor 0) is
    the full view, and the later ones report the transition once if its second lies between the
    end of that first window and the cursor, and never otherwise.
   */
  lemma {:induction false} OfflineReportedOnceByHooks(view: View, s: Status, steps: seq<Step>, pubkey: string)
    requires LeasedPeer(view, s) && pubkey in Run(steps).cursors && Run(steps).cursors[pubkey] <= U64_MAX
    requires WindowsOf(Run(steps).claims, pubkey) != []
    ensures var ws := WindowsOf(Run(steps).claims, pubkey)[1..];
      && U64Windows(ws)
      && ((exists i :: 0 <= i < |ws| && ReportsOffline(view, s, ws[i].lo, ws[i].hi)) <==>
           WindowsOf(Run(steps).claims, pubkey)[0].hi < OfflineAt(s) <= Run(steps).cursors[pubkey])
      && forall i, j :: 0 <= i < |ws| && 0 <= j < |ws| ==>
           ReportsOffline(view, s, ws[i].lo, ws[i].hi) && ReportsOffline(view, s, ws[j].lo, ws[j].hi) ==> i == j
  {
    var all, hi := WindowsOf(Run(steps).claims, pubkey), Run(steps).cursors[pubkey];
    ClaimsFormAChain(steps, pubkey);
    ChainPartitions(all, 0, hi, 0);
    ChainTail(all, 0, hi);
    ChainPartitions(all[1..], all[0].hi, hi, 0);
    OfflineReportedOnce(view, s, all[1..], all[0].hi, hi);
  }

  // ---- native failures ----

  predicate ReportsFailure(view: View, s: Status, cursor: u64, now: u64) {
    cursor != 0 && PresenceRow(view, s, cursor, now).Some?
      && PresenceRow(view, s, cursor, now).value.failure.Some?
  }

  /**
    A peer's native failure is reported in exactly one of any consecutive delta windows that cover
    the second at which it finished, even if the peer has no text to show and did not change.
   */
  lemma {:induction false} FailureReportedOnce(view: View, s: Status, ws: seq<Window>, lo: u64, hi: u64)
    requires s.failure.Some? && s.pubkey != view.self && Chain(ws, lo, hi) && U64Windows(ws)
    ensures (exists i :: 0 <= i < |ws| && ReportsFailure(view, s, ws[i].lo, ws[i].hi))
      <==> lo < s.failure.value.finishedAt <= hi
    ensures forall i, j :: 0 <= i < |ws| && 0 <= j < |ws| ==>
      ReportsFailure(view, s, ws[i].lo, ws[i].hi) && ReportsFailure(view, s, ws[j].lo, ws[j].hi) ==> i == j
  {
    ChainPartitions(ws, lo, hi, s.failure.value.finishedAt);
    forall i | 0 <= i < |ws|
      ensures ReportsFailure(view, s, ws[i].lo, ws[i].hi) <==> Within(ws[i], s.failure.value.finishedAt)
    {}
  }

  // ---- live changes ----

  /** What a status shows when it counts as `state`: only a working peer shows its activity. */
  function Shown(s: Status, state: SessionState): string {
    if state == Working && Trim(s.activity) != "" then Trim(s.activity) else Trim(s.title)
  }

  predicate LiveAt(s: Status, now: u64) {
    s.expiration == None || now <= s.expiration.value
  }

  predicate FailsIn(s: Status, cursor: u64, now: u64) {
    s.failure.Some? && cursor < s.failure.value.finishedAt <= now
  }

  /**
    For a peer whose lease is live or absent, with something to show and no failure in the window, a
    row appears exactly if the change falls in the window; it shows the reported state, since when
    and what, under the slug or the stored reference.
   */
  lemma {:induction false} LiveChangeIffWindowContains(view: View, s: Status, cursor: u64, now: u64)
    requires s.pubkey != view.self && LiveAt(s, now) && Shown(s, s.state) != "" && !FailsIn(s, cursor, now)
    ensures var row := PresenceRow(view, s, cursor, now);
      && (row.Some? <==> cursor < s.changedAt <= now)
      && (row.Some? ==>
           && row.value.state == s.state && row.value.since == s.stateSince && row.value.failure == None
           && row.value.status ==
                (if s.state == Working && Trim(s.activity) != "" then Trim(s.activity) else Trim(s.title))
           && row.value.name ==
                (if Trim(s.slug) != "" then s.slug
                 else if s.pubkey in view.refs then view.refs[s.pubkey] else ""))
  {}

  ghost predicate ReportsChange(view: View, s: Status, cursor: u64, now: u64) {
    cursor != 0 && PresenceRow(view, s, cursor, now).Some?
  }

  /** Over consecutive delta windows in which the lease stays live, the change is reported once. */
  lemma {:induction false} LiveChangeReportedOnce(view: View, s: Status, ws: seq<Window>, lo: u64, hi: u64)
    requires s.pubkey != view.self && LiveAt(s, hi) && Shown(s, s.state) != "" && s.failure == None
    requires Chain(ws, lo, hi) && U64Windows(ws)
    ensures (exists i :: 0 <= i < |ws| && ReportsChange(view, s, ws[i].lo, ws[i].hi))
      <==> lo < s.changedAt <= hi
    ensures forall i, j :: 0 <= i < |ws| && 0 <= j < |ws| ==>
      ReportsChange(view, s, ws[i].lo, ws[i].hi) && ReportsChange(view, s, ws[j].lo, ws[j].hi) ==> i == j
  {
    ChainPartitions(ws, lo, hi, s.changedAt);
    forall i | 0 <= i < |ws|
      ensures ReportsChange(view, s, ws[i].lo, ws[i].hi) <==> Within(ws[i], s.changedAt)
    {
      LiveChangeIffWindowContains(view, s, ws[i].lo, ws[i].hi);
    }
  }

  /** An expired lease shows the peer as offline, by its title, since the second after it expired. */
  lemma {:induction false} ExpiredRow(view: View, s: Status, cursor: u64, now: u64)
    requires s.expiration.Some? && s.expiration.value < now && PresenceRow(view, s, cursor, now).Some?
    ensures var row := PresenceRow(view, s, cursor, now).value;
      && row.state == Offline && row.status == Trim(s.title)
      && (s.state != Offline && s.stateSince <= s.expiration.value ==> row.since == s.expiration.value + 1)
      && (s.state == Offline || s.stateSince > s.expiration.value ==> row.since == s.stateSince)
      && row.failure == if FailsIn(s, cursor, now) then s.failure else None
  {}

  /** A session is never told about itself, nor about one with neither text nor failure. */
  lemma {:induction false} NothingToTell(view: View, s: Status, cursor: u64, now: u64)
    requires s.pubkey == view.self
      || (!FailsIn(s, cursor, now) && Shown(s, if LiveAt(s, now) then s.state else Offline) == "")
    ensures PresenceRow(view, s, cursor, now) == None
  {}

  lemma {:induction false} RowFailure(view: View, s: Status, cursor: u64, now: u64)
    requires PresenceRow(view, s, cursor, now).Some?
    ensures PresenceRow(view, s, cursor, now).value.failure == if FailsIn(s, cursor, now) then s.failure else None
  {}

  /** Only a working peer's projection carries an activity. */
  lemma {:induction false} ProjectionSays(s: Status, now: u64)
    ensures var p := Projected(s, now);
      && p.title == s.title && p.state == (if LiveAt(s, now) then s.state else Offline)
      && p.activity == if LiveAt(s, now) && s.state == Working then s.activity else ""
  {}

  // ---- the list of rows ----

  /** The rows of two lists of statuses are the rows of the first and then those of the second. */
  lemma {:induction false} RowsInOrder(view: View, a: seq<Status>, b: seq<Status>, cursor: u64, now: u64)
    ensures Reported(view, a + b, cursor, now) == Reported(view, a, cursor, now) + Reported(view, b, cursor, now)
  {
    if b == [] {
      assert a + b == a;
    } else {
      assert (a + b)[..|a + b| - 1] == a + b[..|b| - 1];
      RowsInOrder(view, a, b[..|b| - 1], cursor, now);
    }
  }

  /** Each status contributes its own row, if it has one. */
  lemma {:induction false} RowOfOne(view: View, s: Status, cursor: u64, now: u64)
    ensures var row := PresenceRow(view, s, cursor, now);
      Reported(view, [s], cursor, now) == if row.Some? then [row.value] else []
  {
    assert [s][..0] == [];
  }
}
