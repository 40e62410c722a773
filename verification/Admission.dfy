/**
  Chat admission (src/fabric/admission.rs, src/fabric/mod.rs, src/state/members.rs,
  src/state/quarantine.rs and src/state/events.rs). Chat may arrive before the channel's two
  membership snapshots; it is then quarantined and decided when the second snapshot lands.

  `Step` gives the effect of one event on the store as a value; class `Store` follows the source
  and is proved to have that effect. AdmissionRuns proves what holds over whole runs.
 */
module Admission {
  import opened Orders

  datatype Role = Admin | Member

  /** A kind-9 event: `h` is its first `h` tag, `targets` its `p` tags. */
  datatype Chat = Chat(id: string, author: string, h: Option<string>, createdAt: nat, targets: seq<string>)

  /** The kinds that `materialize` neither caches elsewhere nor decodes as chat or reaction. */
  type OtherKind = k: nat | k !in {0, 7, 9, 30315, 39000, 39001, 39002} witness 1

  /** An event of another kind: `d` is its `d` tag or empty, `inChannel` whether it has an `h` tag. */
  datatype Note = Note(id: string, kind: OtherKind, author: string, d: string, at: nat, inChannel: bool)

  datatype Event =
    | ChatArrives(chat: Chat)
      /** Kind 39001 (admins) or 39002 (members); `d` is the event's `d` tag. */
    | Snapshot(role: Role, d: Option<string>, pubkeys: seq<string>, at: nat)
      /** Kind 7; `decodes` says whether it names a target and carries a bounded emoji. */
    | ReactionArrives(id: string, at: nat, decodes: bool)
      /** Any kind without a cache of its own. */
    | VerbatimArrives(note: Note)
      /** Optimistic local writes to the roster. */
    | Grant(channel: string, pubkey: string, role: Role)
    | Revoke(channel: string, pubkey: string)
      /** The local sessions reachable in each channel change. */
    | RoutesChange(routes: set<(string, string)>)

  // ---- the event log ----

  /** What a replaceable or addressable event replaces by. */
  datatype Coordinate = Coordinate(kind: nat, author: string, d: string)

  /** The coordinate of an event, or none for a regular kind. */
  function CoordinateOf(kind: nat, author: string, d: string): Option<Coordinate> {
    if 30000 <= kind < 40000 then Some(Coordinate(kind, author, d))
    else if kind == 0 || kind == 3 || 10000 <= kind < 20000 then Some(Coordinate(kind, author, ""))
    else None
  }

  datatype LogRow = LogRow(slot: Option<Coordinate>, at: nat)

  type Log = map<string, LogRow>

  function NoteRow(n: Note): LogRow { LogRow(CoordinateOf(n.kind, n.author, n.d), n.at) }

  function ChatRow(chat: Chat): LogRow { LogRow(None, chat.createdAt) }

  /** A row of the same coordinate that is at least as new is already there. */
  predicate Superseded(log: Log, row: LogRow) {
    row.slot.Some? && exists id :: id in log && log[id].slot == row.slot && log[id].at >= row.at
  }

  /** Inserting with replacement; a row whose id is taken is ignored. */
  function Inserted(log: Log, id: string, row: LogRow): Log {
    if row.slot == None then Appended(log, id, row)
    else if Superseded(log, row) then log
    else Appended(map k | k in log && log[k].slot != row.slot :: log[k], id, row)
  }

  function Appended(log: Log, id: string, row: LogRow): Log {
    if id in log then log else log[id := row]
  }

  // ---- the state ----

  datatype State = State(
    sets: map<(string, Role), nat>,
    roster: map<(string, string), Role>,
    log: Log,
    messages: set<string>,
    inbox: set<(string, string)>,
    reactions: set<string>,
    quarantine: map<string, Chat>,
    routes: set<(string, string)>)

  datatype Verdict = Accepted | Unhydrated | Rejected

  datatype Outcome = Outcome(tail: bool, woke: bool)

  const EMPTY: State := State(map[], map[], map[], {}, {}, {}, map[], {})

  function ChannelOf(chat: Chat): string {
    match chat.h case Some(h) => h case None => ""
  }

  predicate Hydrated(s: State, h: string) {
    (h, Admin) in s.sets && (h, Member) in s.sets
  }

  predicate IsMember(s: State, h: string, pubkey: string) {
    (h, pubkey) in s.roster
  }

  function ChatAdmission(s: State, chat: Chat): Verdict {
    var h := ChannelOf(chat);
    if h == "" || !Hydrated(s, h) then Unhydrated
    else if IsMember(s, h, chat.author) then Accepted
    else Rejected
  }

  /** The inbox rows that routing an accepted chat asks for. */
  function Doorbells(s: State, chat: Chat): set<(string, string)> {
    set t | t in chat.targets && t != chat.author && (t, ChannelOf(chat)) in s.routes :: (chat.id, t)
  }

  function Accept(s: State, chat: Chat): State {
    s.(log := Inserted(s.log, chat.id, ChatRow(chat)),
       messages := s.messages + {chat.id}, inbox := s.inbox + Doorbells(s, chat))
  }

  function Quarantine(s: State, chat: Chat): State {
    if chat.id in s.quarantine then s else s.(quarantine := s.quarantine[chat.id := chat])
  }

  function Release(s: State, id: string): State {
    s.(quarantine := s.quarantine - {id})
  }

  function MaterializeChat(s: State, chat: Chat): State {
    match ChatAdmission(s, chat)
    case Accepted => Release(Accept(s, chat), chat.id)
    case Unhydrated => Quarantine(s, chat)
    case Rejected => Release(s, chat.id)
  }

  /** Replacing one role's rows of a channel; the other role's rows win over new member rows. */
  function ReplaceRole(s: State, h: string, role: Role, pubkeys: seq<string>, at: nat): State {
    if (h, role) in s.sets && s.sets[(h, role)] > at then s else
      var kept := map k | k in s.roster && !(k.0 == h && s.roster[k] == role) :: s.roster[k];
      s.(sets := s.sets[(h, role) := at], roster := WithRole(kept, h, role, pubkeys))
  }

  /** A listed admin always becomes admin; a listed member keeps a row that is already there. */
  function WithRole(kept: map<(string, string), Role>, h: string, role: Role, pubkeys: seq<string>):
    map<(string, string), Role>
  {
    var listed := Listing(h, role, pubkeys);
    if role == Admin then kept + listed else listed + kept
  }

  function Listing(h: string, role: Role, pubkeys: seq<string>): map<(string, string), Role> {
    map p | p in pubkeys :: (h, p) := role
  }

  lemma ListOneMore(h: string, role: Role, pubkeys: seq<string>, i: nat)
    requires i < |pubkeys|
    ensures Listing(h, role, pubkeys[..i + 1]) == Listing(h, role, pubkeys[..i])[(h, pubkeys[i]) := role]
  {
    assert forall p :: p in pubkeys[..i + 1] <==> p in pubkeys[..i] || p == pubkeys[i];
  }

  lemma WithOneMore(kept: map<(string, string), Role>, h: string, role: Role, pubkeys: seq<string>, i: nat)
    requires i < |pubkeys|
    ensures var before, key := WithRole(kept, h, role, pubkeys[..i]), (h, pubkeys[i]);
      WithRole(kept, h, role, pubkeys[..i + 1]) ==
        if role == Admin || key !in before then before[key := role] else before
  {
    ListOneMore(h, role, pubkeys, i);
  }

  /** The quarantined chats of a channel. */
  function Held(s: State, h: string): set<string> {
    set id | id in s.quarantine && ChannelOf(s.quarantine[id]) == h
  }

  function Admitted(s: State, h: string): set<string> {
    set id | id in Held(s, h) && IsMember(s, h, s.quarantine[id].author)
  }

  /** Replay in one go: every held chat of a hydrated channel is decided by the current roster. */
  function Replay(s: State, h: string): State {
    if h == "" || !Hydrated(s, h) then s else
      var admitted := Admitted(s, h);
      s.(log := ChatRows(s, admitted) + s.log,
         messages := s.messages + admitted,
         inbox := s.inbox + DoorbellsOf(s, admitted),
         quarantine := s.quarantine - Held(s, h))
  }

  function ChatRows(s: State, ids: set<string>): Log {
    map id | id in ids && id in s.quarantine :: ChatRow(s.quarantine[id])
  }

  function DoorbellsOf(s: State, ids: set<string>): set<(string, string)> {
    set id, row | id in ids && id in s.quarantine && row in Doorbells(s, s.quarantine[id]) :: row
  }

  /** The store after replay has decided the held chats in `done`. */
  ghost function Replayed(s: State, h: string, done: set<string>): State {
    var admitted := Admitted(s, h) * done;
    s.(log := ChatRows(s, admitted) + s.log, messages := s.messages + admitted,
       inbox := s.inbox + DoorbellsOf(s, admitted), quarantine := s.quarantine - done)
  }

  lemma OneMoreDoorbell(s: State, ids: set<string>, chat: Chat)
    requires chat.id in s.quarantine && s.quarantine[chat.id] == chat
    ensures DoorbellsOf(s, ids + {chat.id}) == DoorbellsOf(s, ids) + Doorbells(s, chat)
  {}

  lemma OneMoreRow(s: State, ids: set<string>, chat: Chat)
    requires chat.id in s.quarantine && s.quarantine[chat.id] == chat && chat.id !in ids
    ensures ChatRows(s, ids + {chat.id}) + s.log == Inserted(ChatRows(s, ids) + s.log, chat.id, ChatRow(chat))
  {}

  lemma AdmitOneMore(s: State, h: string, done: set<string>, chat: Chat)
    requires chat.id in Admitted(s, h) && chat.id !in done && s.quarantine[chat.id] == chat
    ensures Replayed(s, h, done + {chat.id}) == Release(Accept(Replayed(s, h, done), chat), chat.id)
  {
    var t, admitted := Replayed(s, h, done), Admitted(s, h) * done;
    assert Admitted(s, h) * (done + {chat.id}) == admitted + {chat.id};
    assert Doorbells(t, chat) == Doorbells(s, chat);
    OneMoreDoorbell(s, admitted, chat);
    OneMoreRow(s, admitted, chat);
    assert s.quarantine - (done + {chat.id}) == t.quarantine - {chat.id};
  }

  lemma RejectOneMore(s: State, h: string, done: set<string>, chat: Chat)
    requires chat.id !in Admitted(s, h)
    ensures Replayed(s, h, done + {chat.id}) == Release(Replayed(s, h, done), chat.id)
  {
    assert Admitted(s, h) * (done + {chat.id}) == Admitted(s, h) * done;
    assert s.quarantine - (done + {chat.id}) == s.quarantine - done - {chat.id};
  }

  lemma ReplayOneMore(s: State, h: string, done: set<string>, chat: Chat)
    requires h != "" && Hydrated(s, h) && done <= Held(s, h)
    requires chat.id in Held(s, h) && chat.id !in done && s.quarantine[chat.id] == chat
    ensures var t := Replayed(s, h, done);
      Replayed(s, h, done + {chat.id}) ==
        Release(if ChatAdmission(t, chat) == Accepted then Accept(t, chat) else t, chat.id)
    ensures ChatAdmission(Replayed(s, h, done), chat) != Unhydrated
  {
    if IsMember(s, h, chat.author) {
      AdmitOneMore(s, h, done, chat);
    } else {
      RejectOneMore(s, h, done, chat);
    }
  }

  function Step(s: State, e: Event): State {
    match e
    case ChatArrives(chat) =>
      if chat.h == None then s.(log := Inserted(s.log, chat.id, ChatRow(chat))) else MaterializeChat(s, chat)
    case Snapshot(role, d, pubkeys, at) =>
      if d == None then s else Replay(ReplaceRole(s, d.value, role, pubkeys, at), d.value)
    case ReactionArrives(id, at, decodes) =>
      if decodes then s.(reactions := s.reactions + {id})
      else s.(log := Inserted(s.log, id, LogRow(None, at)))
    case VerbatimArrives(note) => s.(log := Inserted(s.log, note.id, NoteRow(note)))
    case Grant(h, p, role) =>
      s.(roster := s.roster[(h, p) :=
        if role == Member && (h, p) in s.roster then s.roster[(h, p)] else role])
    case Revoke(h, p) => s.(roster := s.roster - {(h, p)})
    case RoutesChange(routes) => s.(routes := routes)
  }

  // ---- the store ----

  predicate Earlier(a: Chat, b: Chat) {
    a.createdAt < b.createdAt || (a.createdAt == b.createdAt && StrLe(a.id, b.id))
  }

  lemma EarlierIsOrder()
    ensures TotalPreorder(Earlier)
  {
    StrLeIsOrder();
  }

  /** Looking rows up by distinct ids gives exactly the chats with those ids. */
  lemma ChatsById(held: map<string, Chat>, ids: seq<string>, rows: seq<Chat>)
    requires StrictlyAscending(ids) && |rows| == |ids|
    requires forall i :: 0 <= i < |ids| ==> ids[i] in held && rows[i] == held[ids[i]] && rows[i].id == ids[i]
    ensures NoRepeats(rows)
    ensures forall c: Chat :: c in rows <==> c.id in ids && c.id in held && held[c.id] == c
  {
    forall c: Chat | c.id in ids && c.id in held && held[c.id] == c ensures c in rows {
      var i :| 0 <= i < |ids| && ids[i] == c.id;
      assert rows[i] == c;
    }
    forall i, j | 0 <= i < j < |rows| ensures rows[i] != rows[j] { assert ids[i] != ids[j]; }
  }

  class Store {
    var sets: map<(string, Role), nat>
    var roster: map<(string, string), Role>
    var log: Log
    var messages: set<string>
    var inbox: set<(string, string)>
    var reactions: set<string>
    var quarantine: map<string, Chat>
    var routes: set<(string, string)>

    ghost function Value(): State
      reads this
    {
      State(sets, roster, log, messages, inbox, reactions, quarantine, routes)
    }

    /** Rows are keyed by the id of the event they hold. */
    ghost predicate Valid()
      reads this
    {
      forall id :: id in quarantine ==> quarantine[id].id == id
    }

    constructor ()
      ensures Valid() && Value() == EMPTY
    {
      sets, roster, log, messages, inbox := map[], map[], map[], {}, {};
      reactions, quarantine, routes := {}, map[], {};
    }

    method ReplaceRoleRows(h: string, role: Role, pubkeys: seq<string>, at: nat)
      modifies this`sets, this`roster
      ensures Value() == ReplaceRole(old(Value()), h, role, pubkeys, at)
    {
      if (h, role) in sets && sets[(h, role)] > at { return; }
      sets := sets[(h, role) := at];
      roster := map k | k in roster && !(k.0 == h && roster[k] == role) :: roster[k];
      ghost var kept := roster;
      for i := 0 to |pubkeys|
        invariant sets == old(sets)[(h, role) := at]
        invariant roster == WithRole(kept, h, role, pubkeys[..i])
      {
        var key := (h, pubkeys[i]);
        WithOneMore(kept, h, role, pubkeys, i);
        if role == Admin || key !in roster {
          roster := roster[key := role];
        }
      }
      assert pubkeys[..|pubkeys|] == pubkeys;
    }

    /** `stored` is whether the log took the row. */
    method InsertEvent(id: string, row: LogRow) returns (stored: bool)
      modifies this`log
      ensures log == Inserted(old(log), id, row)
      ensures stored <==>
        !Superseded(old(log), row) && (id !in old(log) || (row.slot.Some? && old(log)[id].slot == row.slot))
    {
      if row.slot.Some? {
        if exists k :: k in log && log[k].slot == row.slot && log[k].at >= row.at { return false; }
        log := map k | k in log && log[k].slot != row.slot :: log[k];
      }
      if id in log { return false; }
      log := log[id := row];
      stored := true;
    }

    method RouteChat(chat: Chat) returns (woke: bool)
      modifies this`inbox
      ensures inbox == old(inbox) + Doorbells(old(Value()), chat)
      ensures woke <==> inbox != old(inbox)
    {
      woke := false;
      for i := 0 to |chat.targets|
        invariant inbox == old(inbox) + set t | t in chat.targets[..i] && t != chat.author
          && (t, ChannelOf(chat)) in routes :: (chat.id, t)
        invariant woke <==> inbox != old(inbox)
      {
        var target := chat.targets[i];
        assert forall t :: t in chat.targets[..i + 1] <==> t in chat.targets[..i] || t == target;
        if target != chat.author && (target, ChannelOf(chat)) in routes {
          var row := (chat.id, target);
          if row !in inbox {
            inbox := inbox + {row};
            woke := true;
          }
        }
      }
      assert chat.targets[..|chat.targets|] == chat.targets;
    }

    method AcceptChat(chat: Chat) returns (outcome: Outcome)
      modifies this`log, this`messages, this`inbox
      ensures Value() == Accept(old(Value()), chat)
      ensures outcome == Outcome(true, inbox != old(inbox))
    {
      var _ := InsertEvent(chat.id, ChatRow(chat));
      messages := messages + {chat.id};
      var woke := RouteChat(chat);
      outcome := Outcome(true, woke);
    }

    method MaterializeChatMessage(chat: Chat) returns (outcome: Outcome)
      requires Valid()
      modifies this`log, this`messages, this`inbox, this`quarantine
      ensures Valid() && Value() == MaterializeChat(old(Value()), chat)
      ensures outcome == Outcome(old(ChatAdmission(Value(), chat)) == Accepted, inbox != old(inbox))
      ensures chat.id in messages <==> chat.id in old(messages) || old(ChatAdmission(Value(), chat)) == Accepted
      ensures chat.id in quarantine <==> old(ChatAdmission(Value(), chat)) == Unhydrated
    {
      match ChatAdmission(State(sets, roster, log, messages, inbox, reactions, quarantine, routes), chat) {
        case Accepted =>
          outcome := AcceptChat(chat);
          quarantine := quarantine - {chat.id};
        case Unhydrated =>
          if chat.id !in quarantine { quarantine := quarantine[chat.id := chat]; }
          outcome := Outcome(false, false);
        case Rejected =>
          quarantine := quarantine - {chat.id};
          outcome := Outcome(false, false);
      }
    }

    /** The held chats of a channel, by creation time and id, as they are replayed. */
    method HeldChats(h: string) returns (rows: seq<Chat>)
      requires Valid()
      ensures NoRepeats(rows)
      ensures forall i, j :: 0 <= i < j < |rows| ==>
        || rows[i].createdAt < rows[j].createdAt
        || (rows[i].createdAt == rows[j].createdAt && StrLe(rows[i].id, rows[j].id))
      ensures forall c: Chat :: c in rows <==> c.id in Held(Value(), h) && quarantine[c.id] == c
    {
      var held := quarantine;
      var wanted := set id | id in held && ChannelOf(held[id]) == h;
      assert wanted == Held(Value(), h);
      var ids := WalkKeys(wanted);
      rows := seq(|ids|, i requires 0 <= i < |ids| => assert ids[i] in ids; held[ids[i]]);
      forall i | 0 <= i < |ids| ensures ids[i] in held && held[ids[i]].id == ids[i] { assert ids[i] in ids; }
      ChatsById(held, ids, rows);
      ghost var unsorted := rows;
      rows := SortBy(rows, Earlier);
      EarlierIsOrder();
      SortBySorted(unsorted, Earlier);
      SameElements(rows, unsorted);
      PermutationNoRepeats(unsorted, rows);
    }

    method ReplayQuarantined(h: string) returns (woke: bool)
      requires Valid()
      modifies this`log, this`messages, this`inbox, this`quarantine
      ensures Valid() && Value() == Replay(old(Value()), h)
      ensures woke <==> inbox != old(inbox)
    {
      woke := false;
      if (h, Admin) !in sets || (h, Member) !in sets { return; }
      var rows := HeldChats(h);
      ghost var s := Value();
      ghost var done: set<string> := {};
      assert s == Replayed(s, h, {}) by {
        assert Admitted(s, h) * {} == {};
        assert DoorbellsOf(s, {}) == {};
        assert s.quarantine - {} == s.quarantine;
      }
      for i := 0 to |rows|
        invariant done == set k | 0 <= k < i :: rows[k].id
        invariant Value() == if h == "" then s else Replayed(s, h, done)
        invariant woke <==> inbox != old(inbox)
        invariant old(inbox) <= inbox
      {
        var chat := rows[i];
        assert chat in rows;
        assert h != "" ==> chat.id !in done by { DistinctIds(rows, s, h, i); }
        if h != "" { ReplayOneMore(s, h, done, chat); }
        match ChatAdmission(State(sets, roster, log, messages, inbox, reactions, quarantine, routes), chat) {
          case Accepted =>
            var outcome := AcceptChat(chat);
            woke := woke || outcome.woke;
            quarantine := quarantine - {chat.id};
          case Rejected =>
            quarantine := quarantine - {chat.id};
          case Unhydrated =>
        }
        done := done + {chat.id};
      }
      if h != "" {
        assert done == Held(s, h) by {
          forall id | id in Held(s, h) ensures id in done {
            assert s.quarantine[id] in rows;
          }
        }
        assert Admitted(s, h) * done == Admitted(s, h);
      }
    }

    lemma DistinctIds(rows: seq<Chat>, s: State, h: string, i: nat)
      requires NoRepeats(rows) && i < |rows|
      requires forall c :: c in rows ==> c.id in Held(s, h) && s.quarantine[c.id] == c
      ensures rows[i].id !in set k | 0 <= k < i :: rows[k].id
    {
      forall k | 0 <= k < i ensures rows[k].id != rows[i].id {
        assert rows[k] in rows && rows[i] in rows;
      }
    }

    /** One event off the relay (or one local roster write). */
    method Materialize(e: Event) returns (outcome: Outcome)
      requires Valid()
      modifies this
      ensures Valid() && Value() == Step(old(Value()), e)
      ensures outcome.woke <==> inbox != old(inbox)
      ensures outcome.tail <==>
        || (e.ChatArrives? && e.chat.h.Some? && old(ChatAdmission(Value(), e.chat)) == Accepted)
        || (e.VerbatimArrives? && e.note.kind == 1 && e.note.inChannel)
    {
      outcome := Outcome(false, false);
      match e {
        case ChatArrives(chat) =>
          if chat.h == None {
            var _ := InsertEvent(chat.id, ChatRow(chat));
          } else {
            outcome := MaterializeChatMessage(chat);
          }
        case Snapshot(role, d, pubkeys, at) =>
          if d.Some? { ReplaceRoleRows(d.value, role, pubkeys, at); }
          var woke := ReplayQuarantined(if d.Some? then d.value else "");
          outcome := Outcome(false, woke);
        case ReactionArrives(id, at, decodes) =>
          if decodes {
            reactions := reactions + {id};
          } else {
            var _ := InsertEvent(id, LogRow(None, at));
          }
        case VerbatimArrives(note) =>
          var _ := InsertEvent(note.id, NoteRow(note));
          outcome := Outcome(note.kind == 1 && note.inChannel, false);
        case Grant(h, p, role) =>
          if role == Admin || (h, p) !in roster { roster := roster[(h, p) := role]; }
        case Revoke(h, p) =>
          roster := roster - {(h, p)};
        case RoutesChange(r) =>
          routes := r;
      }
    }
  }
}
