/**
  Chat admission over whole runs: every arrival of a chat is decided exactly once, by the roster at
  the later of its arrival and the channel's hydration, whatever else is interleaved.
 */
module AdmissionRuns {
  import opened Orders
  import opened Admission

  ghost function Run(es: seq<Event>): State {
    if es == [] then EMPTY else Step(Run(es[..|es| - 1]), es[|es| - 1])
  }

  /** An event id names one event, as it is the hash of it. */
  ghost predicate Owns(es: seq<Event>, chat: Chat) {
    forall e :: e in es && e.ChatArrives? && e.chat.id == chat.id ==> e.chat == chat
  }

  ghost predicate Arrived(es: seq<Event>, chat: Chat) {
    ChatArrives(chat) in es
  }

  // ---- hydration ----

  lemma StepKeepsHydrated(s: State, e: Event, h: string)
    requires Hydrated(s, h)
    ensures Hydrated(Step(s, e), h)
  {}

  /** Only a snapshot of the channel itself can hydrate it. */
  lemma HydrationIsASnapshot(s: State, e: Event, h: string)
    requires !Hydrated(s, h) && Hydrated(Step(s, e), h)
    ensures e.Snapshot? && e.d == Some(h)
  {}

  /** The number of events after which the channel was first hydrated. */
  ghost function Onset(es: seq<Event>, h: string): (k: nat)
    requires Hydrated(Run(es), h)
    ensures 0 < k <= |es|
    ensures Hydrated(Run(es[..k]), h) && !Hydrated(Run(es[..k - 1]), h)
  {
    var pre := es[..|es| - 1];
    if Hydrated(Run(pre), h) then
      var k := Onset(pre, h);
      assert pre[..k] == es[..k] && pre[..k - 1] == es[..k - 1];
      k
    else
      assert es[..|es|] == es;
      |es|
  }

  /** The roster that decides the arrival at position `i`. */
  ghost function DecisionPoint(es: seq<Event>, i: nat, h: string): (k: nat)
    requires i < |es| && Hydrated(Run(es), h)
    ensures k <= |es|
  {
    var k := Onset(es, h);
    if i < k then k else i
  }

  /** The author is a member and the target, if one is given, can be reached in the channel. */
  predicate Qualifies(s: State, h: string, chat: Chat, target: Option<string>) {
    IsMember(s, h, chat.author) && (target.Some? ==> (target.value, h) in s.routes)
  }

  /** Some arrival of the chat was decided while it qualified. */
  ghost predicate Decided(es: seq<Event>, h: string, chat: Chat, target: Option<string>)
    requires Hydrated(Run(es), h)
  {
    exists i :: 0 <= i < |es| && es[i] == ChatArrives(chat)
      && Qualifies(Run(es[..DecisionPoint(es, i, h)]), h, chat, target)
  }

  /** Some arrival of the chat was decided while its author was a member. */
  ghost predicate DecidedForMember(es: seq<Event>, h: string, chat: Chat)
    requires Hydrated(Run(es), h)
  {
    Decided(es, h, chat, None)
  }

  // ---- the quarantine ----

  /** Whatever is quarantined did arrive, and its channel is not hydrated (or has no id). */
  ghost predicate QuarantineSound(es: seq<Event>) {
    var s := Run(es);
    forall id :: id in s.quarantine ==>
      var c := s.quarantine[id];
      && c.id == id && c.h.Some? && Arrived(es, c)
      && (c.h.value == "" || !Hydrated(s, c.h.value))
  }

  lemma {:induction false} QuarantineIsSound(es: seq<Event>)
    ensures QuarantineSound(es)
  {
    if es != [] {
      var pre, e := es[..|es| - 1], es[|es| - 1];
      QuarantineIsSound(pre);
      var s, t := Run(pre), Run(es);
      assert es == pre + [e];
      forall id | id in t.quarantine
        ensures var c := t.quarantine[id];
          && c.id == id && c.h.Some? && Arrived(es, c)
          && (c.h.value == "" || !Hydrated(t, c.h.value))
      {
        QuarantineStep(s, e, id);
        var c := t.quarantine[id];
        if id in s.quarantine {
          assert c == s.quarantine[id];
          if c.h.value != "" && Hydrated(t, c.h.value) { HydrationIsASnapshot(s, e, c.h.value); }
        }
      }
    }
  }

  lemma QuarantineStep(s: State, e: Event, id: string)
    requires id in Step(s, e).quarantine
    ensures id in s.quarantine ==> Step(s, e).quarantine[id] == s.quarantine[id]
    ensures id in s.quarantine && e.Snapshot? && e.d == Some(ChannelOf(s.quarantine[id])) ==>
      e.d.value == "" || !Hydrated(Step(s, e), e.d.value)
    ensures id !in s.quarantine ==>
      && e.ChatArrives? && e.chat.id == id && e.chat.h.Some? && Step(s, e).quarantine[id] == e.chat
      && (e.chat.h.value == "" || !Hydrated(s, e.chat.h.value))
      && Step(s, e).sets == s.sets
  {}

  // ---- the verdict on one chat ----

  lemma {:induction false} OnsetIsNow(pre: seq<Event>, e: Event, h: string)
    requires !Hydrated(Run(pre), h) && Hydrated(Run(pre + [e]), h)
    ensures e.Snapshot? && Onset(pre + [e], h) == |pre| + 1
  {
    assert (pre + [e])[..|pre|] == pre;
    HydrationIsASnapshot(Run(pre), e, h);
  }

  lemma {:induction false} DecisionIsNow(pre: seq<Event>, e: Event, h: string, i: nat)
    requires !Hydrated(Run(pre), h) && Hydrated(Run(pre + [e]), h) && i < |pre| + 1
    ensures (pre + [e])[..DecisionPoint(pre + [e], i, h)] == pre + [e]
  {
    OnsetIsNow(pre, e, h);
  }

  lemma {:induction false} DecidedBeforeHydration(
      pre: seq<Event>, e: Event, h: string, chat: Chat, target: Option<string>)
    requires !Hydrated(Run(pre), h) && Hydrated(Run(pre + [e]), h)
    ensures Decided(pre + [e], h, chat, target) <==>
      Arrived(pre, chat) && Qualifies(Run(pre + [e]), h, chat, target)
  {
    if Arrived(pre, chat) && Qualifies(Run(pre + [e]), h, chat, target) {
      var i :| 0 <= i < |pre| && pre[i] == ChatArrives(chat);
      assert (pre + [e])[i] == ChatArrives(chat);
      DecisionIsNow(pre, e, h, i);
    }
    if Decided(pre + [e], h, chat, target) {
      var i :| 0 <= i < |pre + [e]| && (pre + [e])[i] == ChatArrives(chat)
        && Qualifies(Run((pre + [e])[..DecisionPoint(pre + [e], i, h)]), h, chat, target);
      DecisionIsNow(pre, e, h, i);
      OnsetIsNow(pre, e, h);
      assert pre[i] == ChatArrives(chat);
    }
  }

  lemma {:induction false} DecidedAfterHydration(
      pre: seq<Event>, e: Event, h: string, chat: Chat, target: Option<string>)
    requires var es := pre + [e]; Hydrated(Run(pre), h) && Hydrated(Run(es), h)
    ensures Decided(pre + [e], h, chat, target) <==>
      Decided(pre, h, chat, target) || (e == ChatArrives(chat) && Qualifies(Run(pre), h, chat, target))
  {
    var es := pre + [e];
    assert es[..|es| - 1] == pre;
    forall i | 0 <= i < |pre|
      ensures es[i] == pre[i] && DecisionPoint(es, i, h) == DecisionPoint(pre, i, h)
      ensures es[..DecisionPoint(es, i, h)] == pre[..DecisionPoint(pre, i, h)]
    {}
    assert DecisionPoint(es, |pre|, h) == |pre| && es[|pre|] == e && es[..|pre|] == pre;
    if Decided(pre, h, chat, target) {
      var i :| 0 <= i < |pre| && pre[i] == ChatArrives(chat)
        && Qualifies(Run(pre[..DecisionPoint(pre, i, h)]), h, chat, target);
      assert es[i] == ChatArrives(chat);
    }
    if Decided(es, h, chat, target) {
      var i :| 0 <= i < |es| && es[i] == ChatArrives(chat)
        && Qualifies(Run(es[..DecisionPoint(es, i, h)]), h, chat, target);
      if i < |pre| { assert pre[i] == ChatArrives(chat); }
    }
  }

  /** How one event changes what is known of a chat of channel `h`. */
  lemma ChatStep(s: State, e: Event, chat: Chat, h: string)
    requires chat.h == Some(h) && h != ""
    requires e.ChatArrives? && e.chat.id == chat.id ==> e.chat == chat
    requires chat.id in s.quarantine ==> s.quarantine[chat.id] == chat
    requires Hydrated(s, h) ==> chat.id !in s.quarantine
    ensures var t := Step(s, e);
      chat.id in t.messages <==>
        || chat.id in s.messages
        || (e == ChatArrives(chat) && Hydrated(s, h) && IsMember(s, h, chat.author))
        || (chat.id in s.quarantine && Hydrated(t, h) && IsMember(t, h, chat.author))
    ensures var t := Step(s, e);
      chat.id in t.quarantine <==> !Hydrated(t, h) && (chat.id in s.quarantine || e == ChatArrives(chat))
  {
    if e.Snapshot? && e.d.Some? {
      SnapshotStep(s, e, chat, h);
    } else if e.ChatArrives? && e.chat.id != chat.id {
      assert Step(s, e).sets == s.sets && Step(s, e).roster == s.roster;
    }
  }

  lemma SnapshotStep(s: State, e: Event, chat: Chat, h: string)
    requires e.Snapshot? && e.d.Some? && chat.h == Some(h) && h != ""
    requires chat.id in s.quarantine ==> s.quarantine[chat.id] == chat
    requires Hydrated(s, h) ==> chat.id !in s.quarantine
    ensures var t := Step(s, e);
      chat.id in t.messages <==>
        chat.id in s.messages || (chat.id in s.quarantine && Hydrated(t, h) && IsMember(t, h, chat.author))
    ensures var t := Step(s, e); chat.id in t.quarantine <==> !Hydrated(t, h) && chat.id in s.quarantine
  {
    var r := ReplaceRole(s, e.d.value, e.role, e.pubkeys, e.at);
    assert r.quarantine == s.quarantine && r.messages == s.messages;
    assert Step(s, e) == Replay(r, e.d.value) && Step(s, e).roster == r.roster && Step(s, e).sets == r.sets;
    assert e.d.value != h ==> (Hydrated(r, h) <==> Hydrated(s, h));
  }

  /**
    On every run from the empty store: a chat is accepted exactly when its channel is hydrated and
    one of its arrivals was decided while its author was a member, and it is quarantined exactly
    when it arrived and its channel is not hydrated.
   */
  lemma {:induction false} VerdictOnRun(es: seq<Event>, chat: Chat, h: string)
    requires chat.h == Some(h) && h != "" && Owns(es, chat)
    ensures chat.id in Run(es).messages <==> Hydrated(Run(es), h) && DecidedForMember(es, h, chat)
    ensures chat.id in Run(es).quarantine <==> !Hydrated(Run(es), h) && Arrived(es, chat)
  {
    if es != [] {
      var pre, e := es[..|es| - 1], es[|es| - 1];
      assert es == pre + [e];
      VerdictOnRun(pre, chat, h);
      QuarantineIsSound(pre);
      var s, t := Run(pre), Run(es);
      ChatStep(s, e, chat, h);
      if Hydrated(s, h) {
        StepKeepsHydrated(s, e, h);
        DecidedAfterHydration(pre, e, h, chat, None);
      } else if Hydrated(t, h) {
        DecidedBeforeHydration(pre, e, h, chat, None);
      }
    }
  }

  /** How one event changes the inbox rows of a chat of channel `h`. */
  lemma {:induction false} InboxStep(s: State, e: Event, chat: Chat, h: string, target: string)
    requires chat.h == Some(h) && h != ""
    requires e.ChatArrives? && e.chat.id == chat.id ==> e.chat == chat
    requires chat.id in s.quarantine ==> s.quarantine[chat.id] == chat
    requires Hydrated(s, h) ==> chat.id !in s.quarantine
    requires forall id :: id in s.quarantine ==> s.quarantine[id].id == id
    ensures var t := Step(s, e);
      (chat.id, target) in t.inbox <==>
        || (chat.id, target) in s.inbox
        || (target in chat.targets && target != chat.author
            && ((e == ChatArrives(chat) && Hydrated(s, h) && Qualifies(s, h, chat, Some(target)))
                || (chat.id in s.quarantine && Hydrated(t, h) && Qualifies(t, h, chat, Some(target)))))
  {
    if e.Snapshot? && e.d.Some? {
      var r := ReplaceRole(s, e.d.value, e.role, e.pubkeys, e.at);
      assert Step(s, e) == Replay(r, e.d.value);
      ReplayedInbox(r, e.d.value, chat, h, target);
      assert e.d.value != h ==> (Hydrated(r, h) <==> Hydrated(s, h));
    } else if e.ChatArrives? && e.chat.id == chat.id {
      assert e == ChatArrives(chat);
    }
  }

  lemma {:induction false} ReplayedInbox(s: State, d: string, chat: Chat, h: string, target: string)
    requires chat.h == Some(h) && h != ""
    requires chat.id in s.quarantine ==> s.quarantine[chat.id] == chat
    requires forall id :: id in s.quarantine ==> s.quarantine[id].id == id
    ensures (chat.id, target) in Replay(s, d).inbox <==>
      || (chat.id, target) in s.inbox
      || (d == h && Hydrated(s, h) && chat.id in s.quarantine && Qualifies(s, h, chat, Some(target))
          && target in chat.targets && target != chat.author)
  {
    if d == h && Hydrated(s, h) && chat.id in s.quarantine && Qualifies(s, h, chat, Some(target))
      && target in chat.targets && target != chat.author
    {
      assert chat.id in Admitted(s, h) && (chat.id, target) in Doorbells(s, s.quarantine[chat.id]);
    }
  }

  /**
    On every run: a chat rings exactly those targets other than its author for which one of its
    arrivals was decided while the author was a member and the target could be reached.
   */
  lemma {:induction false} InboxOnRun(es: seq<Event>, chat: Chat, h: string, target: string)
    requires chat.h == Some(h) && h != "" && Owns(es, chat)
    ensures (chat.id, target) in Run(es).inbox <==>
      target in chat.targets && target != chat.author && Hydrated(Run(es), h) && Decided(es, h, chat, Some(target))
  {
    if es != [] {
      var pre, e := es[..|es| - 1], es[|es| - 1];
      assert es == pre + [e];
      InboxOnRun(pre, chat, h, target);
      VerdictOnRun(pre, chat, h);
      QuarantineIsSound(pre);
      var s, t := Run(pre), Run(es);
      InboxStep(s, e, chat, h, target);
      if Hydrated(s, h) {
        StepKeepsHydrated(s, e, h);
        DecidedAfterHydration(pre, e, h, chat, Some(target));
      } else if Hydrated(t, h) {
        DecidedBeforeHydration(pre, e, h, chat, Some(target));
      }
    }
  }

  /** After every event a hydrated channel holds nothing in quarantine. */
  lemma {:induction false} HydratedChannelIsDrained(es: seq<Event>, h: string)
    requires h != "" && Hydrated(Run(es), h)
    ensures Held(Run(es), h) == {}
  {
    QuarantineIsSound(es);
    assert forall id :: id in Run(es).quarantine ==> Run(es).quarantine[id].h.Some?;
  }

  /** Chat tagged with the empty channel id is never decided, even if that id has both snapshots. */
  lemma {:induction false} BlankChannelNeverDrains(es: seq<Event>, chat: Chat)
    requires chat.h == Some("") && Owns(es, chat)
    ensures chat.id in Run(es).quarantine <==> Arrived(es, chat)
    ensures chat.id !in Run(es).messages
  {
    if es != [] {
      var pre, e := es[..|es| - 1], es[|es| - 1];
      assert es == pre + [e];
      BlankChannelNeverDrains(pre, chat);
      QuarantineIsSound(pre);
      BlankChatStep(Run(pre), e, chat);
    }
  }

  lemma BlankChatStep(s: State, e: Event, chat: Chat)
    requires chat.h == Some("")
    requires e.ChatArrives? && e.chat.id == chat.id ==> e.chat == chat
    requires chat.id in s.quarantine ==> s.quarantine[chat.id] == chat
    ensures chat.id in Step(s, e).messages ==> chat.id in s.messages
    ensures chat.id in Step(s, e).quarantine <==> chat.id in s.quarantine || e == ChatArrives(chat)
  {}

  // ---- what may enter the log, the messages and the inbox ----

  /** An event whose id goes to the event log without admission. */
  predicate Unadmitted(e: Event, id: string) {
    || (e.ChatArrives? && e.chat.id == id && e.chat.h == None)
    || (e.ReactionArrives? && e.id == id && !e.decodes)
    || (e.VerbatimArrives? && e.note.id == id)
  }

  ghost predicate Entered(s: State, t: State, id: string) {
    id in t.messages - s.messages || exists target :: (id, target) in t.inbox - s.inbox
  }

  lemma {:induction false} EntersByReplay(s: State, d: string, id: string)
    requires forall k :: k in s.quarantine ==> s.quarantine[k].id == k
    requires Entered(s, Replay(s, d), id)
    ensures d != "" && Hydrated(s, d) && id in Admitted(s, d) && id in Replay(s, d).messages
  {}

  lemma {:induction false} EntersStep(s: State, e: Event, id: string) returns (chat: Chat)
    requires forall k :: k in s.quarantine ==> s.quarantine[k].id == k && s.quarantine[k].h.Some?
    requires Entered(s, Step(s, e), id)
    ensures chat.id == id && chat.h.Some? && chat.h.value != ""
    ensures e == ChatArrives(chat) || (id in s.quarantine && s.quarantine[id] == chat)
    ensures Hydrated(Step(s, e), chat.h.value) && IsMember(Step(s, e), chat.h.value, chat.author)
    ensures id in Step(s, e).messages
  {
    if e.ChatArrives? {
      chat := e.chat;
    } else {
      var r := ReplaceRole(s, e.d.value, e.role, e.pubkeys, e.at);
      assert r.quarantine == s.quarantine && r.messages == s.messages && r.inbox == s.inbox;
      EntersByReplay(r, e.d.value, id);
      chat := s.quarantine[id];
    }
  }

  /** A message or inbox row appears only in a step whose roster has its author. */
  lemma EntersAsMember(es: seq<Event>, e: Event, id: string) returns (chat: Chat)
    requires Entered(Run(es), Run(es + [e]), id)
    ensures chat.id == id && Arrived(es + [e], chat) && id in Run(es + [e]).messages
    ensures chat.h.Some? && chat.h.value != "" && Hydrated(Run(es + [e]), chat.h.value)
    ensures IsMember(Run(es + [e]), chat.h.value, chat.author)
  {
    assert (es + [e])[..|es|] == es;
    QuarantineIsSound(es);
    chat := EntersStep(Run(es), e, id);
  }

  // ---- the event log ----

  /** The id is of a regular kind: no event with that id replaces another. */
  ghost predicate Regular(es: seq<Event>, id: string) {
    forall e :: e in es && e.VerbatimArrives? && e.note.id == id ==> NoteRow(e.note).slot == None
  }

  /** At regular kinds the log holds exactly the accepted chats and what is cached without admission. */
  lemma {:induction false} LogOnRun(es: seq<Event>, id: string)
    requires Regular(es, id)
    ensures id in Run(es).log <==>
      id in Run(es).messages || exists i :: 0 <= i < |es| && Unadmitted(es[i], id)
    ensures id in Run(es).log ==> Run(es).log[id].slot == None
  {
    if es != [] {
      var pre, e := es[..|es| - 1], es[|es| - 1];
      assert e in es && forall x :: x in pre ==> x in es;
      LogOnRun(pre, id);
      LogStep(Run(pre), e, id);
      if exists i :: 0 <= i < |pre| && Unadmitted(pre[i], id) {
        var i :| 0 <= i < |pre| && Unadmitted(pre[i], id);
        assert Unadmitted(es[i], id);
      }
      if exists i :: 0 <= i < |es| && Unadmitted(es[i], id) {
        var i :| 0 <= i < |es| && Unadmitted(es[i], id);
        assert i == |pre| || Unadmitted(pre[i], id);
      }
    }
  }

  lemma {:induction false} LogStep(s: State, e: Event, id: string)
    requires id in s.messages ==> id in s.log
    requires id in s.log ==> s.log[id].slot == None
    requires e.VerbatimArrives? && e.note.id == id ==> NoteRow(e.note).slot == None
    ensures id in Step(s, e).log <==>
      id in s.log || id in Step(s, e).messages || Unadmitted(e, id)
    ensures id in s.messages ==> id in Step(s, e).messages
    ensures id in Step(s, e).log ==> Step(s, e).log[id].slot == None
  {
    if e.VerbatimArrives? { InsertKeepsRegular(s.log, e.note.id, NoteRow(e.note), id); }
  }

  lemma {:induction false} InsertKeepsRegular(log: Log, k: string, row: LogRow, id: string)
    requires id in log ==> log[id].slot == None
    requires k == id ==> row.slot == None
    ensures id in Inserted(log, k, row) <==> id in log || id == k
    ensures id in Inserted(log, k, row) ==> Inserted(log, k, row)[id].slot == None
  {}

  /** The row with which an event would enter the log. */
  predicate Names(e: Event, id: string, row: LogRow) {
    || (e.ChatArrives? && e.chat.id == id && row == ChatRow(e.chat))
    || (e.ReactionArrives? && e.id == id && row == LogRow(None, e.at))
    || (e.VerbatimArrives? && e.note.id == id && row == NoteRow(e.note))
  }

  /** An event id names one event, as it is the hash of it. */
  ghost predicate OneEventPerId(es: seq<Event>) {
    forall e, f, id, r, q :: e in es && f in es && Names(e, id, r) && Names(f, id, q) ==> r == q
  }

  ghost predicate Named(es: seq<Event>, id: string, row: LogRow) {
    exists e :: e in es && Names(e, id, row)
  }

  /** Every logged row is that of an event that arrived. */
  lemma {:induction false} LogIsNamed(es: seq<Event>, id: string)
    requires id in Run(es).log
    ensures Named(es, id, Run(es).log[id])
  {
    if es != [] {
      var pre, e := es[..|es| - 1], es[|es| - 1];
      assert es == pre + [e];
      NamedStep(Run(pre), e, id);
      if id in Run(pre).log && Run(pre).log[id] == Run(es).log[id] {
        LogIsNamed(pre, id);
        var f :| f in pre && Names(f, id, Run(es).log[id]);
        assert f in es;
      } else if Names(e, id, Run(es).log[id]) {
        assert e in es;
      } else {
        QuarantineIsSound(pre);
        assert Names(ChatArrives(Run(pre).quarantine[id]), id, Run(es).log[id]);
      }
    }
  }

  lemma {:induction false} NamedStep(s: State, e: Event, id: string)
    requires id in Step(s, e).log
    ensures var row := Step(s, e).log[id];
      || (id in s.log && s.log[id] == row) || Names(e, id, row)
      || (id in s.quarantine && row == ChatRow(s.quarantine[id]))
  {}

  // ---- what the remaining events write ----

  /** On every run the reactions are exactly the decodable ones that arrived. */
  lemma {:induction false} ReactionsOnRun(es: seq<Event>, id: string)
    ensures id in Run(es).reactions <==>
      exists i :: 0 <= i < |es| && es[i].ReactionArrives? && es[i].id == id && es[i].decodes
  {
    if es != [] {
      var pre, e := es[..|es| - 1], es[|es| - 1];
      ReactionsOnRun(pre, id);
      ReactionStep(Run(pre), e, id);
      if i :| 0 <= i < |pre| && pre[i].ReactionArrives? && pre[i].id == id && pre[i].decodes {
        assert es[i].ReactionArrives? && es[i].id == id && es[i].decodes;
      }
      if i :| 0 <= i < |es| && es[i].ReactionArrives? && es[i].id == id && es[i].decodes {
        assert i == |pre| || pre[i].ReactionArrives?;
      }
    }
  }

  lemma {:induction false} ReactionStep(s: State, e: Event, id: string)
    ensures id in Step(s, e).reactions <==>
      id in s.reactions || (e.ReactionArrives? && e.id == id && e.decodes)
  {}

  /** A decodable reaction is passive: it rings, logs and decides nothing. */
  lemma {:induction false} ReactionIsPassive(s: State, id: string, at: nat)
    ensures var t := Step(s, ReactionArrives(id, at, true));
      && t.log == s.log && t.messages == s.messages && t.inbox == s.inbox && t.quarantine == s.quarantine
      && t.roster == s.roster && t.sets == s.sets && t.routes == s.routes
  {}

  ghost predicate Seen(es: seq<Event>, h: string, role: Role) {
    exists i :: 0 <= i < |es| && es[i].Snapshot? && es[i].d == Some(h) && es[i].role == role
  }

  /** On every run a stored set is there exactly if a snapshot was seen, and has the greatest time seen. */
  lemma {:induction false} SetsOnRun(es: seq<Event>, h: string, role: Role)
    ensures (h, role) in Run(es).sets <==> Seen(es, h, role)
    ensures forall e :: e in es && e.Snapshot? && e.d == Some(h) && e.role == role ==> e.at <= Run(es).sets[(h, role)]
    ensures Seen(es, h, role) ==>
      exists e :: e in es && e.Snapshot? && e.d == Some(h) && e.role == role && e.at == Run(es).sets[(h, role)]
  {
    if es != [] {
      var pre, e := es[..|es| - 1], es[|es| - 1];
      assert es == pre + [e];
      SetsOnRun(pre, h, role);
      NewSetStep(Run(pre), e, h, role);
      if i :| 0 <= i < |pre| && pre[i].Snapshot? && pre[i].d == Some(h) && pre[i].role == role {
        assert es[i].Snapshot? && es[i].d == Some(h) && es[i].role == role;
      }
      if i :| 0 <= i < |es| && es[i].Snapshot? && es[i].d == Some(h) && es[i].role == role {
        assert i == |pre| || pre[i].Snapshot?;
      }
      if e.Snapshot? && e.d == Some(h) && e.role == role {
        assert es[|pre|] == e;
      } else {
        assert forall f :: f in es && f.Snapshot? && f.d == Some(h) && f.role == role ==> f in pre;
      }
    }
  }

  lemma {:induction false} NewSetStep(s: State, e: Event, h: string, role: Role)
    ensures var t, k := Step(s, e), (h, role);
      if e.Snapshot? && e.d == Some(h) && e.role == role then
        k in t.sets && t.sets[k] == if k in s.sets && s.sets[k] > e.at then s.sets[k] else e.at
      else (k in t.sets <==> k in s.sets) && (k in s.sets ==> t.sets[k] == s.sets[k])
  {
    if e.ChatArrives? { ChatKeepsRoster(s, e.chat); }
  }

  /** A channel is hydrated exactly if both of its snapshots were seen. */
  lemma {:induction false} HydratedOnRun(es: seq<Event>, h: string)
    ensures Hydrated(Run(es), h) <==> Seen(es, h, Admin) && Seen(es, h, Member)
  {
    SetsOnRun(es, h, Admin);
    SetsOnRun(es, h, Member);
  }

  /** The routes in force are those of the last change. */
  lemma {:induction false} RoutesStep(s: State, e: Event)
    ensures Step(s, e).routes == if e.RoutesChange? then e.routes else s.routes
  {}

  // ---- replacement ----

  /**
    Two notes replace each other exactly if they agree on kind and author and the kind is 3 or in
    10000 to 19999, or is in 30000 to 39999 and their `d` tags agree too.
   */
  lemma {:induction false} ReplacesEachOther(n: Note, m: Note)
    ensures NoteRow(n).slot.Some? && NoteRow(n).slot == NoteRow(m).slot <==>
      && n.kind == m.kind && n.author == m.author
      && (n.kind == 3 || 10000 <= n.kind <= 19999 || (30000 <= n.kind <= 39999 && n.d == m.d))
  {}

  /** A note that replaces by coordinate `c`. */
  predicate At(e: Event, c: Coordinate) {
    e.VerbatimArrives? && NoteRow(e.note).slot == Some(c)
  }

  /** The first arrival of the greatest time at `c`. */
  ghost predicate Newest(es: seq<Event>, c: Coordinate, i: nat) {
    && i < |es| && At(es[i], c)
    && forall j :: 0 <= j < |es| && At(es[j], c) ==>
         es[j].note.at < es[i].note.at || (es[j].note.at == es[i].note.at && i <= j)
  }

  ghost function NewestAt(es: seq<Event>, c: Coordinate): (r: Option<nat>)
    ensures r.Some? ==> Newest(es, c, r.value)
    ensures r.None? ==> forall j :: 0 <= j < |es| ==> !At(es[j], c)
  {
    if es == [] then None else
      var pre, e := es[..|es| - 1], es[|es| - 1];
      var r := NewestAt(pre, c);
      assert forall j :: 0 <= j < |pre| ==> pre[j] == es[j];
      if At(e, c) && (r.None? || es[r.value].note.at < e.note.at) then Some(|pre|) else r
  }

  /** What the log holds at a coordinate. */
  ghost predicate Holds(log: Log, c: Coordinate, id: string) {
    id in log && log[id].slot == Some(c)
  }

  lemma {:induction false} OtherStep(s: State, e: Event, c: Coordinate, id: string)
    requires !At(e, c)
    ensures Holds(Step(s, e).log, c, id) <==> Holds(s.log, c, id)
    ensures Holds(s.log, c, id) ==> Step(s, e).log[id] == s.log[id]
  {}

  lemma {:induction false} ReplaceStep(s: State, e: Event, c: Coordinate, id: string)
    requires At(e, c) && (Holds(s.log, c, e.note.id) || e.note.id !in s.log)
    ensures Superseded(s.log, NoteRow(e.note)) ==> Step(s, e).log == s.log
    ensures !Superseded(s.log, NoteRow(e.note)) ==>
      && (Holds(Step(s, e).log, c, id) <==> id == e.note.id)
      && e.note.id in Step(s, e).log && Step(s, e).log[e.note.id] == NoteRow(e.note)
  {}

  /**
    On every run, a replaceable or addressable coordinate holds at most one row: that of the first
    arrival of the greatest time, whatever else arrived.
   */
  lemma {:induction false} SlotOnRun(es: seq<Event>, c: Coordinate, id: string)
    requires OneEventPerId(es)
    ensures Holds(Run(es).log, c, id) <==>
      NewestAt(es, c).Some? && es[NewestAt(es, c).value].note.id == id
    ensures Holds(Run(es).log, c, id) ==> Run(es).log[id] == NoteRow(es[NewestAt(es, c).value].note)
    decreases |es|, 1
  {
    if es != [] {
      var pre, e := es[..|es| - 1], es[|es| - 1];
      assert es == pre + [e];
      SlotOnRun(pre, c, id);
      if At(e, c) {
        SlotStep(pre, e, c, id);
      } else {
        OtherStep(Run(pre), e, c, id);
      }
    }
  }

  lemma {:induction false} SlotStep(pre: seq<Event>, e: Event, c: Coordinate, id: string)
    requires OneEventPerId(pre + [e]) && At(e, c)
    ensures var r, s, t := NewestAt(pre, c), Run(pre), Step(Run(pre), e);
      if r.None? || pre[r.value].note.at < e.note.at then
        (Holds(t.log, c, id) <==> id == e.note.id) && e.note.id in t.log && t.log[e.note.id] == NoteRow(e.note)
      else t.log == s.log
    decreases |pre| + 1, 0
  {
    var s, r := Run(pre), NewestAt(pre, c);
    assert forall x :: x in pre ==> x in pre + [e];
    assert OneEventPerId(pre);
    if e.note.id in s.log {
      LogIsNamed(pre, e.note.id);
      var f :| f in pre && Names(f, e.note.id, s.log[e.note.id]);
      assert e in pre + [e] && f in pre + [e] && Names(e, e.note.id, NoteRow(e.note));
    }
    ReplaceStep(s, e, c, id);
    forall k | Holds(s.log, c, k)
      ensures r.Some? && pre[r.value].note.id == k && s.log[k] == NoteRow(pre[r.value].note)
    {
      SlotOnRun(pre, c, k);
    }
    if r.Some? { SlotOnRun(pre, c, pre[r.value].note.id); }
  }

  /** With distinct times the newest note is kept, in whatever order the notes arrive. */
  lemma {:induction false} ReplacementForgetsOrder(es: seq<Event>, fs: seq<Event>, c: Coordinate, id: string)
    requires OneEventPerId(es) && OneEventPerId(fs)
    requires forall e :: At(e, c) ==> (e in es <==> e in fs)
    requires forall e, f :: e in es && f in es && At(e, c) && At(f, c) && e.note.at == f.note.at ==> e == f
    ensures Holds(Run(es).log, c, id) <==> Holds(Run(fs).log, c, id)
    ensures Holds(Run(es).log, c, id) ==> Run(es).log[id] == Run(fs).log[id]
  {
    SlotOnRun(es, c, id);
    SlotOnRun(fs, c, id);
    var i, j := NewestAt(es, c), NewestAt(fs, c);
    if i.Some? {
      assert es[i.value] in fs;
      var k :| 0 <= k < |fs| && fs[k] == es[i.value];
      assert At(fs[k], c);
    }
    if j.Some? {
      assert fs[j.value] in es;
      var k :| 0 <= k < |es| && es[k] == fs[j.value];
      assert At(es[k], c);
    }
  }

  // ---- rosters that settle ----

  ghost predicate SettledSince(es: seq<Event>, h: string, from: nat) {
    forall k, p :: from <= k <= |es| ==> (IsMember(Run(es[..k]), h, p) <==> IsMember(Run(es), h, p))
  }

  /**
    If the roster does not change once the channel is hydrated, exactly the arrived chats whose
    author is a member are accepted, wherever the snapshots fell between the arrivals.
   */
  lemma {:induction false} SettledRosterDecides(es: seq<Event>, chat: Chat, h: string)
    requires chat.h == Some(h) && h != "" && Owns(es, chat)
    requires Hydrated(Run(es), h) && SettledSince(es, h, Onset(es, h))
    ensures chat.id in Run(es).messages <==> Arrived(es, chat) && IsMember(Run(es), h, chat.author)
  {
    VerdictOnRun(es, chat, h);
    if Arrived(es, chat) && IsMember(Run(es), h, chat.author) {
      var i :| 0 <= i < |es| && es[i] == ChatArrives(chat);
      assert IsMember(Run(es[..DecisionPoint(es, i, h)]), h, chat.author);
    }
  }

  /** Every snapshot of `h` says the same, and nothing else touches its roster. */
  ghost predicate OneTruth(es: seq<Event>, h: string, admins: seq<string>, members: seq<string>) {
    forall e :: e in es ==>
      && (e.Snapshot? && e.d == Some(h) ==> e.pubkeys == if e.role == Admin then admins else members)
      && (e.Grant? || e.Revoke? ==> e.channel != h)
  }

  /** Then the roster is the union of the lists received so far, in whatever order they came. */
  ghost predicate UnionRow(s: State, h: string, admins: seq<string>, members: seq<string>, p: string) {
    (h, p) in s.roster <==>
      ((h, Admin) in s.sets && p in admins) || ((h, Member) in s.sets && p in members)
  }

  ghost predicate AdminRow(s: State, h: string, admins: seq<string>, p: string) {
    (h, p) in s.roster && s.roster[(h, p)] == Admin <==> (h, Admin) in s.sets && p in admins
  }

  ghost predicate UnionSoFar(s: State, h: string, admins: seq<string>, members: seq<string>) {
    forall p :: UnionRow(s, h, admins, members, p)
  }

  ghost predicate AdminsSoFar(s: State, h: string, admins: seq<string>) {
    forall p :: AdminRow(s, h, admins, p)
  }

  lemma {:induction false} OneTruthRoster(es: seq<Event>, h: string, admins: seq<string>, members: seq<string>)
    requires OneTruth(es, h, admins, members)
    ensures UnionSoFar(Run(es), h, admins, members) && AdminsSoFar(Run(es), h, admins)
  {
    if es != [] {
      var pre, e := es[..|es| - 1], es[|es| - 1];
      assert e in es && forall x :: x in pre ==> x in es;
      OneTruthRoster(pre, h, admins, members);
      OneTruthStep(Run(pre), e, h, admins, members);
    }
  }

  /** What replacing one role's rows does to one row. */
  lemma ReplacedRow(s: State, h: string, role: Role, pubkeys: seq<string>, at: nat, k: (string, string))
    requires (h, role) in s.sets ==> s.sets[(h, role)] <= at
    ensures var t := ReplaceRole(s, h, role, pubkeys, at);
      var kept := k in s.roster && !(k.0 == h && s.roster[k] == role);
      var listed := k.0 == h && k.1 in pubkeys;
      && (k in t.roster <==> kept || listed)
      && (k in t.roster ==> t.roster[k] == if kept && !(listed && role == Admin) then s.roster[k] else role)
  {}

  lemma TrueRowReplaced(s: State, d: string, role: Role, pubkeys: seq<string>, at: nat,
      h: string, admins: seq<string>, members: seq<string>, p: string)
    requires UnionRow(s, h, admins, members, p) && AdminRow(s, h, admins, p)
    requires d == h ==> pubkeys == if role == Admin then admins else members
    ensures UnionRow(ReplaceRole(s, d, role, pubkeys, at), h, admins, members, p)
    ensures AdminRow(ReplaceRole(s, d, role, pubkeys, at), h, admins, p)
  {
    if !((d, role) in s.sets && s.sets[(d, role)] > at) { ReplacedRow(s, d, role, pubkeys, at, (h, p)); }
  }

  lemma {:induction false} RosterKept(s: State, e: Event, h: string, p: string)
    requires !(e.Snapshot? && e.d.Some?) && (e.Grant? || e.Revoke? ==> e.channel != h)
    ensures Step(s, e).sets == s.sets
    ensures (h, p) in Step(s, e).roster <==> (h, p) in s.roster
    ensures (h, p) in s.roster ==> Step(s, e).roster[(h, p)] == s.roster[(h, p)]
  {
    if e.ChatArrives? { ChatKeepsRoster(s, e.chat); }
  }

  lemma {:induction false} ChatKeepsRoster(s: State, chat: Chat)
    ensures Step(s, ChatArrives(chat)).roster == s.roster && Step(s, ChatArrives(chat)).sets == s.sets
  {}

  lemma OneTruthStep(s: State, e: Event, h: string, admins: seq<string>, members: seq<string>)
    requires OneTruth([e], h, admins, members)
    requires UnionSoFar(s, h, admins, members) && AdminsSoFar(s, h, admins)
    ensures UnionSoFar(Step(s, e), h, admins, members) && AdminsSoFar(Step(s, e), h, admins)
  {
    assert e in [e];
    forall p ensures UnionRow(Step(s, e), h, admins, members, p) && AdminRow(Step(s, e), h, admins, p) {
      assert UnionRow(s, h, admins, members, p) && AdminRow(s, h, admins, p);
      if e.Snapshot? && e.d.Some? {
        var r := ReplaceRole(s, e.d.value, e.role, e.pubkeys, e.at);
        TrueRowReplaced(s, e.d.value, e.role, e.pubkeys, e.at, h, admins, members, p);
        assert Step(s, e).roster == r.roster && Step(s, e).sets == r.sets;
      } else {
        RosterKept(s, e, h, p);
      }
    }
  }

  /**
    Order independence: any two runs that bring the same chats to a channel, with any number of
    copies of its two snapshots in any positions, accept the same chats: those by listed authors.
   */
  lemma ArrivalOrderDoesNotMatter(
      es: seq<Event>, fs: seq<Event>, chat: Chat, h: string, admins: seq<string>, members: seq<string>)
    requires chat.h == Some(h) && h != "" && Owns(es, chat) && Owns(fs, chat)
    requires OneTruth(es, h, admins, members) && OneTruth(fs, h, admins, members)
    requires Hydrated(Run(es), h) && Hydrated(Run(fs), h)
    requires Arrived(es, chat) <==> Arrived(fs, chat)
    ensures chat.id in Run(es).messages <==> chat.id in Run(fs).messages
    ensures chat.id in Run(es).messages <==>
      Arrived(es, chat) && (chat.author in admins || chat.author in members)
  {
    OneTruthSettles(es, h, admins, members);
    OneTruthSettles(fs, h, admins, members);
    SettledRosterDecides(es, chat, h);
    SettledRosterDecides(fs, chat, h);
  }

  lemma OneTruthMembers(es: seq<Event>, h: string, admins: seq<string>, members: seq<string>, p: string)
    requires Hydrated(Run(es), h) && OneTruth(es, h, admins, members)
    ensures IsMember(Run(es), h, p) <==> p in admins || p in members
  {
    OneTruthRoster(es, h, admins, members);
    assert UnionRow(Run(es), h, admins, members, p);
  }

  lemma OneTruthSettles(es: seq<Event>, h: string, admins: seq<string>, members: seq<string>)
    requires Hydrated(Run(es), h) && OneTruth(es, h, admins, members)
    ensures SettledSince(es, h, Onset(es, h))
    ensures forall p :: IsMember(Run(es), h, p) <==> p in admins || p in members
  {
    forall p ensures IsMember(Run(es), h, p) <==> p in admins || p in members {
      OneTruthMembers(es, h, admins, members, p);
    }
    forall k, p | Onset(es, h) <= k <= |es|
      ensures IsMember(Run(es[..k]), h, p) <==> IsMember(Run(es), h, p)
    {
      StaysHydrated(es, h, Onset(es, h), k);
      assert forall x :: x in es[..k] ==> x in es;
      OneTruthMembers(es[..k], h, admins, members, p);
    }
  }

  lemma {:induction false} StaysHydrated(es: seq<Event>, h: string, j: nat, k: nat)
    requires j <= k <= |es| && Hydrated(Run(es[..j]), h)
    ensures Hydrated(Run(es[..k]), h)
  {
    if j < k {
      StaysHydrated(es, h, j, k - 1);
      assert es[..k][..k - 1] == es[..k - 1];
      StepKeepsHydrated(Run(es[..k - 1]), es[k - 1], h);
    }
  }

  // ---- rosters that do not ----

  /** A snapshot of `h` for `role` that is not older than the one in force. */
  predicate Applied(s: State, e: Event, h: string, role: Role) {
    e.Snapshot? && e.d == Some(h) && e.role == role && !((h, role) in s.sets && s.sets[(h, role)] > e.at)
  }

  /** An event that decides whether `p` counts as `role`: a list, a local write, or a removal. */
  predicate Touches(s: State, e: Event, h: string, p: string, role: Role) {
    Applied(s, e, h, role) || e == Grant(h, p, role) || e == Revoke(h, p)
  }

  /** What such an event says. */
  predicate Affirms(e: Event, p: string) {
    e.Grant? || (e.Snapshot? && p in e.pubkeys)
  }

  /** The last event that decides about `p` as `role` affirms it. */
  ghost predicate Stands(es: seq<Event>, h: string, p: string, role: Role) {
    es != [] &&
      var pre, e := es[..|es| - 1], es[|es| - 1];
      if Touches(Run(pre), e, h, p, role) then Affirms(e, p) else Stands(pre, h, p, role)
  }

  /** Event `k` is a new admin list that no longer names the admin `p`. */
  ghost predicate Demotes(es: seq<Event>, k: nat, h: string, p: string)
    requires k < |es|
  {
    Applied(Run(es[..k]), es[k], h, Admin) && Stands(es[..k], h, p, Admin) && p !in es[k].pubkeys
  }

  /** Nothing after event `k` decides about `p` as a member. */
  ghost predicate NoneSince(es: seq<Event>, k: nat, h: string, p: string) {
    forall j {:trigger es[j]} :: k < j < |es| ==> !Touches(Run(es[..j]), es[j], h, p, Member)
  }

  /** `p` was demoted, and nothing has decided about it as a member since. */
  ghost predicate DemotedSince(es: seq<Event>, h: string, p: string) {
    exists k :: 0 <= k < |es| && Demotes(es, k, h, p) && NoneSince(es, k, h, p)
  }

  lemma {:induction false} OneMoreSince(es: seq<Event>, e: Event, h: string, p: string, k: nat)
    requires k < |es|
    ensures Demotes(es + [e], k, h, p) <==> Demotes(es, k, h, p)
    ensures NoneSince(es + [e], k, h, p) <==> NoneSince(es, k, h, p) && !Touches(Run(es), e, h, p, Member)
  {
    var more := es + [e];
    assert more[..|es|] == es && more[|es|] == e;
    assert forall j :: 0 <= j < |es| ==> more[j] == es[j] && more[..j] == es[..j];
  }

  lemma {:induction false} DemotedStep(es: seq<Event>, e: Event, h: string, p: string)
    ensures DemotedSince(es + [e], h, p) <==>
      || (Applied(Run(es), e, h, Admin) && Stands(es, h, p, Admin) && p !in e.pubkeys)
      || (DemotedSince(es, h, p) && !Touches(Run(es), e, h, p, Member))
  {
    var more := es + [e];
    assert more[..|es|] == es && more[|es|] == e && NoneSince(more, |es|, h, p);
    if DemotedSince(more, h, p) {
      var k :| 0 <= k < |more| && Demotes(more, k, h, p) && NoneSince(more, k, h, p);
      if k < |es| { OneMoreSince(es, e, h, p, k); }
    }
    if DemotedSince(es, h, p) && !Touches(Run(es), e, h, p, Member) {
      var k :| 0 <= k < |es| && Demotes(es, k, h, p) && NoneSince(es, k, h, p);
      OneMoreSince(es, e, h, p, k);
    }
    if Applied(Run(es), e, h, Admin) && Stands(es, h, p, Admin) && p !in e.pubkeys {
      assert Demotes(more, |es|, h, p);
    }
  }

  /** `p` has the admin row, or any row, that the lists, local writes and demotions give it. */
  ghost predicate RowSettled(es: seq<Event>, h: string, p: string) {
    var s := Run(es);
    && ((h, p) in s.roster && s.roster[(h, p)] == Admin <==> Stands(es, h, p, Admin))
    && ((h, p) in s.roster <==>
         Stands(es, h, p, Admin) || (Stands(es, h, p, Member) && !DemotedSince(es, h, p)))
  }

  /**
    On every run, for lists and local writes that change in any way: the admins are exactly the
    keys that stand as admins, and a key is in the channel exactly if it stands as an admin, or
    stands as a member and was not demoted since.
   */
  lemma {:induction false} RosterOnRun(es: seq<Event>, h: string, p: string)
    ensures RowSettled(es, h, p)
  {
    if es == [] {
      assert !DemotedSince(es, h, p);
    } else {
      var pre, e := es[..|es| - 1], es[|es| - 1];
      assert es == pre + [e];
      RosterOnRun(pre, h, p);
      DemotedStep(pre, e, h, p);
      RowStep(Run(pre), e, h, p);
    }
  }

  /** How one event changes one row. */
  lemma {:induction false} RowStep(s: State, e: Event, h: string, p: string)
    ensures var t, k := Step(s, e), (h, p);
      if e == Revoke(h, p) then k !in t.roster
      else if Touches(s, e, h, p, Admin) then
        && (k in t.roster <==> Affirms(e, p) || (k in s.roster && s.roster[k] == Member))
        && (k in t.roster && t.roster[k] == Admin <==> Affirms(e, p))
      else if Touches(s, e, h, p, Member) then
        && (k in t.roster <==> Affirms(e, p) || (k in s.roster && s.roster[k] == Admin))
        && (k in t.roster && t.roster[k] == Admin <==> k in s.roster && s.roster[k] == Admin)
      else (k in t.roster <==> k in s.roster) && (k in t.roster ==> t.roster[k] == s.roster[k])
  {
    if e.Snapshot? && e.d.Some? {
      var r := ReplaceRole(s, e.d.value, e.role, e.pubkeys, e.at);
      assert Step(s, e).roster == r.roster;
      if !((e.d.value, e.role) in s.sets && s.sets[(e.d.value, e.role)] > e.at) {
        ReplacedRow(s, e.d.value, e.role, e.pubkeys, e.at, (h, p));
      }
    } else if !(e.Grant? || e.Revoke?) {
      RosterKept(s, e, h, p);
    }
  }

  // ---- rosters that only snapshots touch ----

  /** Nothing but snapshots touches the roster of `h`. */
  ghost predicate RelayOnly(es: seq<Event>, h: string) {
    forall e :: e in es && (e.Grant? || e.Revoke?) ==> e.channel != h
  }

  /** The list in force: that of the last snapshot that was applied, or nobody. */
  ghost function Latest(es: seq<Event>, h: string, role: Role): seq<string> {
    if es == [] then [] else
      var pre, e := es[..|es| - 1], es[|es| - 1];
      if Applied(Run(pre), e, h, role) then e.pubkeys else Latest(pre, h, role)
  }

  /** Then whoever stands is listed. */
  lemma {:induction false} StandsIsListed(es: seq<Event>, h: string, p: string, role: Role)
    requires RelayOnly(es, h)
    ensures Stands(es, h, p, role) <==> p in Latest(es, h, role)
  {
    if es != [] {
      var pre, e := es[..|es| - 1], es[|es| - 1];
      assert e in es && forall x :: x in pre ==> x in es;
      StandsIsListed(pre, h, p, role);
    }
  }

  ghost predicate FollowsLists(es: seq<Event>, h: string, p: string) {
    IsMember(Run(es), h, p) <==> p in Latest(es, h, Admin) || p in Latest(es, h, Member)
  }

  ghost predicate LeftDemoted(es: seq<Event>, h: string, p: string) {
    p in Latest(es, h, Member) && DemotedSince(es, h, p) && p !in Latest(es, h, Admin)
  }

  /** So the roster is the union of the lists in force exactly if no listed member is left demoted. */
  lemma {:induction false} RosterIsUnion(es: seq<Event>, h: string)
    requires RelayOnly(es, h)
    ensures (forall p :: FollowsLists(es, h, p)) <==> (forall p :: !LeftDemoted(es, h, p))
  {
    forall p ensures FollowsLists(es, h, p) <==> !LeftDemoted(es, h, p) {
      RosterOnRun(es, h, p);
      StandsIsListed(es, h, p, Admin);
      StandsIsListed(es, h, p, Member);
    }
  }

  /**
    A new admin list keeps the roster equal to the union of the two latest lists exactly when it
    still names every admin that the member list also names: demoting such a key drops it from the
    channel although the latest member list has it.
   */
  lemma DemotionLaw(s: State, h: string, admins: seq<string>, members: seq<string>, next: seq<string>, at: nat)
    requires Hydrated(s, h) && s.sets[(h, Admin)] <= at
    requires UnionSoFar(s, h, admins, members) && AdminsSoFar(s, h, admins)
    ensures UnionSoFar(Step(s, Snapshot(Admin, Some(h), next, at)), h, next, members) <==>
      forall p :: p in admins && p in members ==> p in next
  {
    var t := Step(s, Snapshot(Admin, Some(h), next, at));
    forall p ensures UnionRow(t, h, next, members, p) <==> (p in admins && p in members ==> p in next) {
      ReplacedRow(s, h, Admin, next, at, (h, p));
      assert UnionRow(s, h, admins, members, p) && AdminRow(s, h, admins, p);
    }
  }

  /** A new member list always restores the union. */
  lemma MemberListRestoresUnion(s: State, h: string, admins: seq<string>, next: seq<string>, at: nat)
    requires Hydrated(s, h) && s.sets[(h, Member)] <= at && AdminsSoFar(s, h, admins)
    ensures UnionSoFar(Step(s, Snapshot(Member, Some(h), next, at)), h, admins, next)
  {
    forall p ensures UnionRow(Step(s, Snapshot(Member, Some(h), next, at)), h, admins, next, p) {
      ReplacedRow(s, h, Member, next, at, (h, p));
      assert AdminRow(s, h, admins, p);
    }
  }

  lemma RunAppend(es: seq<Event>, e: Event)
    ensures Run(es + [e]) == Step(Run(es), e)
  {
    assert (es + [e])[..|es|] == es;
  }

  ghost function BothListed(h: string, key: string, at: nat): seq<Event> {
    [Snapshot(Admin, Some(h), [key], at), Snapshot(Member, Some(h), [key], at)]
  }

  lemma BothListedState(h: string, key: string, at: nat)
    ensures var s := Run(BothListed(h, key, at));
      && Hydrated(s, h) && s.sets[(h, Admin)] <= at
      && (h, key) in s.roster && s.roster[(h, key)] == Admin
  {
    var es := BothListed(h, key, at);
    assert es == [es[0]] + [es[1]] && [] + [es[0]] == [es[0]];
    RunAppend([], es[0]);
    RunAppend([es[0]], es[1]);
    OneTruthRoster(es, h, [key], [key]);
    assert AdminRow(Run(es), h, [key], key);
    SetsAreRecent(es, at);
  }

  /** Such a run exists: one key listed by both snapshots and then demoted has its chat rejected. */
  lemma DemotedMemberIsRejected(h: string, key: string, at: nat, chat: Chat)
    requires chat.h == Some(h) && h != "" && chat.author == key
    ensures var s := Run(BothListed(h, key, at) + [Snapshot(Admin, Some(h), [], at + 1)]);
      Hydrated(s, h) && ChatAdmission(s, chat) == Rejected
  {
    var s := Run(BothListed(h, key, at));
    BothListedState(h, key, at);
    RunAppend(BothListed(h, key, at), Snapshot(Admin, Some(h), [], at + 1));
    ReplacedRow(s, h, Admin, [], at + 1, (h, key));
  }

  lemma {:induction false} SetStep(s: State, e: Event, k: (string, Role))
    requires k in Step(s, e).sets
    ensures (k in s.sets && Step(s, e).sets[k] == s.sets[k]) || (e.Snapshot? && Step(s, e).sets[k] == e.at)
  {
    if e.ChatArrives? { ChatKeepsRoster(s, e.chat); }
  }

  /** Timestamps of the stored sets are those of events that were seen. */
  lemma {:induction false} SetsAreRecent(es: seq<Event>, at: nat)
    requires forall e :: e in es && e.Snapshot? ==> e.at <= at
    ensures forall k :: k in Run(es).sets ==> Run(es).sets[k] <= at
  {
    if es != [] {
      var pre, e := es[..|es| - 1], es[|es| - 1];
      assert e in es && forall x :: x in pre ==> x in es;
      SetsAreRecent(pre, at);
      forall k | k in Run(es).sets ensures Run(es).sets[k] <= at { SetStep(Run(pre), e, k); }
    }
  }
}
