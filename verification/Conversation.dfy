/**
  The conversation detector of the channel nudge (src/channel_nudge.rs): whether a few live
  participants are having a focused exchange in a root channel.
 */
module Conversation {
  import opened Orders
  import opened Numbers

  datatype Participant = Participant(pubkey: string, details: string, live: bool, busy: bool)

  datatype Message = Message(id: string, author: string, at: nat, substantive: bool)

  datatype Reaction = Reaction(reactor: string, target: string)

  datatype Evidence = Evidence(
    parent: string, cohort: seq<Participant>, busy: seq<string>, audience: nat, engaged: nat,
    messageCount: nat, alternations: nat, startedAt: nat, endedAt: nat, lastMessageId: string)

  type Live = map<string, Participant>

  // ---- the definition ----

  /** Live participants by key; a later entry replaces an earlier one. */
  function LiveOf(participants: seq<Participant>): Live {
    if participants == [] then map[] else
      var last, live := participants[|participants| - 1], LiveOf(participants[..|participants| - 1]);
      if last.live then live[last.pubkey := last] else live
  }

  predicate Counts(m: Message, live: Live) { m.substantive && m.author in live }

  function Selected(messages: seq<Message>, live: Live): seq<Message> {
    if messages == [] then [] else
      var last := messages[|messages| - 1];
      Selected(messages[..|messages| - 1], live) + if Counts(last, live) then [last] else []
  }

  predicate MsgLe(a: Message, b: Message) {
    a.at < b.at || (a.at == b.at && StrLe(a.id, b.id))
  }

  function Said(messages: seq<Message>, author: string): nat {
    if messages == [] then 0 else
      Said(messages[..|messages| - 1], author) + if messages[|messages| - 1].author == author then 1 else 0
  }

  function Authors(messages: seq<Message>): set<string> {
    set m | m in messages :: m.author
  }

  function Frequent(messages: seq<Message>): set<string> {
    set a | a in Authors(messages) && Said(messages, a) >= 2
  }

  function Engaged(messages: seq<Message>, reactions: seq<Reaction>, live: Live): set<string> {
    Authors(messages) + set r | r in reactions && Reacts(r, messages, live) :: r.reactor
  }

  predicate Reacts(r: Reaction, messages: seq<Message>, live: Live) {
    r.reactor in live && exists m :: m in messages && m.id == r.target
  }

  function Alternations(messages: seq<Message>): nat {
    if |messages| < 2 then 0 else
      var n := |messages|;
      Alternations(messages[..n - 1]) + if messages[n - 2].author != messages[n - 1].author then 1 else 0
  }

  predicate NarrowShare(audience: nat, engaged: nat) {
    audience >= engaged + 3 && engaged * 2 <= audience
  }

  function MinimumMessages(audience: nat, engaged: nat): nat {
    if NarrowShare(audience, engaged) then 4 else 6
  }

  function BusyKeys(cohort: seq<Participant>): seq<string> {
    if cohort == [] then [] else
      var last := cohort[|cohort| - 1];
      BusyKeys(cohort[..|cohort| - 1]) + if last.busy then [last.pubkey] else []
  }

  ghost function Cohort(authors: set<string>, live: Live): seq<Participant>
    requires authors <= live.Keys
  {
    var keys := Ascending(authors);
    seq(|keys|, i requires 0 <= i < |keys| => assert keys[i] in keys; live[keys[i]])
  }

  /** The exchange itself qualifies, whoever is watching. */
  predicate Exchange(relevant: seq<Message>) {
    && |Authors(relevant)| >= 2 && |Frequent(relevant)| >= 2
    && Alternations(relevant) >= 3
    && (|relevant| >= 8 || (relevant != [] && relevant[|relevant| - 1].at >= relevant[0].at + 20))
  }

  ghost function EvidenceOf(parent: string, live: Live, relevant: seq<Message>, reactions: seq<Reaction>): Evidence
    requires relevant != [] && Authors(relevant) <= live.Keys
  {
    var cohort := Cohort(Authors(relevant), live);
    Evidence(parent, cohort, BusyKeys(cohort),
      |live|, |Engaged(relevant, reactions, live)|,
      |relevant|, Alternations(relevant), relevant[0].at, relevant[|relevant| - 1].at,
      relevant[|relevant| - 1].id)
  }

  ghost function Judge(parent: string, live: Live, relevant: seq<Message>, reactions: seq<Reaction>): Option<Evidence>
    requires Authors(relevant) <= live.Keys
  {
    if Exchange(relevant) && |relevant| >= MinimumMessages(|live|, |Engaged(relevant, reactions, live)|)
    then Some(EvidenceOf(parent, live, relevant, reactions)) else None
  }

  ghost function RelevantTo(messages: seq<Message>, live: Live): (r: seq<Message>)
    ensures Authors(r) <= live.Keys
  {
    var r := SortBy(Selected(messages, live), MsgLe);
    SameElements(r, Selected(messages, live));
    SelectedCount(messages, live);
    r
  }

  ghost function Detect(
      parent: string, isRoot: bool, messages: seq<Message>, reactions: seq<Reaction>,
      participants: seq<Participant>): Option<Evidence>
  {
    var live := LiveOf(participants);
    if !isRoot then None else Judge(parent, live, RelevantTo(messages, live), reactions)
  }

  lemma {:induction false} SelectedCount(messages: seq<Message>, live: Live)
    ensures forall m :: m in Selected(messages, live) <==> m in messages && Counts(m, live)
    ensures forall m ::
      multiset(Selected(messages, live))[m] == if Counts(m, live) then multiset(messages)[m] else 0
  {
    if messages != [] {
      var front, last := messages[..|messages| - 1], messages[|messages| - 1];
      assert messages == front + [last];
      SelectedCount(front, live);
    }
  }

  // ---- the method ----

  lemma EngagedWithinAudience(live: Live, relevant: seq<Message>, reactions: seq<Reaction>)
    requires Authors(relevant) <= live.Keys
    ensures Authors(relevant) <= Engaged(relevant, reactions, live) <= live.Keys
    ensures |Authors(relevant)| <= |Engaged(relevant, reactions, live)| <= |live|
  {
    SubsetSize(Authors(relevant), Engaged(relevant, reactions, live));
    SubsetSize(Engaged(relevant, reactions, live), live.Keys);
    assert |live| == |live.Keys|;
  }

  method CountAuthors(relevant: seq<Message>) returns (counts: map<string, nat>)
    ensures counts.Keys == Authors(relevant)
    ensures forall a :: a in counts ==> counts[a] == Said(relevant, a)
  {
    counts := map[];
    for i := 0 to |relevant|
      invariant forall a :: a in counts <==> exists k :: 0 <= k < i && relevant[k].author == a
      invariant forall a :: (if a in counts then counts[a] else 0) == Said(relevant[..i], a)
    {
      assert relevant[..i + 1][..i] == relevant[..i];
      var author := relevant[i].author;
      counts := counts[author := (if author in counts then counts[author] else 0) + 1];
    }
    assert relevant[..|relevant|] == relevant;
  }

  method CountAlternations(relevant: seq<Message>) returns (n: nat)
    ensures n == Alternations(relevant)
  {
    n := 0;
    if relevant == [] { return; }
    for i := 1 to |relevant|
      invariant n == Alternations(relevant[..i])
    {
      assert relevant[..i + 1][..i] == relevant[..i];
      if relevant[i - 1].author != relevant[i].author { n := n + 1; }
    }
    assert relevant[..|relevant|] == relevant;
  }

  method CollectLive(participants: seq<Participant>) returns (live: Live)
    ensures live == LiveOf(participants)
  {
    live := map[];
    for i := 0 to |participants|
      invariant live == LiveOf(participants[..i])
    {
      assert participants[..i + 1][..i] == participants[..i];
      if participants[i].live { live := live[participants[i].pubkey := participants[i]]; }
    }
    assert participants[..|participants|] == participants;
  }

  method SelectRelevant(messages: seq<Message>, live: Live) returns (relevant: seq<Message>)
    ensures relevant == RelevantTo(messages, live)
  {
    relevant := [];
    for i := 0 to |messages|
      invariant relevant == Selected(messages[..i], live)
    {
      assert messages[..i + 1][..i] == messages[..i];
      if Counts(messages[i], live) { relevant := relevant + [messages[i]]; }
    }
    assert messages[..|messages|] == messages;
    relevant := SortBy(relevant, MsgLe);
  }

  method CollectCohort(authors: set<string>, live: Live) returns (cohort: seq<Participant>, busy: seq<string>)
    requires authors <= live.Keys
    ensures cohort == Cohort(authors, live) && busy == BusyKeys(cohort) && |cohort| == |authors|
  {
    var keys := WalkKeys(authors);
    AscendingSize(keys, authors);
    assert forall i :: 0 <= i < |keys| ==> keys[i] in keys;
    cohort := seq(|keys|, i requires 0 <= i < |keys| => live[keys[i]]);
    busy := [];
    for i := 0 to |cohort|
      invariant busy == BusyKeys(cohort[..i])
    {
      assert cohort[..i + 1][..i] == cohort[..i];
      if cohort[i].busy { busy := busy + [cohort[i].pubkey]; }
    }
    assert cohort[..|cohort|] == cohort;
  }

  method CollectEngaged(relevant: seq<Message>, reactions: seq<Reaction>, live: Live)
    returns (engaged: set<string>)
    ensures engaged == Engaged(relevant, reactions, live)
  {
    var ids := set m | m in relevant :: m.id;
    engaged := set m | m in relevant :: m.author;
    for i := 0 to |reactions|
      invariant engaged == Engaged(relevant, reactions[..i], live)
    {
      assert forall r :: r in reactions[..i + 1] <==> r in reactions[..i] || r == reactions[i];
      if reactions[i].reactor in live && reactions[i].target in ids {
        engaged := engaged + {reactions[i].reactor};
      }
    }
    assert reactions[..|reactions|] == reactions;
  }

  method CountVoices(relevant: seq<Message>) returns (authors: set<string>, enough: bool)
    ensures authors == Authors(relevant)
    ensures enough <==> |Authors(relevant)| >= 2 && |Frequent(relevant)| >= 2
  {
    var counts := CountAuthors(relevant);
    authors := counts.Keys;
    var frequent := set a | a in counts && counts[a] >= 2;
    assert frequent == Frequent(relevant);
    enough := !(|authors| < 2 || |frequent| < 2);
  }

  method JudgeConversation(parent: string, live: Live, relevant: seq<Message>, reactions: seq<Reaction>)
    returns (r: Option<Evidence>)
    requires Authors(relevant) <= live.Keys
    ensures r == Judge(parent, live, relevant, reactions)
  {
    var authors, enough := CountVoices(relevant);
    if !enough { return None; }
    var cohort, busy := CollectCohort(authors, live);
    var engagedKeys := CollectEngaged(relevant, reactions, live);
    EngagedWithinAudience(live, relevant, reactions);
    var audience, engaged := Max(|live|, |cohort|), Max(|engagedKeys|, |cohort|);
    if |relevant| < MinimumMessages(audience, engaged) { return None; }
    var alternations := CountAlternations(relevant);
    if alternations < 3 { return None; }
    var first, last := relevant[0], relevant[|relevant| - 1];
    if SaturatingSub(last.at, first.at) < 20 && |relevant| < 8 { return None; }
    r := Some(Evidence(parent, cohort, busy, audience, engaged, |relevant|, alternations, first.at, last.at, last.id));
  }

  method DetectRootConversation(
      parent: string, isRoot: bool, messages: seq<Message>, reactions: seq<Reaction>,
      participants: seq<Participant>) returns (r: Option<Evidence>)
    ensures r == Detect(parent, isRoot, messages, reactions, participants)
  {
    if !isRoot { return None; }
    var live := CollectLive(participants);
    var relevant := SelectRelevant(messages, live);
    r := JudgeConversation(parent, live, relevant, reactions);
  }
}
