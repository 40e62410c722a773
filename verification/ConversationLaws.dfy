/** What the conversation detector does not depend on, and what can only help or only hurt it. */
module ConversationLaws {
  import opened Orders
  import opened Conversation

  // ---- order ----

  /** No two different messages share an id. */
  ghost predicate DistinctIds(messages: seq<Message>) {
    forall a, b :: a in messages && b in messages && a.id == b.id ==> a == b
  }

  lemma MsgLeIsOrder()
    ensures TotalPreorder(MsgLe)
    ensures forall a, b :: MsgLe(a, b) && MsgLe(b, a) ==> a.at == b.at && a.id == b.id
  {
    StrLeIsOrder();
  }

  lemma RelevantForgetsOrder(a: seq<Message>, b: seq<Message>, live: Live)
    requires multiset(a) == multiset(b) && DistinctIds(a)
    ensures RelevantTo(a, live) == RelevantTo(b, live)
  {
    SelectedCount(a, live);
    SelectedCount(b, live);
    assert multiset(Selected(a, live)) == multiset(Selected(b, live));
    MsgLeIsOrder();
    SortByForgetsOrder(Selected(a, live), Selected(b, live), MsgLe);
  }

  /** Live participants have distinct keys. */
  ghost predicate DistinctKeys(participants: seq<Participant>) {
    forall a, b :: a in participants && b in participants && a.live && b.live && a.pubkey == b.pubkey ==> a == b
  }

  lemma {:induction false} LiveMeans(participants: seq<Participant>, key: string)
    ensures key in LiveOf(participants) <==>
      exists p :: p in participants && p.live && p.pubkey == key
    ensures key in LiveOf(participants) ==>
      var p := LiveOf(participants)[key]; p in participants && p.live && p.pubkey == key
  {
    if participants != [] {
      var front, last := participants[..|participants| - 1], participants[|participants| - 1];
      assert participants == front + [last];
      LiveMeans(front, key);
    }
  }

  lemma LiveForgetsOrder(a: seq<Participant>, b: seq<Participant>)
    requires DistinctKeys(a) && forall p :: p in a <==> p in b
    ensures LiveOf(a) == LiveOf(b)
  {
    forall key ensures key in LiveOf(a) <==> key in LiveOf(b)
      ensures key in LiveOf(a) ==> LiveOf(a)[key] == LiveOf(b)[key]
    {
      LiveMeans(a, key);
      LiveMeans(b, key);
    }
  }

  /** The verdict depends on neither the order of messages, reactions nor participants. */
  lemma {:induction false} DetectionForgetsOrder(
      parent: string, isRoot: bool, messages: seq<Message>, messages': seq<Message>,
      reactions: seq<Reaction>, reactions': seq<Reaction>,
      participants: seq<Participant>, participants': seq<Participant>)
    requires multiset(messages) == multiset(messages') && DistinctIds(messages)
    requires forall r :: r in reactions <==> r in reactions'
    requires DistinctKeys(participants) && forall p :: p in participants <==> p in participants'
    ensures Detect(parent, isRoot, messages, reactions, participants) ==
      Detect(parent, isRoot, messages', reactions', participants')
  {
    LiveForgetsOrder(participants, participants');
    var live := LiveOf(participants);
    RelevantForgetsOrder(messages, messages', live);
    var relevant := RelevantTo(messages, live);
    assert Engaged(relevant, reactions, live) == Engaged(relevant, reactions', live);
  }

  // ---- monotonicity ----

  /** More reactions can only turn a detection into none; what is detected stays the same. */
  lemma {:induction false} ReactionsOnlySuppress(
      parent: string, isRoot: bool, messages: seq<Message>, reactions: seq<Reaction>, more: seq<Reaction>,
      participants: seq<Participant>)
    requires forall r :: r in reactions ==> r in more
    ensures var few, many := Detect(parent, isRoot, messages, reactions, participants),
                             Detect(parent, isRoot, messages, more, participants);
      many.Some? ==>
        few.Some? && few.value == many.value.(engaged := few.value.engaged)
          && few.value.engaged <= many.value.engaged
  {
    var live := LiveOf(participants);
    MoreEngaged(parent, live, RelevantTo(messages, live), reactions, more);
  }

  lemma {:induction false} MoreEngaged(
      parent: string, live: Live, relevant: seq<Message>, reactions: seq<Reaction>, more: seq<Reaction>)
    requires Authors(relevant) <= live.Keys && forall r :: r in reactions ==> r in more
    ensures var few, many := Judge(parent, live, relevant, reactions), Judge(parent, live, relevant, more);
      many.Some? ==>
        few.Some? && few.value == many.value.(engaged := few.value.engaged)
          && few.value.engaged <= many.value.engaged
  {
    var few, many := |Engaged(relevant, reactions, live)|, |Engaged(relevant, more, live)|;
    assert few <= many by {
      EngagedGrows(relevant, reactions, more, live);
      SubsetSize(Engaged(relevant, reactions, live), Engaged(relevant, more, live));
    }
    EngagementRaisesTheBar(|live|, few, many);
    if Exchange(relevant) { EvidenceByEngaged(parent, live, relevant, reactions, more); }
  }

  lemma EngagementRaisesTheBar(audience: nat, few: nat, many: nat)
    requires few <= many
    ensures MinimumMessages(audience, few) <= MinimumMessages(audience, many)
  {}

  lemma {:induction false} EvidenceByEngaged(
      parent: string, live: Live, relevant: seq<Message>, reactions: seq<Reaction>, more: seq<Reaction>)
    requires relevant != [] && Authors(relevant) <= live.Keys
    ensures EvidenceOf(parent, live, relevant, reactions) ==
      EvidenceOf(parent, live, relevant, more).(engaged := |Engaged(relevant, reactions, live)|)
  {}

  lemma EngagedGrows(relevant: seq<Message>, reactions: seq<Reaction>, more: seq<Reaction>, live: Live)
    requires forall r :: r in reactions ==> r in more
    ensures Engaged(relevant, reactions, live) <= Engaged(relevant, more, live)
  {}

  /** A live participant who says nothing of substance and does not react. */
  ghost predicate Silent(key: string, messages: seq<Message>, reactions: seq<Reaction>) {
    && (forall m :: m in messages && m.substantive ==> m.author != key)
    && (forall r :: r in reactions ==> r.reactor != key)
  }

  /** `more` has the live participants of `few` and, besides, only silent ones. */
  ghost predicate AddsSilent(few: Live, more: Live, messages: seq<Message>, reactions: seq<Reaction>) {
    && (forall k :: k in few ==> k in more && more[k] == few[k])
    && (forall k :: k in more && k !in few ==> Silent(k, messages, reactions))
  }

  lemma {:induction false} SelectedIgnoresSilent(messages: seq<Message>, few: Live, more: Live)
    requires forall k :: k in few ==> k in more
    requires forall k, m :: k in more && k !in few && m in messages && m.substantive ==> m.author != k
    ensures Selected(messages, few) == Selected(messages, more)
  {
    if messages != [] {
      var front, last := messages[..|messages| - 1], messages[|messages| - 1];
      assert last in messages && forall m :: m in front ==> m in messages;
      SelectedIgnoresSilent(front, few, more);
    }
  }

  /** Silent onlookers never suppress a detection, and change nothing in it but the audience. */
  lemma {:induction false} SilentOnlookersNeverSuppress(
      parent: string, isRoot: bool, messages: seq<Message>, reactions: seq<Reaction>,
      participants: seq<Participant>, crowd: seq<Participant>)
    requires AddsSilent(LiveOf(participants), LiveOf(crowd), messages, reactions)
    ensures var few, many := Detect(parent, isRoot, messages, reactions, participants),
                             Detect(parent, isRoot, messages, reactions, crowd);
      few.Some? ==>
        many.Some? && many.value == few.value.(audience := many.value.audience)
          && few.value.audience <= many.value.audience
  {
    var few, more := LiveOf(participants), LiveOf(crowd);
    SelectedIgnoresSilent(messages, few, more);
    assert RelevantTo(messages, few) == RelevantTo(messages, more);
    LargerAudience(parent, few, more, RelevantTo(messages, few), reactions);
  }

  lemma {:induction false} LargerAudience(
      parent: string, few: Live, more: Live, relevant: seq<Message>, reactions: seq<Reaction>)
    requires Authors(relevant) <= few.Keys && few.Keys <= more.Keys
    requires forall k :: k in few ==> k in more && more[k] == few[k]
    requires forall k, r :: k in more && k !in few && r in reactions ==> r.reactor != k
    ensures var few', many := Judge(parent, few, relevant, reactions), Judge(parent, more, relevant, reactions);
      few'.Some? ==>
        many.Some? && many.value == few'.value.(audience := many.value.audience)
          && few'.value.audience <= many.value.audience
  {
    SameEngaged(relevant, reactions, few, more);
    assert |few| <= |more| by {
      SubsetSize(few.Keys, more.Keys);
      assert |few| == |few.Keys| && |more| == |more.Keys|;
    }
    AudienceLowersTheBar(|few|, |more|, |Engaged(relevant, reactions, few)|);
    if Exchange(relevant) { EvidenceByAudience(parent, few, more, relevant, reactions); }
  }

  lemma AudienceLowersTheBar(few: nat, many: nat, engaged: nat)
    requires few <= many
    ensures MinimumMessages(many, engaged) <= MinimumMessages(few, engaged)
  {}

  lemma {:induction false} EvidenceByAudience(
      parent: string, few: Live, more: Live, relevant: seq<Message>, reactions: seq<Reaction>)
    requires relevant != [] && Authors(relevant) <= few.Keys
    requires forall k :: k in few ==> k in more && more[k] == few[k]
    requires Engaged(relevant, reactions, few) == Engaged(relevant, reactions, more)
    ensures Authors(relevant) <= more.Keys
    ensures EvidenceOf(parent, more, relevant, reactions) ==
      EvidenceOf(parent, few, relevant, reactions).(audience := |more|)
  {
    SameCohort(Authors(relevant), few, more);
  }

  lemma SameEngaged(relevant: seq<Message>, reactions: seq<Reaction>, few: Live, more: Live)
    requires few.Keys <= more.Keys
    requires forall k, r :: k in more && k !in few && r in reactions ==> r.reactor != k
    ensures Engaged(relevant, reactions, few) == Engaged(relevant, reactions, more)
  {
    forall r | r in reactions ensures Reacts(r, relevant, few) <==> Reacts(r, relevant, more) {}
  }

  lemma SameCohort(authors: set<string>, few: Live, more: Live)
    requires authors <= few.Keys && forall k :: k in few ==> k in more && more[k] == few[k]
    ensures authors <= more.Keys && Cohort(authors, few) == Cohort(authors, more)
  {
    assert forall k :: k in Ascending(authors) ==> k in few;
  }

  /** In every detection the cohort is engaged and the engaged are part of the audience. */
  lemma {:induction false} CohortEngagedAudience(
      parent: string, isRoot: bool, messages: seq<Message>, reactions: seq<Reaction>, participants: seq<Participant>)
    ensures var r := Detect(parent, isRoot, messages, reactions, participants);
      r.Some? ==>
        && 2 <= |r.value.cohort| <= r.value.engaged <= r.value.audience
        && (r.value.messageCount < 6 ==> 2 * r.value.engaged <= r.value.audience)
        && (r.value.endedAt < r.value.startedAt + 20 ==> 8 <= r.value.messageCount)
  {
    var live := LiveOf(participants);
    var relevant := RelevantTo(messages, live);
    EngagedWithinAudience(live, relevant, reactions);
    AscendingSize(Ascending(Authors(relevant)), Authors(relevant));
  }

  // ---- by the numbers ----

  /** Where an author speaks. */
  ghost function Positions(ms: seq<Message>, author: string): set<nat> {
    set i: nat | 0 <= i < |ms| && ms[i].author == author
  }

  /** Where the speaker changes. */
  ghost function Switches(ms: seq<Message>): set<nat> {
    set i: nat | i < |ms| && SwitchAt(ms, i)
  }

  ghost predicate SwitchAt(ms: seq<Message>, i: nat)
    requires i < |ms|
  {
    0 < i && ms[i - 1].author != ms[i].author
  }

  lemma {:induction false} SaidCount(ms: seq<Message>, author: string)
    ensures Said(ms, author) == |Positions(ms, author)|
  {
    if ms == [] {
      assert Positions(ms, author) == {};
    } else {
      var front, n := ms[..|ms| - 1], |ms| - 1;
      SaidCount(front, author);
      var before := Positions(front, author);
      assert n !in before;
      assert Positions(ms, author) == if ms[n].author == author then before + {n} else before;
    }
  }

  lemma {:induction false} OneMoreSwitch(ms: seq<Message>, front: seq<Message>, n: nat)
    requires ms != [] && n == |ms| - 1 && front == ms[..n]
    ensures n !in Switches(front)
    ensures Switches(ms) == if SwitchAt(ms, n) then Switches(front) + {n} else Switches(front)
  {
    assert forall i :: 0 <= i < n ==> front[i] == ms[i];
    assert forall i: nat :: i < n ==> SwitchAt(ms, i) == SwitchAt(front, i);
  }

  lemma {:induction false} AlternationCount(ms: seq<Message>)
    ensures Alternations(ms) == |Switches(ms)|
  {
    if |ms| < 2 {
      assert Switches(ms) == {};
    } else {
      var front, n := ms[..|ms| - 1], |ms| - 1;
      AlternationCount(front);
      OneMoreSwitch(ms, front, n);
      assert |Switches(front) + {n}| == |Switches(front)| + 1;
    }
  }

  /** The authors with two messages or more. */
  ghost function Regulars(ms: seq<Message>): set<string> {
    set m | m in ms && |Positions(ms, m.author)| >= 2 :: m.author
  }

  lemma {:induction false} FrequentCount(ms: seq<Message>)
    ensures Frequent(ms) == Regulars(ms) && Frequent(ms) <= Authors(ms) && |Frequent(ms)| <= |Authors(ms)|
  {
    forall a ensures Said(ms, a) == |Positions(ms, a)| { SaidCount(ms, a); }
    SubsetSize(Frequent(ms), Authors(ms));
  }

  /** The live keys that speak in `ms` or react to one of its messages. */
  ghost function Involved(ms: seq<Message>, reactions: seq<Reaction>, live: Live): set<string> {
    set k | k in live &&
      ((exists m :: m in ms && m.author == k)
       || (exists r, m :: r in reactions && m in ms && r.reactor == k && r.target == m.id))
  }

  lemma {:induction false} EngagedCount(ms: seq<Message>, reactions: seq<Reaction>, live: Live)
    requires Authors(ms) <= live.Keys
    ensures Engaged(ms, reactions, live) == Involved(ms, reactions, live)
  {
    forall k ensures k in Engaged(ms, reactions, live) <==> k in Involved(ms, reactions, live) {
      if m :| m in ms && m.author == k { assert k in Authors(ms); }
    }
  }

  ghost predicate InTimeAndIdOrder(r: seq<Message>) {
    forall i, j :: 0 <= i < j < |r| ==>
      r[i].at < r[j].at || (r[i].at == r[j].at && StrLe(r[i].id, r[j].id))
  }

  lemma {:induction false} FirstAndLast(r: seq<Message>, m: Message)
    requires InTimeAndIdOrder(r) && m in r
    ensures r[0].at <= m.at <= r[|r| - 1].at
  {
    var i :| 0 <= i < |r| && r[i] == m;
  }

  /** The relevant messages are those of substance by live participants, in time-and-id order. */
  lemma {:induction false} RelevantMeans(messages: seq<Message>, participants: seq<Participant>)
    ensures var r := RelevantTo(messages, LiveOf(participants));
      && (forall m :: m in r <==>
            (m in messages && m.substantive && exists p :: p in participants && p.live && p.pubkey == m.author))
      && InTimeAndIdOrder(r)
  {
    var live := LiveOf(participants);
    SelectedCount(messages, live);
    SameElements(RelevantTo(messages, live), Selected(messages, live));
    MsgLeIsOrder();
    SortBySorted(Selected(messages, live), MsgLe);
    forall m: Message ensures m.author in live <==> exists p :: p in participants && p.live && p.pubkey == m.author {
      LiveMeans(participants, m.author);
    }
  }

  /** Two authors with two messages each, three changes of speaker, enough messages and enough time. */
  ghost predicate Qualifies(r: seq<Message>, audience: nat, engaged: nat) {
    && |Regulars(r)| >= 2 && |Switches(r)| >= 3
    && |r| >= (if audience >= engaged + 3 && 2 * engaged <= audience then 4 else 6)
    && (r[|r| - 1].at >= r[0].at + 20 || |r| >= 8)
  }

  lemma {:induction false} JudgeByNumbers(parent: string, live: Live, r: seq<Message>, reactions: seq<Reaction>)
    requires Authors(r) <= live.Keys
    ensures Judge(parent, live, r, reactions).Some? <==> Qualifies(r, |live|, |Involved(r, reactions, live)|)
  {
    FrequentCount(r);
    AlternationCount(r);
    EngagedCount(r, reactions, live);
  }

  /**
    The exact condition for a detection: the channel is a root, two authors have two messages each,
    the speaker changes three times, there are six messages (four where the engaged are a narrow
    share of the audience), and they span twenty seconds or there are eight.
   */
  lemma {:induction false} DetectionByNumbers(
      parent: string, isRoot: bool, messages: seq<Message>, reactions: seq<Reaction>, participants: seq<Participant>)
    ensures var live := LiveOf(participants);
      var r := RelevantTo(messages, live);
      Detect(parent, isRoot, messages, reactions, participants).Some? <==>
        isRoot && Qualifies(r, |live|, |Involved(r, reactions, live)|)
  {
    var live := LiveOf(participants);
    JudgeByNumbers(parent, live, RelevantTo(messages, live), reactions);
  }

  /** What a detection reports about the exchange `r`. */
  ghost predicate Describes(e: Evidence, parent: string, live: Live, r: seq<Message>, reactions: seq<Reaction>) {
    && e.parent == parent && e.audience == |live| && e.engaged == |Involved(r, reactions, live)|
    && e.messageCount == |r| && e.alternations == |Switches(r)| && r != []
    && e.startedAt == r[0].at && e.endedAt == r[|r| - 1].at && e.lastMessageId == r[|r| - 1].id
  }

  lemma {:induction false} JudgeDescribes(parent: string, live: Live, r: seq<Message>, reactions: seq<Reaction>)
    requires Authors(r) <= live.Keys && Judge(parent, live, r, reactions).Some?
    ensures Describes(Judge(parent, live, r, reactions).value, parent, live, r, reactions)
    ensures Judge(parent, live, r, reactions).value.cohort == Cohort(Authors(r), live)
    ensures Judge(parent, live, r, reactions).value.busy == BusyKeys(Cohort(Authors(r), live))
  {
    AlternationCount(r);
    EngagedCount(r, reactions, live);
  }

  /** The evidence counts what was said, and its times are the first and the last. */
  lemma {:induction false} EvidenceSays(
      parent: string, messages: seq<Message>, reactions: seq<Reaction>, participants: seq<Participant>)
    requires Detect(parent, true, messages, reactions, participants).Some?
    ensures var e := Detect(parent, true, messages, reactions, participants).value;
      var live := LiveOf(participants);
      var r := RelevantTo(messages, live);
      && Describes(e, parent, live, r, reactions)
      && forall m :: m in r ==> e.startedAt <= m.at <= e.endedAt
  {
    var live := LiveOf(participants);
    var r := RelevantTo(messages, live);
    JudgeDescribes(parent, live, r, reactions);
    RelevantMeans(messages, participants);
    forall m | m in r ensures r[0].at <= m.at <= r[|r| - 1].at { FirstAndLast(r, m); }
  }

  ghost predicate Speaks(r: seq<Message>, key: string) {
    exists m :: m in r && m.author == key
  }

  ghost predicate Holds(ps: seq<Participant>, key: string) {
    exists p :: p in ps && p.pubkey == key
  }

  /** The cohort is exactly the speakers, in key order, and the busy keys are those of its busy members. */
  lemma {:induction false} CohortSays(
      parent: string, messages: seq<Message>, reactions: seq<Reaction>, participants: seq<Participant>)
    requires Detect(parent, true, messages, reactions, participants).Some?
    ensures var e := Detect(parent, true, messages, reactions, participants).value;
      && LiveInOrder(e.cohort, participants)
      && (forall k :: Holds(e.cohort, k) <==> Speaks(RelevantTo(messages, LiveOf(participants)), k))
      && (forall k :: k in e.busy <==> exists p :: p in e.cohort && p.busy && p.pubkey == k)
  {
    var live := LiveOf(participants);
    var r := RelevantTo(messages, live);
    JudgeDescribes(parent, live, r, reactions);
    CohortMeans(Authors(r), live, participants);
    BusyMeans(Cohort(Authors(r), live));
    forall k ensures k in Authors(r) <==> Speaks(r, k) {}
  }

  /** Live participants, each key once, in ascending order. */
  ghost predicate LiveInOrder(cohort: seq<Participant>, participants: seq<Participant>) {
    && (forall i :: 0 <= i < |cohort| ==> cohort[i] in participants && cohort[i].live)
    && (forall i, j :: 0 <= i < j < |cohort| ==>
          cohort[i].pubkey != cohort[j].pubkey && StrLe(cohort[i].pubkey, cohort[j].pubkey))
  }

  lemma {:induction false} CohortMeans(authors: set<string>, live: Live, participants: seq<Participant>)
    requires live == LiveOf(participants) && authors <= live.Keys
    ensures LiveInOrder(Cohort(authors, live), participants)
    ensures forall k :: Holds(Cohort(authors, live), k) <==> k in authors
  {
    var cohort, keys := Cohort(authors, live), Ascending(authors);
    forall i | 0 <= i < |cohort|
      ensures cohort[i] in participants && cohort[i].live && cohort[i].pubkey == keys[i]
    {
      assert keys[i] in keys;
      LiveMeans(participants, keys[i]);
    }
    forall k | k in authors ensures Holds(cohort, k) {
      assert k in keys;
      var i :| 0 <= i < |keys| && keys[i] == k;
      assert cohort[i] in cohort;
    }
  }

  lemma {:induction false} BusyMeans(cohort: seq<Participant>)
    ensures forall k :: k in BusyKeys(cohort) <==> exists p :: p in cohort && p.busy && p.pubkey == k
  {
    if cohort != [] {
      var front, last := cohort[..|cohort| - 1], cohort[|cohort| - 1];
      assert cohort == front + [last];
      BusyMeans(front);
    }
  }

  /** Of several live entries with one key the last one counts. */
  lemma {:induction false} LastEntryCounts(participants: seq<Participant>, i: nat)
    requires i < |participants| && participants[i].live
    requires forall j :: i < j < |participants| && participants[j].live ==>
      participants[j].pubkey != participants[i].pubkey
    ensures participants[i].pubkey in LiveOf(participants)
    ensures LiveOf(participants)[participants[i].pubkey] == participants[i]
  {
    var front, n := participants[..|participants| - 1], |participants| - 1;
    if i < n {
      assert front[i] == participants[i];
      LastEntryCounts(front, i);
    }
  }
}
