/**
  The per-session part of the channel nudge (src/channel_nudge.rs): a busy caller draws a lottery at
  most every ten seconds and holds at most one offer, which lasts two minutes.
 */
module NudgeOffers {
  import opened Orders
  import opened Numbers
  import opened Conversation

  const LOTTERY_COOLDOWN_SECS: nat := 10
  const OFFER_TTL_SECS: nat := 120

  datatype Offer = Offer(evidence: Evidence, offeredAt: u64, expiresAt: u64)

  datatype Session = Session(lastLottery: Option<u64>, offer: Option<Offer>)

  const IDLE: Session := Session(None, None)

  type Sessions = map<string, Session>

  predicate LotteryWins(roll: u64, busy: nat) {
    roll <= U64_MAX / (if busy == 0 then 1 else busy * busy)
  }

  function Of(sessions: Sessions, caller: string): Session {
    if caller in sessions then sessions[caller] else IDLE
  }

  /** The caller holds an offer that has not expired. */
  predicate Pending(s: Session, now: u64) { s.offer.Some? && s.offer.value.expiresAt >= now }

  predicate Cooling(s: Session, now: u64) {
    s.lastLottery.Some? && SaturatingSub(now, s.lastLottery.value) < LOTTERY_COOLDOWN_SECS
  }

  /** The caller gets to draw. */
  predicate Draws(s: Session, caller: string, evidence: Evidence, now: u64) {
    caller in evidence.busy && !Pending(s, now) && !Cooling(s, now)
  }

  function MakeOffer(evidence: Evidence, now: u64): Offer {
    Offer(evidence, now, SaturatingAdd(now, OFFER_TTL_SECS))
  }

  function Considered(s: Session, caller: string, evidence: Evidence, now: u64, roll: u64): Session {
    if caller !in evidence.busy || Pending(s, now) then s
    else if Cooling(s, now) then s.(offer := None)
    else Session(Some(now),
      if LotteryWins(roll, |evidence.busy|) then Some(MakeOffer(evidence, now)) else None)
  }

  function Viewed(s: Session, now: u64): Session {
    if s.offer.Some? && s.offer.value.expiresAt < now then s.(offer := None) else s
  }

  class ChannelNudgeState {
    var sessions: Sessions

    constructor ()
      ensures sessions == map[]
    {
      sessions := map[];
    }

    method Consider(caller: string, evidence: Evidence, now: u64, roll: u64) returns (r: Option<Offer>)
      modifies this
      ensures sessions == Step(old(sessions), Call.Consider(caller, now, evidence, roll))
      ensures r == if Draws(Of(old(sessions), caller), caller, evidence, now) && LotteryWins(roll, |evidence.busy|)
        then Some(MakeOffer(evidence, now)) else None
    {
      if caller !in evidence.busy || evidence.busy == [] { return None; }
      if caller !in sessions { sessions := sessions[caller := IDLE]; }
      var session := sessions[caller];
      if session.offer.Some? && session.offer.value.expiresAt >= now { return None; }
      session := session.(offer := None);
      sessions := sessions[caller := session];
      if session.lastLottery.Some? && SaturatingSub(now, session.lastLottery.value) < LOTTERY_COOLDOWN_SECS {
        return None;
      }
      session := session.(lastLottery := Some(now));
      sessions := sessions[caller := session];
      if !LotteryWins(roll, |evidence.busy|) { return None; }
      var offer := Offer(evidence, now, SaturatingAdd(now, OFFER_TTL_SECS));
      sessions := sessions[caller := session.(offer := Some(offer))];
      r := Some(offer);
    }

    method CurrentOffer(caller: string, now: u64) returns (r: Option<Offer>)
      modifies this
      ensures sessions == Step(old(sessions), Call.Current(caller, now))
      ensures r == if Pending(Of(old(sessions), caller), now) then Of(old(sessions), caller).offer else None
    {
      if caller !in sessions { return None; }
      var session := sessions[caller];
      if session.offer.Some? && session.offer.value.expiresAt < now {
        session := session.(offer := None);
        sessions := sessions[caller := session];
      }
      r := session.offer;
    }

    method ClearOffer(caller: string, ghost now: u64)
      modifies this
      ensures sessions == Step(old(sessions), Call.Clear(caller, now))
    {
      if caller in sessions { sessions := sessions[caller := sessions[caller].(offer := None)]; }
    }
  }

  // ---- runs ----

  datatype Call =
    | Consider(caller: string, now: u64, evidence: Evidence, roll: u64)
    | Current(caller: string, now: u64)
    | Clear(caller: string, now: u64)

  /** The effect of a call on the caller's own session. */
  function Act(s: Session, c: Call): Session {
    match c
    case Consider(caller, now, evidence, roll) => Considered(s, caller, evidence, now, roll)
    case Current(_, now) => Viewed(s, now)
    case Clear(_, _) => s.(offer := None)
  }

  function Step(sessions: Sessions, c: Call): Sessions {
    if c.caller in sessions || (c.Consider? && c.caller in c.evidence.busy)
    then sessions[c.caller := Act(Of(sessions, c.caller), c)] else sessions
  }

  ghost function Run(calls: seq<Call>): Sessions {
    if calls == [] then map[] else Step(Run(calls[..|calls| - 1]), calls[|calls| - 1])
  }

  /** The clock never goes back. */
  ghost predicate InTime(calls: seq<Call>) {
    forall i, j :: 0 <= i < j < |calls| ==> calls[i].now <= calls[j].now
  }

  ghost predicate DrawsAt(calls: seq<Call>, i: nat, caller: string)
    requires i < |calls|
  {
    && calls[i].Consider? && calls[i].caller == caller
    && Draws(Of(Run(calls[..i]), caller), caller, calls[i].evidence, calls[i].now)
  }

  ghost predicate OffersAt(calls: seq<Call>, i: nat, caller: string)
    requires i < |calls|
  {
    DrawsAt(calls, i, caller) && LotteryWins(calls[i].roll, |calls[i].evidence.busy|)
  }

  ghost function CallsOf(calls: seq<Call>, caller: string): seq<Call> {
    if calls == [] then [] else
      CallsOf(calls[..|calls| - 1], caller)
        + if calls[|calls| - 1].caller == caller then [calls[|calls| - 1]] else []
  }

  /** A caller's session is what its own calls made it: callers never affect one another. */
  lemma {:induction false} CallersAreIndependent(calls: seq<Call>, caller: string)
    ensures Of(Run(calls), caller) == Of(Run(CallsOf(calls, caller)), caller)
    ensures caller in Run(calls) <==> caller in Run(CallsOf(calls, caller))
  {
    if calls != [] {
      var front := calls[..|calls| - 1];
      CallersAreIndependent(front, caller);
      var own := CallsOf(calls, caller);
      if calls[|calls| - 1].caller == caller {
        assert own[..|own| - 1] == CallsOf(front, caller);
      } else {
        assert own == CallsOf(front, caller);
      }
    }
  }

  lemma RunStep(calls: seq<Call>, k: nat)
    requires k < |calls|
    ensures Run(calls[..k + 1]) == Step(Run(calls[..k]), calls[k])
  {
    assert calls[..k + 1][..k] == calls[..k];
  }

  /** After a draw the caller's last draw is never earlier than it. */
  lemma {:induction false} LastDrawIsLater(calls: seq<Call>, i: nat, k: nat, caller: string)
    requires InTime(calls) && i < k <= |calls| && DrawsAt(calls, i, caller)
    ensures var s := Of(Run(calls[..k]), caller);
      s.lastLottery.Some? && calls[i].now <= s.lastLottery.value
  {
    RunStep(calls, k - 1);
    if i + 1 < k { LastDrawIsLater(calls, i, k - 1, caller); }
  }

  /** Two draws of one caller are at least ten seconds apart. */
  lemma DrawsAreApart(calls: seq<Call>, i: nat, j: nat, caller: string)
    requires InTime(calls) && i < j < |calls| && DrawsAt(calls, i, caller) && DrawsAt(calls, j, caller)
    ensures calls[i].now + 10 <= calls[j].now
  {
    LastDrawIsLater(calls, i, j, caller);
  }

  /** Until it is cleared or has expired, an offer stays where it was put. */
  lemma {:induction false} OfferStays(calls: seq<Call>, i: nat, k: nat, caller: string)
    requires InTime(calls) && i < k <= |calls| && OffersAt(calls, i, caller)
    requires forall j :: i < j < k && calls[j].Clear? ==> calls[j].caller != caller
    ensures var offer := MakeOffer(calls[i].evidence, calls[i].now);
      Of(Run(calls[..k]), caller).offer == Some(offer) || offer.expiresAt < calls[k - 1].now
  {
    RunStep(calls, k - 1);
    if i + 1 < k { OfferStays(calls, i, k - 1, caller); }
  }

  /** Two offers to one caller with no clear between them are more than two minutes apart. */
  lemma OffersAreApart(calls: seq<Call>, i: nat, j: nat, caller: string)
    requires InTime(calls) && i < j < |calls| && OffersAt(calls, i, caller) && OffersAt(calls, j, caller)
    requires forall k :: i < k < j && calls[k].Clear? ==> calls[k].caller != caller
    ensures calls[i].now + 120 < calls[j].now
  {
    OfferStays(calls, i, j, caller);
  }

  /** A stored offer was made at the caller's last draw, while the caller was busy. */
  lemma {:induction false} StoredOfferIsLastDraw(calls: seq<Call>, caller: string)
    ensures var s := Of(Run(calls), caller);
      s.offer.Some? ==>
        && s.lastLottery == Some(s.offer.value.offeredAt)
        && caller in s.offer.value.evidence.busy
        && s.offer.value == MakeOffer(s.offer.value.evidence, s.offer.value.offeredAt)
  {
    if calls != [] { StoredOfferIsLastDraw(calls[..|calls| - 1], caller); }
  }

  // ---- the lottery ----

  /** With `n` busy participants a roll wins when it lies in the lowest `n * n`-th of the range. */
  lemma WinningRolls(n: nat, roll: u64)
    requires 0 < n
    ensures LotteryWins(roll, n) <==> roll * (n * n) <= 0xFFFF_FFFF_FFFF_FFFF
  {
    var d := n * n;
    assert d > 0 by { if n == 1 {} else { assert n * n >= n; } }
    DivideBound(roll, d);
  }

  lemma DivideBound(x: nat, d: nat)
    requires 0 < d
    ensures x <= U64_MAX / d <==> x * d <= U64_MAX
  {
    var q, r := U64_MAX / d, U64_MAX % d;
    assert U64_MAX == q * d + r && r < d;
    if x <= q {
      assert x * d <= q * d;
    } else {
      assert x * d >= (q + 1) * d == q * d + d;
    }
  }

  // ---- what one call does ----

  /** A busy caller without an unexpired offer draws exactly if its last draw is ten seconds back. */
  lemma {:induction false} DrawsAgain(s: Session, caller: string, evidence: Evidence, now: u64)
    requires caller in evidence.busy && (s.offer.None? || s.offer.value.expiresAt < now)
    ensures Draws(s, caller, evidence, now) <==> s.lastLottery.None? || s.lastLottery.value + 10 <= now
  {}

  /** What is not about the caller stays, whatever the call. */
  lemma {:induction false} OthersStay(sessions: Sessions, c: Call, other: string)
    requires other != c.caller
    ensures other in Step(sessions, c) <==> other in sessions
    ensures Of(Step(sessions, c), other) == Of(sessions, other)
  {}

  /**
    A call to consider: nothing for a caller who is not busy or holds an unexpired offer; within ten
    seconds of the last draw only an expired offer goes; otherwise the draw is recorded, and it
    leaves an offer for 120 seconds exactly if it wins.
   */
  lemma {:induction false} ConsiderMeans(sessions: Sessions, caller: string, evidence: Evidence, now: u64, roll: u64)
    ensures var s, t, n := Of(sessions, caller),
                           Of(Step(sessions, Call.Consider(caller, now, evidence, roll)), caller), |evidence.busy|;
      if caller !in evidence.busy || (s.offer.Some? && now <= s.offer.value.expiresAt) then t == s
      else if s.lastLottery.Some? && now < s.lastLottery.value + 10 then t == Session(s.lastLottery, None)
      else
        && t.lastLottery == Some(now)
        && (t.offer.Some? <==> roll * (n * n) <= 0xFFFF_FFFF_FFFF_FFFF)
        && (t.offer.Some? ==>
             && t.offer.value.evidence == evidence && t.offer.value.offeredAt == now
             && (now + 120 <= 0xFFFF_FFFF_FFFF_FFFF ==> t.offer.value.expiresAt == now + 120)
             && (now + 120 > 0xFFFF_FFFF_FFFF_FFFF ==> t.offer.value.expiresAt == 0xFFFF_FFFF_FFFF_FFFF))
  {
    if caller in evidence.busy { WinningRolls(|evidence.busy|, roll); }
  }

  /** Looking drops exactly an expired offer, clearing drops any; neither touches the last draw. */
  lemma {:induction false} LookAndClearMean(sessions: Sessions, caller: string, now: u64)
    ensures var s, t := Of(sessions, caller), Of(Step(sessions, Call.Current(caller, now)), caller);
      && t.lastLottery == s.lastLottery
      && t.offer == if s.offer.Some? && s.offer.value.expiresAt < now then None else s.offer
    ensures Of(Step(sessions, Call.Clear(caller, now)), caller) == Session(Of(sessions, caller).lastLottery, None)
  {}
}
