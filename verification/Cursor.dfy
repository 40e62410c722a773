/**
  The awareness cursor (src/state/session_cursor.rs, src/daemon/server/cursor.rs). Any number of
  hooks read a session row and later try to advance its cursor with a compare-and-set; each success
  claims the half-open window from the value it read to its own clock.
 */
module Cursor {
  import opened Orders

  datatype Window = Window(lo: nat, hi: nat)

  predicate Within(w: Window, t: nat) { w.lo < t <= w.hi }

  class Sessions {
    var seenCursor: map<string, nat>

    constructor ()
      ensures seenCursor == map[]
    {
      seenCursor := map[];
    }

    /** One conditional update of the session's row: the cursor moves only if it is still as expected. */
    method AdvanceCursorIfCurrent(pubkey: string, expected: nat, at: nat) returns (advanced: bool)
      modifies this
      ensures advanced <==> pubkey in old(seenCursor) && old(seenCursor)[pubkey] == expected
      ensures seenCursor == if advanced then old(seenCursor)[pubkey := at] else old(seenCursor)
    {
      advanced := pubkey in seenCursor && seenCursor[pubkey] == expected;
      if advanced { seenCursor := seenCursor[pubkey := at]; }
    }

    /** The delta claimed by a hook that read the cursor as `before`, if it wins. */
    method DriveCursorRequest(pubkey: string, before: nat, at: nat, working: bool)
      returns (claimed: Option<nat>)
      modifies this
      ensures (seenCursor, claimed) == Drive(old(seenCursor), pubkey, before, at, working)
      ensures claimed == Some(before) <==>
        working && before < at && pubkey in old(seenCursor) && old(seenCursor)[pubkey] == before
      ensures seenCursor == if claimed.Some? then old(seenCursor)[pubkey := at] else old(seenCursor)
      ensures claimed.Some? ==> claimed.value == before
    {
      if !working || at <= before { return None; }
      var advanced := AdvanceCursorIfCurrent(pubkey, before, at);
      claimed := if advanced then Some(before) else None;
    }
  }

  function Drive(cursors: map<string, nat>, pubkey: string, before: nat, at: nat, working: bool):
    (map<string, nat>, Option<nat>)
  {
    if working && before < at && pubkey in cursors && cursors[pubkey] == before
    then (cursors[pubkey := at], Some(before)) else (cursors, None)
  }

  // ---- hooks that interleave ----

  datatype Step =
    | Register(pubkey: string)
    | Read(hook: nat, pubkey: string)
    | Attempt(hook: nat, at: nat, working: bool)

  /** What a hook still holds is the row it read, however old. */
  datatype State = State(
    cursors: map<string, nat>, held: map<nat, (string, nat)>, claims: seq<(string, Window)>)

  function Next(s: State, step: Step): State {
    match step
    case Register(p) => if p in s.cursors then s else s.(cursors := s.cursors[p := 0])
    case Read(hook, p) => if p in s.cursors then s.(held := s.held[hook := (p, s.cursors[p])]) else s
    case Attempt(hook, at, working) =>
      if hook !in s.held then s else
        var (p, before) := s.held[hook];
        var (cursors, claimed) := Drive(s.cursors, p, before, at, working);
        s.(cursors := cursors,
           claims := if claimed.Some? then s.claims + [(p, Window(claimed.value, at))] else s.claims)
  }

  ghost function Run(steps: seq<Step>): State {
    if steps == [] then State(map[], map[], []) else Next(Run(steps[..|steps| - 1]), steps[|steps| - 1])
  }

  /** The windows claimed for one session, in order. */
  ghost function WindowsOf(claims: seq<(string, Window)>, pubkey: string): seq<Window> {
    if claims == [] then [] else
      var last := claims[|claims| - 1];
      WindowsOf(claims[..|claims| - 1], pubkey) + if last.0 == pubkey then [last.1] else []
  }

  /** Windows that start at `lo`, end at `hi` and leave neither gap nor overlap. */
  ghost predicate Chain(ws: seq<Window>, lo: nat, hi: nat) {
    if ws == [] then lo == hi else
      var last := ws[|ws| - 1];
      last.lo < last.hi == hi && Chain(ws[..|ws| - 1], lo, last.lo)
  }

  lemma WindowsAppend(claims: seq<(string, Window)>, p: string, w: Window, pubkey: string)
    ensures WindowsOf(claims + [(p, w)], pubkey) ==
      if p == pubkey then WindowsOf(claims, pubkey) + [w] else WindowsOf(claims, pubkey)
  {
    assert (claims + [(p, w)])[..|claims|] == claims;
  }

  lemma ChainAppend(ws: seq<Window>, lo: nat, w: Window)
    requires Chain(ws, lo, w.lo) && w.lo < w.hi
    ensures Chain(ws + [w], lo, w.hi)
  {
    assert (ws + [w])[..|ws|] == ws;
  }

  ghost predicate ClaimsChain(s: State, pubkey: string) {
    if pubkey in s.cursors then Chain(WindowsOf(s.claims, pubkey), 0, s.cursors[pubkey])
    else WindowsOf(s.claims, pubkey) == []
  }

  ghost predicate HoldsRegistered(s: State) {
    forall k :: k in s.held ==> s.held[k].0 in s.cursors
  }

  lemma ClaimsChainStep(s: State, step: Step, pubkey: string)
    requires ClaimsChain(s, pubkey) && HoldsRegistered(s)
    ensures ClaimsChain(Next(s, step), pubkey) && HoldsRegistered(Next(s, step))
  {
    if step.Attempt? && step.hook in s.held {
      var (p, before) := s.held[step.hook];
      if Drive(s.cursors, p, before, step.at, step.working).1.Some? {
        var w := Window(before, step.at);
        WindowsAppend(s.claims, p, w, pubkey);
        if p == pubkey { ChainAppend(WindowsOf(s.claims, pubkey), 0, w); }
      }
    }
  }

  /** Whatever the interleaving, the claimed windows of a session are contiguous up to its cursor. */
  lemma {:induction false} ClaimsFormAChain(steps: seq<Step>, pubkey: string)
    ensures ClaimsChain(Run(steps), pubkey) && HoldsRegistered(Run(steps))
  {
    if steps != [] {
      ClaimsFormAChain(steps[..|steps| - 1], pubkey);
      ClaimsChainStep(Run(steps[..|steps| - 1]), steps[|steps| - 1], pubkey);
    }
  }

  /** Every moment of the covered span lies in exactly one window of a chain, and no other does. */
  lemma {:induction false} ChainPartitions(ws: seq<Window>, lo: nat, hi: nat, t: nat)
    requires Chain(ws, lo, hi)
    ensures lo <= hi
    ensures forall i :: 0 <= i < |ws| ==> lo <= ws[i].lo < ws[i].hi <= hi
    ensures lo < t <= hi <==> exists i :: 0 <= i < |ws| && Within(ws[i], t)
    ensures forall i, j :: 0 <= i < |ws| && 0 <= j < |ws| && Within(ws[i], t) && Within(ws[j], t) ==> i == j
  {
    if ws != [] {
      var last, front := ws[|ws| - 1], ws[..|ws| - 1];
      ChainPartitions(front, lo, last.lo, t);
      assert forall i :: 0 <= i < |front| ==> ws[i] == front[i];
      if lo < t <= last.lo {
        var i :| 0 <= i < |front| && Within(front[i], t);
        assert Within(ws[i], t);
      } else if last.lo < t <= hi {
        assert Within(ws[|ws| - 1], t);
      }
    }
  }

  lemma {:induction false} ChainTail(ws: seq<Window>, lo: nat, hi: nat)
    requires Chain(ws, lo, hi) && ws != []
    ensures ws[0].lo == lo && Chain(ws[1..], ws[0].hi, hi)
  {
    if |ws| == 1 {
      assert ws[..0] == [] && ws[1..] == [];
    } else {
      var front := ws[..|ws| - 1];
      ChainTail(front, lo, ws[|ws| - 1].lo);
      assert ws[1..][..|ws| - 2] == front[1..];
    }
  }

  /** A hook that reads a session's row and attempts with a later clock claims what is new. */
  lemma {:induction false} ReadThenClaim(s: State, hook: nat, pubkey: string, at: nat)
    requires pubkey in s.cursors && s.cursors[pubkey] < at
    ensures var t := Next(Next(s, Read(hook, pubkey)), Attempt(hook, at, true));
      && t.cursors == s.cursors[pubkey := at]
      && t.claims == s.claims + [(pubkey, Window(s.cursors[pubkey], at))]
  {}

  /** A hook whose row was advanced since it read it, or that is not working or not later, claims nothing. */
  lemma {:induction false} StaleClaimsNothing(s: State, hook: nat, at: nat, working: bool)
    requires hook in s.held
    requires !working || at <= s.held[hook].1 || s.held[hook].0 !in s.cursors
      || s.cursors[s.held[hook].0] != s.held[hook].1
    ensures Next(s, Attempt(hook, at, working)).cursors == s.cursors
    ensures Next(s, Attempt(hook, at, working)).claims == s.claims
  {}

  /** A new session starts at 0, and registering again does not move its cursor. */
  lemma {:induction false} RegisterMeans(s: State, pubkey: string)
    ensures Next(s, Register(pubkey)).cursors ==
      if pubkey in s.cursors then s.cursors else s.cursors[pubkey := 0]
  {}
}
