/**
  The bounded event de-duplication of the daemon (`DaemonState::first_sight` in
  src/daemon/server.rs): a set and a queue that remember the last 4096 ids let through.
 */
module FirstSight {
  import opened Orders

  datatype EventId = EventId(hex: string)

  const SEEN_EVENTS_CAP: nat := 4096

  /** The newest `cap` ids of a history. */
  function Newest(history: seq<EventId>, cap: nat): seq<EventId> {
    if |history| <= cap then history else history[|history| - cap..]
  }

  class Dedup {
    const cap: nat
    var seen: set<EventId>
    var order: seq<EventId>
    /** Every id that was let through, oldest first. */
    ghost var passed: seq<EventId>

    ghost predicate Valid()
      reads this
    {
      && 0 < cap && order == Newest(passed, cap)
      && NoRepeats(order) && forall id :: id in seen <==> id in order
    }

    constructor ()
      ensures Valid() && passed == [] && cap == 4096
    {
      cap := SEEN_EVENTS_CAP;
      seen, order, passed := {}, [], [];
    }

    method FirstSight(id: EventId) returns (first: bool)
      requires Valid()
      modifies this
      ensures Valid()
      ensures first <==> id !in Newest(old(passed), cap)
      ensures passed == Passed(old(passed), id, cap)
      ensures |order| <= cap
    {
      RecentIsNewest(passed, id, cap);
      if id in seen { return false; }
      passed := passed + [id];
      seen := seen + {id};
      order := order + [id];
      assert NoRepeats(order) && forall x :: x in seen <==> x in order;
      if |order| > cap {
        var oldest := order[0];
        assert oldest !in order[1..];
        assert forall x :: x in order <==> x == oldest || x in order[1..];
        order := order[1..];
        seen := seen - {oldest};
      }
      first := true;
    }
  }

  // ---- runs ----

  /** `id` is among the newest `cap` ids of the history. */
  ghost predicate Recent(history: seq<EventId>, id: EventId, cap: nat) {
    exists k :: 0 <= k < |history| && |history| - k <= cap && history[k] == id
  }

  lemma RecentIsNewest(history: seq<EventId>, id: EventId, cap: nat)
    ensures Recent(history, id, cap) <==> id in Newest(history, cap)
  {
    var newest := Newest(history, cap);
    var start := |history| - |newest|;
    assert forall k :: 0 <= k < |newest| ==> newest[k] == history[start + k];
    if Recent(history, id, cap) {
      var k :| 0 <= k < |history| && |history| - k <= cap && history[k] == id;
      assert newest[k - start] == id;
    }
    if id in newest {
      var k :| 0 <= k < |newest| && newest[k] == id;
      assert history[start + k] == id;
    }
  }

  ghost function Passed(history: seq<EventId>, id: EventId, cap: nat): seq<EventId> {
    if Recent(history, id, cap) then history else history + [id]
  }

  /** Every id let through by the first `k` calls. */
  ghost function Run(ids: seq<EventId>, k: nat, cap: nat): seq<EventId>
    requires k <= |ids|
  {
    if k == 0 then [] else Passed(Run(ids, k - 1, cap), ids[k - 1], cap)
  }

  /** The call for `ids[i]` answers true. */
  ghost predicate FirstAt(ids: seq<EventId>, i: nat, cap: nat)
    requires i < |ids|
  {
    !Recent(Run(ids, i, cap), ids[i], cap)
  }

  /** History only grows. */
  lemma {:induction false} RunGrows(ids: seq<EventId>, j: nat, k: nat, cap: nat)
    requires j <= k <= |ids|
    ensures |Run(ids, j, cap)| <= |Run(ids, k, cap)|
  {
    if j < k { RunGrows(ids, j, k - 1, cap); }
  }

  /** The number of ids let through by calls `j` up to `k`. */
  ghost function LetThrough(ids: seq<EventId>, j: nat, k: nat, cap: nat): nat
    requires j <= k <= |ids|
  {
    RunGrows(ids, j, k, cap);
    |Run(ids, k, cap)| - |Run(ids, j, cap)|
  }

  /** `x` is at position `n` of the history and nowhere after it. */
  ghost predicate LastAt(h: seq<EventId>, n: nat, x: EventId) {
    n < |h| && h[n] == x && forall k :: n < k < |h| ==> h[k] != x
  }

  lemma LastAtStays(h: seq<EventId>, n: nat, x: EventId, id: EventId, cap: nat)
    requires LastAt(h, n, x) && (id == x ==> Recent(h, id, cap))
    ensures LastAt(Passed(h, id, cap), n, x)
  {}

  lemma LastAtStarts(h: seq<EventId>, x: EventId, cap: nat)
    requires !Recent(h, x, cap)
    ensures LastAt(Passed(h, x, cap), |h|, x)
  {}

  /** From one pass of an id to its next it is nowhere else in the history. */
  lemma {:induction false} OnlyOnceSince(ids: seq<EventId>, i: nat, j: nat, cap: nat)
    requires i < j <= |ids| && FirstAt(ids, i, cap)
    requires forall k {:trigger FirstAt(ids, k, cap)} :: i < k < j && ids[k] == ids[i] ==> !FirstAt(ids, k, cap)
    ensures LastAt(Run(ids, j, cap), |Run(ids, i, cap)|, ids[i])
  {
    if i + 1 < j {
      OnlyOnceSince(ids, i, j - 1, cap);
      assert ids[j - 1] == ids[i] ==> !FirstAt(ids, j - 1, cap);
      LastAtStays(Run(ids, j - 1, cap), |Run(ids, i, cap)|, ids[i], ids[j - 1], cap);
    } else {
      LastAtStarts(Run(ids, i, cap), ids[i], cap);
    }
  }

  /**
    An id that was let through at call `i` and not since is let through again at call `j` exactly
    when more than `cap` ids, its own among them, have been let through from `i` on.
   */
  lemma ReadmittedAfterCap(ids: seq<EventId>, i: nat, j: nat, cap: nat)
    requires i < j < |ids| && ids[i] == ids[j] && FirstAt(ids, i, cap)
    requires forall k {:trigger FirstAt(ids, k, cap)} :: i < k < j && ids[k] == ids[i] ==> !FirstAt(ids, k, cap)
    ensures FirstAt(ids, j, cap) <==> cap < LetThrough(ids, i, j, cap)
  {
    OnlyOnceSince(ids, i, j, cap);
    InNewest(Run(ids, j, cap), cap, |Run(ids, i, cap)|);
  }

  /** An element that occurs last at position `n` is among the newest `cap` when it is near the end. */
  lemma InNewest(h: seq<EventId>, cap: nat, n: nat)
    requires n < |h| && LastAt(h, n, h[n])
    ensures Recent(h, h[n], cap) <==> |h| - n <= cap
  {}

  /** With at most `cap` different ids, each is let through exactly at its first occurrence. */
  lemma FewIdsPassOnce(ids: seq<EventId>, i: nat, cap: nat, universe: set<EventId>)
    requires i < |ids| && |universe| <= cap && forall k :: 0 <= k < |ids| ==> ids[k] in universe
    ensures FirstAt(ids, i, cap) <==> forall k :: 0 <= k < i ==> ids[k] != ids[i]
  {
    AllRemembered(ids, i, cap, universe);
    RememberOne(Run(ids, i, cap), ids[i], cap);
  }

  lemma {:induction false} AllRemembered(ids: seq<EventId>, n: nat, cap: nat, universe: set<EventId>)
    requires n <= |ids| && |universe| <= cap && forall k :: 0 <= k < |ids| ==> ids[k] in universe
    ensures |Run(ids, n, cap)| <= cap && NoRepeats(Run(ids, n, cap))
    ensures forall x :: x in Run(ids, n, cap) <==> exists k :: 0 <= k < n && ids[k] == x
  {
    if n != 0 {
      AllRemembered(ids, n - 1, cap, universe);
      RememberOne(Run(ids, n - 1, cap), ids[n - 1], cap);
      NoMoreThan(Run(ids, n, cap), universe);
    }
  }

  lemma RememberOne(h: seq<EventId>, id: EventId, cap: nat)
    requires |h| <= cap && NoRepeats(h)
    ensures NoRepeats(Passed(h, id, cap))
    ensures forall x :: x in Passed(h, id, cap) <==> x in h || x == id
    ensures Recent(h, id, cap) <==> id in h
  {}

  lemma {:induction false} NoMoreThan(h: seq<EventId>, universe: set<EventId>)
    requires NoRepeats(h) && forall x :: x in h ==> x in universe
    ensures |h| <= |universe|
  {
    if h != [] {
      var last, front := h[|h| - 1], h[..|h| - 1];
      assert h == front + [last] && last in h;
      assert forall x :: x in front ==> x in universe - {last};
      NoMoreThan(front, universe - {last});
    }
  }

  // ---- an id that passes twice ----

  /** While the ids are distinct, every one of them is let through. */
  lemma {:induction false} DistinctIdsPass(ids: seq<EventId>, n: nat, cap: nat)
    requires n <= |ids| && NoRepeats(ids[..n])
    ensures Run(ids, n, cap) == ids[..n]
    ensures forall k {:trigger FirstAt(ids, k, cap)} :: 0 <= k < n ==> FirstAt(ids, k, cap)
  {
    if n != 0 {
      assert ids[..n][..n - 1] == ids[..n - 1];
      assert NoRepeats(ids[..n - 1]) by { assert forall i :: 0 <= i < n - 1 ==> ids[..n - 1][i] == ids[..n][i]; }
      DistinctIdsPass(ids, n - 1, cap);
      assert forall i :: 0 <= i < n - 1 ==> ids[..n][i] == ids[..n - 1][i] != ids[n - 1] == ids[..n][n - 1];
      assert FirstAt(ids, n - 1, cap);
    }
  }

  /** `n` distinct ids and then the first of them again. */
  function Lap(n: nat): seq<EventId> {
    seq(n, k requires 0 <= k < n => EventId(seq(k, _ => 'f'))) + [EventId("")]
  }

  /** For every capacity: after one id more than it holds, the first id passes a second time. */
  lemma {:induction false} FirstIdPassesTwice(cap: nat)
    ensures var ids := Lap(cap + 1);
      ids[0] == ids[cap + 1] && FirstAt(ids, 0, cap) && FirstAt(ids, cap + 1, cap)
  {
    var ids, n := Lap(cap + 1), cap + 1;
    forall i, j | 0 <= i < j < n ensures ids[..n][i] != ids[..n][j] {
      assert |ids[i].hex| == i && |ids[j].hex| == j;
    }
    DistinctIdsPass(ids, n, cap);
    assert FirstAt(ids, 0, cap);
    assert ids[0].hex == "";
    forall k | 0 < k < n ensures ids[..n][k] != ids[0] { assert |ids[k].hex| == k; }
  }
}
