/**
  Channel references (src/channel_ref.rs): a channel's reference is found by walking parents for
  at most 32 steps. For a store with complete ancestry the walk spells the path from the root, and
  cutting a reference at its last slash names the parent, exactly when the channel is at most 31
  levels below its root and its own segment has no slash.
 */
module ChannelRefs {
  import opened Orders
  import opened Text
  import opened ChannelForest

  const MAX_CHANNEL_REF_DEPTH: nat := 32

  /** A stored channel; the store is keyed by the channel's group id. */
  datatype Channel = Channel(name: string, parent: string)

  function HumanName(h: string, c: Channel): Option<string> {
    var name := Trim(c.name);
    if name == "" then None
    else if c.parent != "" && name == h then None
    else Some(name)
  }

  /** The path segment that stands for a channel below its root. */
  function Segment(h: string, c: Channel): string {
    match HumanName(h, c) case Some(name) => name case None => h
  }

  /** What the walk needs to know of a channel. */
  datatype Link = Link(segment: string, parent: string)

  type Links = map<string, Link>

  function LinksOf(store: map<string, Channel>): Links {
    map h | h in store :: Link(Segment(h, store[h]), store[h].parent)
  }

  function FormatRef(workspace: string, descendants: seq<string>): string {
    if descendants == [] then "/" + workspace
    else FormatRef(workspace, descendants[..|descendants| - 1]) + "/" + descendants[|descendants| - 1]
  }

  method FormatChannelRef(workspace: string, descendants: seq<string>) returns (reference: string)
    ensures reference == FormatRef(workspace, descendants)
  {
    reference := "/" + workspace;
    for i := 0 to |descendants|
      invariant reference == FormatRef(workspace, descendants[..i])
    {
      assert descendants[..i + 1][..i] == descendants[..i];
      reference := reference + "/" + descendants[i];
    }
    assert descendants[..|descendants|] == descendants;
  }

  function Reversed(s: seq<string>): seq<string> {
    if s == [] then [] else Reversed(s[1..]) + [s[0]]
  }

  method ReverseParts(s: seq<string>) returns (r: seq<string>)
    ensures r == Reversed(s)
  {
    r := [];
    for i := |s| downto 0
      invariant r == Reversed(s[i..])
    {
      assert s[i..][1..] == s[i + 1..];
      r := r + [s[i]];
    }
  }

  datatype Walk = Walk(workspace: string, parts: seq<string>)

  /** What is left of the walk from `cur` when `steps` turns remain. */
  function WalkUp(links: Links, h: string, cur: string, parts: seq<string>, steps: nat): Walk
    decreases steps
  {
    if steps == 0 then Walk(h, parts)
    else if cur !in links then Walk(h, if parts == [] then [] else parts + [cur])
    else if links[cur].parent == "" then Walk(cur, parts)
    else WalkUp(links, h, links[cur].parent, parts + [links[cur].segment], steps - 1)
  }

  /** The reference found with at most `limit` turns. */
  function RefWithin(links: Links, h: string, limit: nat): string {
    var walk := WalkUp(links, h, h, [], limit);
    FormatRef(walk.workspace, Reversed(walk.parts))
  }

  function FullRef(links: Links, h: string): string {
    RefWithin(links, h, MAX_CHANNEL_REF_DEPTH)
  }

  method FullChannelRef(store: map<string, Channel>, h: string) returns (reference: string)
    ensures reference == FullRef(LinksOf(store), h)
  {
    reference := WalkToRoot(store, h, MAX_CHANNEL_REF_DEPTH);
  }

  method WalkToRoot(store: map<string, Channel>, h: string, limit: nat) returns (reference: string)
    ensures reference == RefWithin(LinksOf(store), h, limit)
  {
    var parts: seq<string> := [];
    var cur, workspace := h, h;
    ghost var links := LinksOf(store);
    for i := 0 to limit
      invariant workspace == h
      invariant WalkUp(links, h, h, [], limit) == WalkUp(links, h, cur, parts, limit - i)
    {
      if cur !in store {
        if parts == [] {
          reference := FormatChannelRef(h, []);
          return;
        }
        parts := parts + [cur];
        break;
      }
      var channel := store[cur];
      if channel.parent == "" {
        workspace := cur;
        break;
      }
      assert links[cur] == Link(Segment(cur, channel), channel.parent);
      parts := parts + [Segment(cur, channel)];
      cur := channel.parent;
    }
    var path := ReverseParts(parts);
    reference := FormatChannelRef(workspace, path);
  }

  // ---- stores with complete ancestry ----

  /** `h` is `n` levels below a root, every channel on the way being known. */
  ghost predicate AtLevel(links: Links, h: string, n: nat)
    decreases n
  {
    h in links && if n == 0 then links[h].parent == "" else
      links[h].parent != "" && AtLevel(links, links[h].parent, n - 1)
  }

  predicate Siblings(a: Link, b: Link) {
    a.parent == b.parent && a.parent != ""
  }

  ghost predicate PlainIds(links: Links) {
    forall h :: h in links ==> '/' !in h
  }

  /** Group ids and segments hold no slash, and siblings have different segments. */
  ghost predicate WellNamed(links: Links) {
    && PlainIds(links) && (forall h :: h in links ==> '/' !in links[h].segment)
    && (forall a, b :: a in links && b in links && a != b && Siblings(links[a], links[b]) ==>
          links[a].segment != links[b].segment)
  }

  ghost function RootOf(links: Links, h: string, n: nat): (r: string)
    requires AtLevel(links, h, n)
    ensures r in links && links[r].parent == ""
    decreases n
  {
    if n == 0 then h else RootOf(links, links[h].parent, n - 1)
  }

  /** The segments from just below the root down to `h`. */
  ghost function Path(links: Links, h: string, n: nat): (p: seq<string>)
    requires AtLevel(links, h, n)
    ensures |p| == n
    decreases n
  {
    if n == 0 then [] else Path(links, links[h].parent, n - 1) + [links[h].segment]
  }

  lemma {:induction false} ReversedAppend(s: seq<string>, x: string)
    ensures Reversed(s + [x]) == [x] + Reversed(s)
  {
    if s != [] {
      assert (s + [x])[1..] == s[1..] + [x];
      ReversedAppend(s[1..], x);
    }
  }

  /** With turns to spare the walk stops at the root, having spelled the whole path. */
  lemma {:induction false} WalkReachesRoot(links: Links, h: string, cur: string, parts: seq<string>, steps: nat, n: nat)
    requires AtLevel(links, cur, n) && n < steps
    ensures WalkUp(links, h, cur, parts, steps).workspace == RootOf(links, cur, n)
    ensures Reversed(WalkUp(links, h, cur, parts, steps).parts) == Path(links, cur, n) + Reversed(parts)
    decreases n
  {
    if n != 0 {
      var c := links[cur];
      WalkReachesRoot(links, h, c.parent, parts + [c.segment], steps - 1, n - 1);
      ReversedAppend(parts, c.segment);
      assert Path(links, c.parent, n - 1) + ([c.segment] + Reversed(parts)) ==
        Path(links, cur, n) + Reversed(parts);
    }
  }

  /** Otherwise it keeps only the deepest segments and the channel's own id as workspace. */
  lemma {:induction false} WalkRunsOut(links: Links, h: string, cur: string, parts: seq<string>, steps: nat, n: nat)
    requires AtLevel(links, cur, n) && steps <= n
    ensures WalkUp(links, h, cur, parts, steps).workspace == h
    ensures Reversed(WalkUp(links, h, cur, parts, steps).parts) ==
      Path(links, cur, n)[n - steps..] + Reversed(parts)
    decreases steps
  {
    if steps != 0 {
      var c := links[cur];
      WalkRunsOut(links, h, c.parent, parts + [c.segment], steps - 1, n - 1);
      ReversedAppend(parts, c.segment);
      var above := Path(links, c.parent, n - 1);
      assert Path(links, cur, n)[n - steps..] == above[n - steps..] + [c.segment];
      assert above[n - steps..] + ([c.segment] + Reversed(parts)) ==
        Path(links, cur, n)[n - steps..] + Reversed(parts);
    }
  }

  lemma RefSpells(links: Links, h: string, n: nat, limit: nat)
    requires AtLevel(links, h, n)
    ensures RefWithin(links, h, limit) ==
      if n < limit then FormatRef(RootOf(links, h, n), Path(links, h, n))
      else FormatRef(h, Path(links, h, n)[n - limit..])
  {
    var p := Path(links, h, n);
    if n < limit {
      WalkReachesRoot(links, h, h, [], limit, n);
      assert p + Reversed([]) == p;
    } else {
      WalkRunsOut(links, h, h, [], limit, n);
      assert p[n - limit..] + Reversed([]) == p[n - limit..];
    }
  }

  ghost predicate SlashFree(parts: seq<string>) {
    forall i :: 0 <= i < |parts| ==> '/' !in parts[i]
  }

  lemma {:induction false} PathSlashFree(links: Links, h: string, n: nat)
    requires WellNamed(links) && AtLevel(links, h, n)
    ensures SlashFree(Path(links, h, n))
    decreases n
  {
    if n != 0 { PathSlashFree(links, links[h].parent, n - 1); }
  }

  lemma {:induction false} FormatDepth(workspace: string, parts: seq<string>)
    requires '/' !in workspace && SlashFree(parts)
    ensures Depth(FormatRef(workspace, parts)) == 1 + |parts|
  {
    if parts == [] {
      DepthSlashFree(workspace);
      DepthConcat("/", workspace);
    } else {
      var front, last := parts[..|parts| - 1], parts[|parts| - 1];
      FormatDepth(workspace, front);
      DepthSlashFree(last);
      DepthConcat("/", last);
      DepthConcat(FormatRef(workspace, front), "/" + last);
      assert FormatRef(workspace, parts) == FormatRef(workspace, front) + ("/" + last);
    }
  }

  lemma {:induction false} FormatWorkspace(a: string, b: string, parts: seq<string>)
    requires FormatRef(a, parts) == FormatRef(b, parts)
    ensures a == b
  {
    if parts == [] {
      assert a == ("/" + a)[1..] && b == ("/" + b)[1..];
    } else {
      var front, tail := parts[..|parts| - 1], "/" + parts[|parts| - 1];
      assert FormatRef(a, parts) == FormatRef(a, front) + tail;
      assert FormatRef(b, parts) == FormatRef(b, front) + tail;
      assert |FormatRef(a, front)| == |FormatRef(b, front)|;
      assert FormatRef(a, front) == (FormatRef(a, front) + tail)[..|FormatRef(a, front)|];
      FormatWorkspace(a, b, front);
    }
  }

  lemma {:induction false} FormatAppend(workspace: string, parts: seq<string>, segment: string)
    ensures FormatRef(workspace, parts + [segment]) == FormatRef(workspace, parts) + "/" + segment
  {
    var longer := parts + [segment];
    assert longer[..|longer| - 1] == parts;
  }

  /** The whole path from the root, written as a reference. */
  ghost function Spelled(links: Links, h: string, n: nat): string
    requires AtLevel(links, h, n)
  {
    FormatRef(RootOf(links, h, n), Path(links, h, n))
  }

  lemma {:induction false} PathExtends(links: Links, h: string, n: nat)
    requires AtLevel(links, h, n) && 0 < n
    ensures Spelled(links, h, n) == Spelled(links, links[h].parent, n - 1) + "/" + links[h].segment
  {
    FormatAppend(RootOf(links, h, n), Path(links, links[h].parent, n - 1), links[h].segment);
  }

  /** Within the limit a reference is its parent's reference extended by one segment. */
  lemma {:induction false} RefExtends(links: Links, h: string, n: nat, limit: nat)
    requires AtLevel(links, h, n) && 0 < n < limit
    ensures RefWithin(links, h, limit) == RefWithin(links, links[h].parent, limit) + "/" + links[h].segment
  {
    var p := links[h].parent;
    var whole, upper := Spelled(links, h, n), Spelled(links, p, n - 1);
    assert RefWithin(links, h, limit) == whole by { RefSpells(links, h, n, limit); }
    assert RefWithin(links, p, limit) == upper by { RefSpells(links, p, n - 1, limit); }
    assert whole == upper + "/" + links[h].segment by { PathExtends(links, h, n); }
  }

  /** Past the limit it starts at the channel's own id. */
  lemma {:induction false} RefOverflows(links: Links, h: string, n: nat, limit: nat)
    requires AtLevel(links, h, n) && 0 < limit <= n
    ensures RefWithin(links, h, limit) ==
      FormatRef(h, Path(links, links[h].parent, n - 1)[n - limit..]) + "/" + links[h].segment
  {
    RefSpells(links, h, n, limit);
    var above, segment := Path(links, links[h].parent, n - 1), links[h].segment;
    assert Path(links, h, n)[n - limit..] == above[n - limit..] + [segment];
    FormatAppend(h, above[n - limit..], segment);
  }

  // ---- the first component of a reference ----

  /** The reference `s` is `w`, or goes on below it. */
  predicate StartsAt(s: string, w: string) {
    |w| < |s| && s[..|w| + 1] == "/" + w && (|s| == |w| + 1 || s[|w| + 1] == '/')
  }

  lemma {:induction false} FormatStarts(workspace: string, parts: seq<string>)
    ensures StartsAt(FormatRef(workspace, parts), workspace)
  {
    if parts != [] {
      var front, tail := FormatRef(workspace, parts[..|parts| - 1]), "/" + parts[|parts| - 1];
      FormatStarts(workspace, parts[..|parts| - 1]);
      assert FormatRef(workspace, parts) == front + tail;
      assert (front + tail)[..|workspace| + 1] == front[..|workspace| + 1];
    }
  }

  lemma SameStart(s: string, a: string, b: string)
    requires StartsAt(s, a) && StartsAt(s, b) && '/' !in a && '/' !in b
    ensures a == b
  {
    assert s[..|a| + 1][1..] == a && s[..|b| + 1][1..] == b;
    assert forall i :: 0 <= i < |a| ==> a[i] == s[i + 1];
    assert forall i :: 0 <= i < |b| ==> b[i] == s[i + 1];
  }

  lemma PrefixStarts(s: string, v: string, w: string)
    requires StartsAt(s, w) && v <= s && |w| < |v|
    ensures StartsAt(v, w)
  {
    assert v[..|w| + 1] == s[..|w| + 1];
  }

  /** Cutting an extended reference gives it back exactly if the extension has no slash of its own. */
  lemma {:induction false} CutOfExtension(x: string, segment: string)
    ensures var cut := ParentRef(x + "/" + segment);
      && cut.Some? && x <= cut.value <= x + "/" + segment
      && (cut.value == x <==> '/' !in segment)
  {
    var id := x + "/" + segment;
    assert id[|x|] == '/' && id[|x| + 1..] == segment;
    var cut := ParentRef(id).value;
    assert forall i :: |cut| < i < |id| ==> id[i] in id[|cut| + 1..];
    assert cut == id[..|cut|] && x == id[..|x|];
    if '/' !in segment { ParentOfExtension(x, segment); }
  }

  /** The component with which the reference of `h` starts. */
  ghost function Head(links: Links, h: string, n: nat, limit: nat): string
    requires AtLevel(links, h, n)
  {
    if n < limit then RootOf(links, h, n) else h
  }

  lemma {:induction false} RefStarts(links: Links, h: string, n: nat, limit: nat)
    requires AtLevel(links, h, n)
    ensures StartsAt(RefWithin(links, h, limit), Head(links, h, n, limit))
  {
    RefSpells(links, h, n, limit);
    if n < limit {
      FormatStarts(RootOf(links, h, n), Path(links, h, n));
    } else {
      FormatStarts(h, Path(links, h, n)[n - limit..]);
    }
  }

  // ---- cutting a reference ----

  lemma {:induction false} DeepCutStarts(links: Links, h: string, n: nat, limit: nat)
    requires AtLevel(links, h, n) && 0 < limit <= n
    ensures ParentRef(RefWithin(links, h, limit)).Some?
    ensures StartsAt(ParentRef(RefWithin(links, h, limit)).value, h)
  {
    var x := FormatRef(h, Path(links, links[h].parent, n - 1)[n - limit..]);
    RefOverflows(links, h, n, limit);
    CutOfExtension(x, links[h].segment);
    FormatStarts(h, Path(links, links[h].parent, n - 1)[n - limit..]);
    RefStarts(links, h, n, limit);
    PrefixStarts(RefWithin(links, h, limit), ParentRef(RefWithin(links, h, limit)).value, h);
  }

  /** At or past the limit the cut is no channel's reference at all. */
  lemma {:induction false} DeepCutNamesNobody(links: Links, h: string, n: nat, x: string, m: nat, limit: nat)
    requires PlainIds(links) && AtLevel(links, h, n) && 0 < limit <= n && AtLevel(links, x, m)
    ensures ParentRef(RefWithin(links, h, limit)) != Some(RefWithin(links, x, limit))
  {
    DeepCutStarts(links, h, n, limit);
    RefStarts(links, x, m, limit);
    if ParentRef(RefWithin(links, h, limit)) == Some(RefWithin(links, x, limit)) {
      SameStart(RefWithin(links, x, limit), h, Head(links, x, m, limit));
    }
  }

  /**
    Cutting a reference at its last slash names the parent exactly if the channel is below the
    limit and its own segment has no slash.
   */
  lemma {:induction false} CutNamesParent(links: Links, h: string, n: nat, limit: nat)
    requires PlainIds(links) && AtLevel(links, h, n) && 0 < n && 0 < limit
    ensures ParentRef(RefWithin(links, h, limit)) == Some(RefWithin(links, links[h].parent, limit))
      <==> n < limit && '/' !in links[h].segment
  {
    if n < limit {
      RefExtends(links, h, n, limit);
      CutOfExtension(RefWithin(links, links[h].parent, limit), links[h].segment);
    } else {
      DeepCutNamesNobody(links, h, n, links[h].parent, n - 1, limit);
    }
  }

  /** The walk of the source makes 32 turns, so the cut names the parent up to level 31. */
  lemma FullRefCutNamesParent(links: Links, h: string, n: nat)
    requires PlainIds(links) && AtLevel(links, h, n) && 0 < n
    ensures ParentRef(FullRef(links, h)) == Some(FullRef(links, links[h].parent))
      <==> n <= 31 && '/' !in links[h].segment
  {
    CutNamesParent(links, h, n, MAX_CHANNEL_REF_DEPTH);
  }

  // ---- different channels, different references ----

  lemma {:induction false} LevelIsDepth(links: Links, h: string, n: nat, limit: nat)
    requires WellNamed(links) && AtLevel(links, h, n) && n < limit
    ensures Depth(RefWithin(links, h, limit)) == n + 1
  {
    RefSpells(links, h, n, limit);
    PathSlashFree(links, h, n);
    FormatDepth(RootOf(links, h, n), Path(links, h, n));
  }

  /** Different channels have different references, at every level. */
  lemma {:induction false} RefInjective(links: Links, a: string, n: nat, b: string, m: nat, limit: nat)
    requires WellNamed(links) && AtLevel(links, a, n) && AtLevel(links, b, m) && 0 < limit
    requires RefWithin(links, a, limit) == RefWithin(links, b, limit)
    ensures a == b
  {
    if n < limit && m < limit {
      ShallowInjective(links, a, n, b, m, limit);
    } else {
      RefStarts(links, a, n, limit);
      RefStarts(links, b, m, limit);
      SameStart(RefWithin(links, a, limit), Head(links, a, n, limit), Head(links, b, m, limit));
    }
  }

  lemma {:induction false} ShallowInjective(links: Links, a: string, n: nat, b: string, m: nat, limit: nat)
    requires WellNamed(links) && AtLevel(links, a, n) && AtLevel(links, b, m)
    requires n < limit && m < limit
    requires RefWithin(links, a, limit) == RefWithin(links, b, limit)
    ensures a == b
    decreases n
  {
    LevelIsDepth(links, a, n, limit);
    LevelIsDepth(links, b, m, limit);
    if n == 0 {
      RefSpells(links, a, n, limit);
      RefSpells(links, b, m, limit);
      FormatWorkspace(a, b, []);
    } else {
      CutNamesParent(links, a, n, limit);
      CutNamesParent(links, b, m, limit);
      ShallowInjective(links, links[a].parent, n - 1, links[b].parent, m - 1, limit);
      RefExtends(links, a, n, limit);
      RefExtends(links, b, m, limit);
      SameTail(RefWithin(links, links[a].parent, limit) + "/", links[a].segment, links[b].segment);
    }
  }

  lemma SameTail(front: string, x: string, y: string)
    requires front + x == front + y
    ensures x == y
  {
    assert x == (front + x)[|front|..] && y == (front + y)[|front|..];
  }

  // ---- arranging the references of a store ----

  /** Every channel of `hs` has complete ancestry. */
  ghost predicate Rooted(links: Links, hs: set<string>) {
    forall h :: h in hs ==> exists n: nat :: AtLevel(links, h, n)
  }

  ghost predicate Shallow(links: Links, h: string, limit: nat) {
    exists n: nat :: AtLevel(links, h, n) && n < limit
  }

  lemma {:induction false} LevelUnique(links: Links, h: string, n: nat, m: nat)
    requires AtLevel(links, h, n) && AtLevel(links, h, m)
    ensures n == m
    decreases n
  {
    if n != 0 && m != 0 { LevelUnique(links, links[h].parent, n - 1, m - 1); }
  }

  ghost function RefsOf(links: Links, hs: set<string>, limit: nat): set<string> {
    set h | h in hs :: RefWithin(links, h, limit)
  }

  /** `h` is a channel of `hs` below `p`, and not too deep for its reference to say so. */
  ghost predicate NestsUnder(links: Links, hs: set<string>, h: string, p: string, limit: nat)
    requires Rooted(links, hs)
  {
    h in hs && links[h].parent == p && p != "" && Shallow(links, h, limit)
  }

  lemma {:induction false} ChildIffParent(
      links: Links, hs: set<string>, root: string, h: string, p: string, limit: nat)
    requires WellNamed(links) && Rooted(links, hs) && h in hs && p in hs && Depth(root) == 1 && 0 < limit
    ensures RefWithin(links, h, limit) != root
        && ParentRef(RefWithin(links, h, limit)) == Some(RefWithin(links, p, limit))
      <==> NestsUnder(links, hs, h, p, limit)
  {
    var n: nat :| AtLevel(links, h, n);
    var m: nat :| AtLevel(links, p, m);
    if n == 0 {
      RefSpells(links, h, n, limit);
      CutOfExtension("", h);
      RefStarts(links, p, m, limit);
    } else if n < limit {
      ShallowChild(links, root, h, n, p, m, limit);
    } else {
      DeepCutNamesNobody(links, h, n, p, m, limit);
      if Shallow(links, h, limit) {
        var k: nat :| AtLevel(links, h, k) && k < limit;
        LevelUnique(links, h, n, k);
      }
    }
  }

  lemma {:induction false} ShallowChild(
      links: Links, root: string, h: string, n: nat, p: string, m: nat, limit: nat)
    requires WellNamed(links) && AtLevel(links, h, n) && 0 < n < limit
    requires AtLevel(links, p, m) && Depth(root) == 1
    ensures RefWithin(links, h, limit) != root
    ensures ParentRef(RefWithin(links, h, limit)) == Some(RefWithin(links, p, limit)) <==> links[h].parent == p
  {
    LevelIsDepth(links, h, n, limit);
    CutNamesParent(links, h, n, limit);
    if RefWithin(links, links[h].parent, limit) == RefWithin(links, p, limit) {
      RefInjective(links, links[h].parent, n - 1, p, m, limit);
    }
  }

  /** Below the reference of `p` hang exactly the references of its channels in `hs` that are not too deep. */
  lemma KidsAreChildren(
      links: Links, hs: set<string>, rows: Rows, workspace: string, p: string, limit: nat)
    requires WellNamed(links) && Rooted(links, hs) && rows.Keys == RefsOf(links, hs, limit)
    requires p in hs && '/' !in workspace && 0 < limit
    ensures Kids(rows, RootRef(workspace), RefWithin(links, p, limit)) ==
      set h | h in hs && NestsUnder(links, hs, h, p, limit) :: RefWithin(links, h, limit)
  {
    var root := RootRef(workspace);
    FormatDepth(workspace, []);
    forall h | h in hs
      ensures RefWithin(links, h, limit) in Kids(rows, root, RefWithin(links, p, limit))
        <==> NestsUnder(links, hs, h, p, limit)
    {
      ChildIffParent(links, hs, root, h, p, limit);
    }
  }

  /**
    Arranging one block per channel of any set `hs` with complete ancestry rebuilds the store's
    parent relation below the limit: the tree at a channel's reference has exactly its children of
    `hs` that are not too deep below it, in ascending order, and the channel itself hangs below
    another exactly when it is not too deep and its parent is in `hs`.
   */
  lemma {:induction false} ForestRebuildsStore(
      links: Links, hs: set<string>, rows: Rows, workspace: string, h: string, limit: nat)
    requires WellNamed(links) && Rooted(links, hs) && rows.Keys == RefsOf(links, hs, limit)
    requires h in hs && '/' !in workspace && 0 < limit
    ensures var kids := set c | c in hs && NestsUnder(links, hs, c, h, limit) :: RefWithin(links, c, limit);
      && (forall k :: k in Ascending(kids) ==> k in rows)
      && Nest(rows, RootRef(workspace), RefWithin(links, h, limit)).children ==
           NestAll(rows, RootRef(workspace), Ascending(kids))
    ensures Attached(rows, RootRef(workspace), RefWithin(links, h, limit)) <==>
      links[h].parent in hs && NestsUnder(links, hs, h, links[h].parent, limit)
  {
    KidsAreChildren(links, hs, rows, workspace, h, limit);
    NestUnfolds(rows, RootRef(workspace), RefWithin(links, h, limit));
    FormatDepth(workspace, []);
    AttachedIffParent(links, hs, rows, RootRef(workspace), h, limit);
  }

  lemma {:induction false} AttachedIffParent(
      links: Links, hs: set<string>, rows: Rows, root: string, h: string, limit: nat)
    requires WellNamed(links) && Rooted(links, hs) && rows.Keys == RefsOf(links, hs, limit)
    requires h in hs && Depth(root) == 1 && 0 < limit
    ensures Attached(rows, root, RefWithin(links, h, limit)) <==>
      links[h].parent in hs && NestsUnder(links, hs, h, links[h].parent, limit)
  {
    var ref := RefWithin(links, h, limit);
    if links[h].parent in hs { ChildIffParent(links, hs, root, h, links[h].parent, limit); }
    if Attached(rows, root, ref) {
      var p :| p in hs && RefWithin(links, p, limit) == ParentRef(ref).value;
      ChildIffParent(links, hs, root, h, p, limit);
    }
  }

  /**
    The root of the arranged forest is the workspace's own channel: if that channel is a root of the
    store and in the set, its block is the forest's root and is not at the top level.
   */
  lemma {:induction false} WorkspaceIsRoot(links: Links, hs: set<string>, rows: Rows, workspace: string, limit: nat)
    requires rows.Keys == RefsOf(links, hs, limit) && 0 < limit
    requires workspace in hs && workspace in links && links[workspace].parent == ""
    ensures var f := ForestOf(rows, RootRef(workspace));
      && f.root.Some? && f.root.value.id == FormatRef(workspace, []) == RefWithin(links, workspace, limit)
      && forall b :: b in f.top ==> b.id != FormatRef(workspace, [])
  {
    var f := ForestOf(rows, RootRef(workspace));
    assert AtLevel(links, workspace, 0);
    RefSpells(links, workspace, 0, limit);
    assert FormatRef(workspace, []) in rows;
    forall b | b in f.top ensures b.id != FormatRef(workspace, []) {
      var tops := Ascending(Tops(rows, RootRef(workspace)));
      var i :| 0 <= i < |f.top| && f.top[i] == b;
      assert tops[i] in Tops(rows, RootRef(workspace));
    }
  }

  // ---- channels without complete ancestry ----

  /** The `n` channels from `h` upwards are known and none is a root. */
  ghost predicate Up(links: Links, h: string, n: nat)
    decreases n
  {
    n == 0 || (h in links && links[h].parent != "" && Up(links, links[h].parent, n - 1))
  }

  ghost function Ancestor(links: Links, h: string, n: nat): string
    requires Up(links, h, n)
    decreases n
  {
    if n == 0 then h else Ancestor(links, links[h].parent, n - 1)
  }

  ghost predicate OrphanAt(links: Links, h: string, k: nat) {
    Up(links, h, k) && Ancestor(links, h, k) !in links
  }

  ghost predicate Orphaned(links: Links, h: string, limit: nat) {
    exists k: nat :: OrphanAt(links, h, k) && k < limit
  }

  /** Their segments, topmost first. */
  ghost function Segments(links: Links, h: string, n: nat): seq<string>
    requires Up(links, h, n)
    decreases n
  {
    if n == 0 then [] else Segments(links, links[h].parent, n - 1) + [links[h].segment]
  }

  /** After `n` turns the walk stands at the ancestor, having collected the segments on the way. */
  lemma {:induction false} WalkClimbs(links: Links, h: string, cur: string, parts: seq<string>, steps: nat, n: nat)
    returns (longer: seq<string>)
    requires Up(links, cur, n) && n <= steps
    ensures WalkUp(links, h, cur, parts, steps) == WalkUp(links, h, Ancestor(links, cur, n), longer, steps - n)
    ensures |longer| == |parts| + n && Reversed(longer) == Segments(links, cur, n) + Reversed(parts)
    decreases n
  {
    if n == 0 {
      longer := parts;
      assert [] + Reversed(parts) == Reversed(parts);
    } else {
      var c := links[cur];
      longer := WalkClimbs(links, h, c.parent, parts + [c.segment], steps - 1, n - 1);
      ReversedAppend(parts, c.segment);
      var above := Segments(links, c.parent, n - 1);
      assert above + ([c.segment] + Reversed(parts)) == above + [c.segment] + Reversed(parts);
    }
  }

  /**
    A channel whose ancestor `k` levels up is not in the store: by itself it is its own workspace;
    below that, its reference starts at its own id and goes on with the missing ancestor's id.
   */
  lemma {:induction false} RefOfOrphan(links: Links, h: string, k: nat, limit: nat)
    requires OrphanAt(links, h, k) && k < limit
    ensures RefWithin(links, h, limit) ==
      if k == 0 then "/" + h else FormatRef(h, [Ancestor(links, h, k)] + Segments(links, h, k))
  {
    var longer := WalkClimbs(links, h, h, [], limit, k);
    var segments := Segments(links, h, k);
    assert Reversed([]) == [] && segments + [] == segments;
    if k != 0 { ReversedAppend(longer, Ancestor(links, h, k)); }
  }

  /** A channel with at least `limit` ancestors on record, cyclic ones included. */
  lemma {:induction false} RefOfDeep(links: Links, h: string, limit: nat)
    requires Up(links, h, limit)
    ensures RefWithin(links, h, limit) == FormatRef(h, Segments(links, h, limit))
  {
    var longer := WalkClimbs(links, h, h, [], limit, limit);
    var segments := Segments(links, h, limit);
    assert Reversed([]) == [] && segments + [] == segments;
  }

  /** These cases and complete ancestry below the bound are all there are. */
  lemma {:induction false} RefCases(links: Links, h: string, limit: nat)
    ensures Up(links, h, limit) || Orphaned(links, h, limit) || Shallow(links, h, limit)
    decreases limit
  {
    if limit != 0 {
      if h !in links {
        assert OrphanAt(links, h, 0);
      } else if links[h].parent == "" {
        assert AtLevel(links, h, 0);
      } else {
        var p := links[h].parent;
        RefCases(links, p, limit - 1);
        if Orphaned(links, p, limit - 1) {
          var k: nat :| OrphanAt(links, p, k) && k < limit - 1;
          assert OrphanAt(links, h, k + 1);
        }
        if Shallow(links, p, limit - 1) {
          var n: nat :| AtLevel(links, p, n) && n < limit - 1;
          assert AtLevel(links, h, n + 1);
        }
      }
    }
  }

  // ---- a channel whose name has a slash ----

  /** Whenever a segment has a slash, the cut does not name the parent, at any level. */
  lemma {:induction false} SlashedSegmentIsMisread(links: Links, h: string, n: nat, limit: nat)
    requires PlainIds(links) && AtLevel(links, h, n) && 0 < n && 0 < limit && '/' in links[h].segment
    ensures ParentRef(RefWithin(links, h, limit)) != Some(RefWithin(links, links[h].parent, limit))
  {
    CutNamesParent(links, h, n, limit);
  }

  /** A root `w` with one channel `c` below it. */
  function OneBelow(w: string, c: string, name: string): map<string, Channel> {
    map[w := Channel("", ""), c := Channel(name, w)]
  }

  /** Text whose first and last characters are visible. */
  predicate VisibleEnds(name: string) {
    name != [] && !IsWhitespace(name[0] as int) && !IsWhitespace(name[|name| - 1] as int)
  }

  /** A channel's segment is its trimmed name, or its id where that is empty. */
  lemma {:induction false} SegmentMeans(h: string, c: Channel)
    ensures Segment(h, c) == if Trim(c.name) == "" then h else Trim(c.name)
  {}

  lemma {:induction false} SegmentIsName(h: string, c: Channel)
    requires VisibleEnds(c.name) && c.name != h
    ensures Segment(h, c) == c.name
  {
    var i, j := TrimMeans(c.name);
    assert i == 0 && j == |c.name|;
  }

  lemma {:induction false} OneBelowLinks(w: string, c: string, name: string)
    requires w != c && VisibleEnds(name) && c != name
    ensures LinksOf(OneBelow(w, c, name)) == map[w := Link(w, ""), c := Link(name, w)]
  {
    SegmentIsName(c, Channel(name, w));
    assert Segment(w, Channel("", "")) == w;
  }

  lemma {:induction false} OneBelowLevel(links: Links, w: string, c: string)
    requires links.Keys == {w, c} && links[w].parent == "" && links[c].parent == w != ""
    requires '/' !in w && '/' !in c
    ensures PlainIds(links) && AtLevel(links, c, 1)
  {
    assert AtLevel(links, w, 0);
  }

  /** A store has such a channel as soon as one name has a slash, as `a/b` does. */
  lemma {:induction false} SlashedNameIsStored(w: string, c: string, name: string)
    requires w != c && w != "" && '/' !in w && '/' !in c && VisibleEnds(name) && '/' in name
    ensures var links := LinksOf(OneBelow(w, c, name));
      PlainIds(links) && AtLevel(links, c, 1) && links[c] == Link(name, w)
  {
    OneBelowLinks(w, c, name);
    OneBelowLevel(LinksOf(OneBelow(w, c, name)), w, c);
  }

  /** Its reference ends in two segments, and the cut does not name the parent. */
  lemma {:induction false} SlashedNameIsMisread(w: string, c: string, name: string, limit: nat)
    requires w != c && w != "" && '/' !in w && '/' !in c && VisibleEnds(name) && '/' in name && 0 < limit
    ensures var links := LinksOf(OneBelow(w, c, name));
      ParentRef(RefWithin(links, c, limit)) != Some(RefWithin(links, w, limit))
  {
    SlashedNameIsStored(w, c, name);
    SlashedSegmentIsMisread(LinksOf(OneBelow(w, c, name)), c, 1, limit);
  }

  // ---- a channel that is too deep ----

  /** The channel at level `k` of a straight chain: `k + 1` letters. */
  function Rung(k: nat): (h: string)
    ensures |h| == k + 1 && '/' !in h
  {
    if k == 0 then "a" else Rung(k - 1) + "a"
  }

  function Above(k: nat): string {
    if k == 0 then "" else Rung(k - 1)
  }

  /** A chain of `n` channels below one root, none with a name of its own. */
  function Ladder(n: nat): map<string, Channel> {
    if n == 0 then map[Rung(0) := Channel("", "")]
    else Ladder(n - 1)[Rung(n) := Channel("", Rung(n - 1))]
  }

  lemma {:induction false} LadderNames(n: nat, h: string)
    requires h in Ladder(n)
    ensures '/' !in h && Segment(h, Ladder(n)[h]) == h
  {
    if n != 0 && h != Rung(n) { LadderNames(n - 1, h); }
  }

  lemma {:induction false} RungParent(n: nat, k: nat)
    requires k <= n
    ensures Rung(k) in Ladder(n) && Ladder(n)[Rung(k)].parent == Above(k)
  {
    if k < n {
      assert |Rung(k)| != |Rung(n)|;
      RungParent(n - 1, k);
    }
  }

  /** Every rung up to `n` is known and hangs below the one before it. */
  ghost predicate Climbs(links: Links, n: nat) {
    forall k :: 0 <= k <= n ==> Rung(k) in links && links[Rung(k)].parent == Above(k)
  }

  lemma {:induction false} LadderClimbs(n: nat)
    ensures Climbs(LinksOf(Ladder(n)), n)
  {
    forall k | 0 <= k <= n
      ensures Rung(k) in LinksOf(Ladder(n)) && LinksOf(Ladder(n))[Rung(k)].parent == Above(k)
    {
      RungParent(n, k);
    }
  }

  lemma {:induction false} RungLevel(links: Links, n: nat, k: nat)
    requires Climbs(links, n) && k <= n
    ensures AtLevel(links, Rung(k), k)
    decreases k
  {
    if k != 0 {
      RungLevel(links, n, k - 1);
      assert links[Rung(k)].parent == Above(k) == Rung(k - 1);
    }
  }

  /** In every well-named chain of 32 or more levels the deepest reference does not name its parent. */
  lemma {:induction false} TooDeepIsMisnamed(n: nat)
    requires 32 <= n
    ensures var links, h := LinksOf(Ladder(n)), Rung(n);
      && WellNamed(links) && AtLevel(links, h, n) && links[h].parent == Rung(n - 1)
      && ParentRef(FullRef(links, h)) != Some(FullRef(links, Rung(n - 1)))
  {
    var links := LinksOf(Ladder(n));
    forall h | h in links ensures links[h].segment == h && '/' !in h { LadderNames(n, h); }
    LadderClimbs(n);
    RungLevel(links, n, n);
    FullRefCutNamesParent(links, Rung(n), n);
  }
}
