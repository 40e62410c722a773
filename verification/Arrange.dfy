/** The methods of src/fabric_context/tree.rs, proved to build `ChannelForest.ForestOf`. */
module Arrange {
  import opened Orders
  import opened ChannelForest

  type Nodes = map<string, Block>

  ghost predicate Bare(nodes: Nodes) {
    forall id :: id in nodes ==> nodes[id].id == id && nodes[id].children == []
  }

  ghost function Infos(nodes: Nodes): Rows {
    map id | id in nodes :: nodes[id].info
  }

  // ---- flattening ----

  method Collect(nodes: Nodes, channel: Block) returns (out: Nodes)
    requires Bare(nodes)
    ensures Bare(out)
    ensures Infos(out) == AbsorbAll(Infos(nodes), Flatten(channel))
    decreases channel
  {
    var children := channel.children;
    var reference := channel.id;
    if reference in nodes {
      var existing := nodes[reference];
      out := nodes[reference := existing.(info := Merge(existing.info, channel.info))];
    } else {
      out := nodes[reference := channel.(children := [])];
    }
    ghost var first := Entry(channel.id, channel.info);
    assert Infos(out) == Absorb(Infos(nodes), first);
    for i := 0 to |children|
      invariant Bare(out)
      invariant Infos(out) == AbsorbAll(Absorb(Infos(nodes), first), FlattenAll(children[..i]))
    {
      out := Collect(out, children[i]);
      TakeOneMore(Absorb(Infos(nodes), first), children, i);
    }
    assert children[..|children|] == children;
    assert Flatten(channel)[1..] == FlattenAll(children);
  }

  lemma {:induction false} TakeOneMore(rows: Rows, blocks: seq<Block>, i: nat)
    requires i < |blocks|
    ensures AbsorbAll(rows, FlattenAll(blocks[..i + 1])) ==
      AbsorbAll(AbsorbAll(rows, FlattenAll(blocks[..i])), Flatten(blocks[i]))
  {
    assert blocks[..i + 1] == blocks[..i] + [blocks[i]];
    FlattenConcat(blocks[..i], [blocks[i]]);
    FlattenOne(blocks[i]);
    AbsorbConcat(rows, FlattenAll(blocks[..i]), Flatten(blocks[i]));
  }

  // ---- sorting ----

  predicate ById(a: Block, b: Block) { StrLe(a.id, b.id) }

  lemma {:induction false} ByIdIsOrder()
    ensures TotalPreorder(ById)
  {
    StrLeIsOrder();
  }

  lemma {:induction false} ChildIsSmaller(b: Block, c: Block)
    requires c in b.children
    ensures c < b
  {
    var k :| 0 <= k < |b.children| && b.children[k] == c;
    assert b.children[k] < b;
  }

  ghost function SortTree(b: Block): Block {
    var sorted := SortBy(b.children, ById);
    SameElements(sorted, b.children);
    Block(b.id, b.info, seq(|sorted|, i requires 0 <= i < |sorted| =>
      (ChildIsSmaller(b, sorted[i]); SortTree(sorted[i]))))
  }

  method SortChildren(channel: Block) returns (out: Block)
    ensures out == SortTree(channel)
    decreases channel, 1
  {
    var children := SortBy(channel.children, ById);
    SameElements(children, channel.children);
    forall c | c in children ensures c < channel { ChildIsSmaller(channel, c); }
    var done := SortEach(children, channel);
    SortedTree(channel, done);
    out := channel.(children := done);
  }

  lemma {:induction false} SortedTree(b: Block, done: seq<Block>)
    requires |done| == |SortBy(b.children, ById)|
    requires forall i :: 0 <= i < |done| ==> done[i] == SortTree(SortBy(b.children, ById)[i])
    ensures SortTree(b) == b.(children := done)
  {
    assert SortTree(b).children == done;
  }

  method SortEach(channels: seq<Block>, ghost above: Block) returns (out: seq<Block>)
    requires forall c :: c in channels ==> c < above
    ensures |out| == |channels|
    ensures forall i :: 0 <= i < |out| ==> out[i] == SortTree(channels[i])
    decreases above, 0
  {
    out := [];
    for i := 0 to |channels|
      invariant |out| == i
      invariant forall j :: 0 <= j < i ==> out[j] == SortTree(channels[j])
    {
      assert channels[i] in channels;
      var channel := SortChildren(channels[i]);
      out := out + [channel];
    }
  }

  lemma {:induction false} SortedIds(ids: seq<string>, s: set<string>)
    requires NoRepeats(ids) && forall x :: x in ids <==> x in s
    ensures SortBy(ids, StrLe) == Ascending(s)
  {
    StrLeIsOrder();
    SortBySorted(ids, StrLe);
    SameElements(ids, SortBy(ids, StrLe));
    PermutationNoRepeats(ids, SortBy(ids, StrLe));
    AscendingUnique(SortBy(ids, StrLe), Ascending(s));
  }

  // ---- attaching, deepest first ----

  predicate DeeperFirst(a: string, b: string) { Depth(a) >= Depth(b) }

  ghost predicate Finished(b: Block, rows: Rows, root: string) {
    b.id in rows && SortTree(b) == Nest(rows, root, b.id)
  }

  /**
    `b` has gathered, in some order, the finished trees of exactly those kids of its reference
    that are already done.
   */
  ghost predicate Gathered(b: Block, rows: Rows, root: string, done: set<string>) {
    && b.id in rows && b.info == rows[b.id]
    && NoRepeats(IdsOf(b.children))
    && (forall c :: c in b.children ==> Finished(c, rows, root))
    && (forall k :: k in IdsOf(b.children) <==> k in Kids(rows, root, b.id) && k in done)
  }

  /** Once every kid is done, sorting the gathered block gives the tree of its reference. */
  lemma {:induction false} GatheredAll(b: Block, rows: Rows, root: string, done: set<string>)
    requires Gathered(b, rows, root, done) && Kids(rows, root, b.id) <= done
    ensures Finished(b, rows, root)
  {
    var sorted, kids := SortBy(b.children, ById), Ascending(Kids(rows, root, b.id));
    SortedIds(IdsOf(b.children), Kids(rows, root, b.id));
    ProjectSort(b.children, ById, IdOf, StrLe);
    SameElements(sorted, b.children);
    NestUnfolds(rows, root, b.id);
    SortedTrees(b, sorted, rows, root, kids);
  }

  lemma {:induction false} SortedTrees(b: Block, sorted: seq<Block>, rows: Rows, root: string, kids: seq<string>)
    requires sorted == SortBy(b.children, ById) && IdsOf(sorted) == kids
    requires forall c :: c in sorted ==> Finished(c, rows, root)
    requires forall k :: k in kids ==> k in rows
    ensures SortTree(b).children == NestAll(rows, root, kids)
  {
    var done := NestAll(rows, root, kids);
    assert |sorted| == |IdsOf(sorted)| == |kids| == |done|;
    forall i | 0 <= i < |done| ensures done[i] == SortTree(sorted[i]) {
      assert IdsOf(sorted)[i] == kids[i] && sorted[i] in sorted;
      assert Finished(sorted[i], rows, root);
    }
    SortedTree(b, done);
  }

  ghost function Before(order: seq<string>, i: nat): set<string>
    requires i <= |order|
  {
    set k | 0 <= k < i :: order[k]
  }

  /** References deeper than `order[i]` come before it, shallower ones after it. */
  lemma {:induction false} DepthOrder(keys: seq<string>, order: seq<string>, i: nat, x: string)
    requires order == SortBy(keys, DeeperFirst) && NoRepeats(keys) && i < |order| && x in keys
    ensures Depth(x) > Depth(order[i]) ==> x in Before(order, i)
    ensures Depth(x) < Depth(order[i]) ==> x !in Before(order, i)
    ensures order[i] in keys && order[i] !in Before(order, i)
  {
    SortBySorted(keys, DeeperFirst);
    SameElements(keys, order);
    PermutationNoRepeats(keys, order);
    var k :| 0 <= k < |order| && order[k] == x;
    assert k < i || k == i || DeeperFirst(order[i], order[k]);
    assert forall j :: 0 <= j < i ==> DeeperFirst(order[j], order[i]);
  }

  ghost predicate Progress(nodes: Nodes, rows: Rows, root: string, done: set<string>) {
    && (forall id :: id in nodes <==> id in rows && !(id in done && Attached(rows, root, id)))
    && (forall id :: id in nodes ==> nodes[id].id == id && Gathered(nodes[id], rows, root, done))
  }

  lemma {:induction false} StillGathered(b: Block, rows: Rows, root: string, done: set<string>, r: string)
    requires Gathered(b, rows, root, done) && r !in Kids(rows, root, b.id)
    ensures Gathered(b, rows, root, done + {r})
  {}

  lemma {:induction false} SkipStep(nodes: Nodes, rows: Rows, root: string, done: set<string>, r: string)
    requires Progress(nodes, rows, root, done) && r in rows && !Attached(rows, root, r)
    ensures Progress(nodes, rows, root, done + {r})
  {
    forall id | id in nodes ensures Gathered(nodes[id], rows, root, done + {r}) {
      StillGathered(nodes[id], rows, root, done, r);
    }
  }

  function Push(nodes: Nodes, child: string, parent: string): Nodes
    requires child in nodes && parent in nodes && child != parent
  {
    var kid := nodes[child];
    var rest := nodes - {child};
    rest[parent := rest[parent].(children := rest[parent].children + [kid])]
  }

  lemma {:induction false} PushStep(nodes: Nodes, rows: Rows, root: string, done: set<string>, r: string, p: string)
    requires Progress(nodes, rows, root, done) && r in rows && r !in done
    requires Attached(rows, root, r) && ParentRef(r) == Some(p) && p in nodes && p != r
    requires Kids(rows, root, r) <= done
    ensures Progress(Push(nodes, r, p), rows, root, done + {r})
  {
    GatheredAll(nodes[r], rows, root, done);
    var out := Push(nodes, r, p);
    forall id | id in out ensures out[id].id == id && Gathered(out[id], rows, root, done + {r}) {
      if id == p {
        PushGathers(nodes[p], nodes[r], rows, root, done);
      } else {
        StillGathered(nodes[id], rows, root, done, r);
      }
    }
  }

  lemma {:induction false} PushGathers(b: Block, kid: Block, rows: Rows, root: string, done: set<string>)
    requires Gathered(b, rows, root, done) && kid.id !in done
    requires kid.id in Kids(rows, root, b.id) && Finished(kid, rows, root)
    ensures Gathered(b.(children := b.children + [kid]), rows, root, done + {kid.id})
  {
    assert IdsOf(b.children + [kid]) == IdsOf(b.children) + [kid.id];
    assert kid.id !in IdsOf(b.children);
  }

  lemma {:induction false} KidsAreDone(rows: Rows, root: string, keys: seq<string>, order: seq<string>, i: nat)
    requires order == SortBy(keys, DeeperFirst) && keys == Ascending(rows.Keys) && i < |order|
    ensures Kids(rows, root, order[i]) <= Before(order, i)
  {
    forall k | k in Kids(rows, root, order[i]) ensures k in Before(order, i) {
      ParentIsOneUp(k);
      DepthOrder(keys, order, i, k);
    }
  }

  /** One turn of the loop: attach `order[i]` below its parent if the parent is present. */
  method AttachOne(start: Nodes, root: string, order: seq<string>, i: nat, ghost rows: Rows, ghost keys: seq<string>)
    returns (nodes: Nodes)
    requires keys == Ascending(rows.Keys) && order == SortBy(keys, DeeperFirst) && i < |order|
    requires Progress(start, rows, root, Before(order, i))
    ensures Progress(nodes, rows, root, Before(order, i + 1))
  {
    BeforeStep(order, i);
    nodes := start;
    var reference := order[i];
    ghost var done := Before(order, i);
    SameElements(keys, order);
    DepthOrder(keys, order, i, reference);
    var parent := ParentRef(reference);
    if reference == root || parent.None? {
      SkipStep(nodes, rows, root, done, reference);
      return;
    }
    ParentIsOneUp(reference);
    if parent.value in rows { DepthOrder(keys, order, i, parent.value); }
    if parent.value !in nodes {
      SkipStep(nodes, rows, root, done, reference);
      return;
    }
    KidsAreDone(rows, root, keys, order, i);
    PushStep(nodes, rows, root, done, reference, parent.value);
    nodes := Push(nodes, reference, parent.value);
  }

  method AttachInOrder(start: Nodes, root: string, order: seq<string>, ghost rows: Rows, ghost keys: seq<string>)
    returns (nodes: Nodes)
    requires keys == Ascending(rows.Keys) && order == SortBy(keys, DeeperFirst)
    requires Progress(start, rows, root, Before(order, 0))
    ensures Progress(nodes, rows, root, Before(order, |order|))
  {
    nodes := start;
    for i := 0 to |order|
      invariant Progress(nodes, rows, root, Before(order, i))
    {
      nodes := AttachOne(nodes, root, order, i, rows, keys);
    }
  }

  lemma BeforeStep(order: seq<string>, i: nat)
    requires i < |order|
    ensures Before(order, i + 1) == Before(order, i) + {order[i]}
  {}

  method AttachAll(start: Nodes, root: string) returns (nodes: Nodes)
    requires Bare(start)
    ensures forall id :: id in nodes <==> id in start && !Attached(Infos(start), root, id)
    ensures forall id :: id in nodes ==> nodes[id].id == id && Finished(nodes[id], Infos(start), root)
  {
    ghost var rows := Infos(start);
    var keys := WalkKeys(start.Keys);
    assert rows.Keys == start.Keys;
    var references := SortBy(keys, DeeperFirst);
    StartsGathered(start, root);
    assert Before(references, 0) == {};
    nodes := AttachInOrder(start, root, references, rows, keys);
    EverythingBefore(rows, keys, references);
    AllAttached(nodes, rows, root, Before(references, |references|));
  }

  lemma {:induction false} StartsGathered(start: Nodes, root: string)
    requires Bare(start)
    ensures Progress(start, Infos(start), root, {})
  {}

  lemma {:induction false} EverythingBefore(rows: Rows, keys: seq<string>, order: seq<string>)
    requires keys == Ascending(rows.Keys) && order == SortBy(keys, DeeperFirst)
    ensures rows.Keys <= Before(order, |order|)
  {
    SameElements(keys, order);
    forall x | x in rows ensures x in Before(order, |order|) {
      assert x in keys;
      var k :| 0 <= k < |order| && order[k] == x;
    }
  }

  lemma {:induction false} AllAttached(nodes: Nodes, rows: Rows, root: string, done: set<string>)
    requires Progress(nodes, rows, root, done) && rows.Keys <= done
    ensures forall id :: id in nodes <==> id in rows && !Attached(rows, root, id)
    ensures forall id :: id in nodes ==> nodes[id].id == id && Finished(nodes[id], rows, root)
  {
    forall id | id in nodes ensures Finished(nodes[id], rows, root) {
      GatheredAll(nodes[id], rows, root, done);
    }
  }

  method CollectAll(channels: seq<Block>) returns (nodes: Nodes)
    ensures Bare(nodes) && Infos(nodes) == RowsOf(channels)
  {
    nodes := map[];
    for i := 0 to |channels|
      invariant Bare(nodes)
      invariant Infos(nodes) == AbsorbAll(map[], FlattenAll(channels[..i]))
    {
      nodes := Collect(nodes, channels[i]);
      TakeOneMore(map[], channels, i);
    }
    assert channels[..|channels|] == channels;
  }

  method SortTop(nodes: Nodes, ghost rows: Rows, ghost root: string) returns (top: seq<Block>)
    requires forall id :: id in nodes ==> nodes[id].id == id && Finished(nodes[id], rows, root)
    ensures forall id :: id in Ascending(nodes.Keys) ==> id in rows
    ensures top == NestAll(rows, root, Ascending(nodes.Keys))
  {
    var keys := WalkKeys(nodes.Keys);
    var values := seq(|keys|, i requires 0 <= i < |keys| => nodes[keys[i]]);
    var sorted := SortBy(values, ById);
    AlreadySorted(values, keys);
    ghost var above := Block("", Info("", "", None, None, [], [], [], 0), sorted);
    forall c | c in sorted ensures c < above { ChildIsSmaller(above, c); }
    top := SortEach(sorted, above);
    TreesInOrder(nodes, rows, root, keys, top);
  }

  lemma {:induction false} TreesInOrder(nodes: Nodes, rows: Rows, root: string, keys: seq<string>, top: seq<Block>)
    requires forall id :: id in nodes ==> nodes[id].id == id && Finished(nodes[id], rows, root)
    requires |top| == |keys| && forall i :: 0 <= i < |keys| ==> keys[i] in nodes && top[i] == SortTree(nodes[keys[i]])
    ensures forall id :: id in keys ==> id in rows
    ensures top == NestAll(rows, root, keys)
  {
    forall i | 0 <= i < |keys| ensures keys[i] in rows && top[i] == Nest(rows, root, keys[i]) {}
  }

  lemma {:induction false} AlreadySorted(values: seq<Block>, keys: seq<string>)
    requires StrictlyAscending(keys) && |values| == |keys|
    requires forall i :: 0 <= i < |keys| ==> values[i].id == keys[i]
    ensures SortBy(values, ById) == values
  {
    ByIdIsOrder();
    SortBySorted(values, ById);
    assert IdsOf(values) == keys;
    forall i, j | 0 <= i < |values| && 0 <= j < |values| && ById(values[i], values[j]) && ById(values[j], values[i])
      ensures i == j
    {
      StrLeAntisymmetric(values[i].id, values[j].id);
    }
    forall i, j | 0 <= i < j < |values| ensures ById(values[i], values[j]) {
      assert StrLe(keys[i], keys[j]);
    }
    SortedUnique(values, SortBy(values, ById), ById);
  }

  /** `arrange`: the forest is exactly the declarative one. */
  method ArrangeChannels(workspace: string, channels: seq<Block>)
    returns (root: Option<Block>, top: seq<Block>)
    ensures Forest(root, top) == Arranged(workspace, channels)
  {
    var nodes := CollectAll(channels);
    ghost var rows := Infos(nodes);
    var rootRef := RootRef(workspace);
    nodes := AttachAll(nodes, rootRef);
    root := None;
    if rootRef in nodes {
      var r := SortChildren(nodes[rootRef]);
      root := Some(r);
      nodes := nodes - {rootRef};
    }
    assert nodes.Keys == Tops(rows, rootRef);
    top := SortTop(nodes, rows, rootRef);
  }
}
