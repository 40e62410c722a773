/**
  What the channel forest guarantees: every reference appears exactly once, under the node its
  slash reference names, and the forest depends on nothing but what is said about each reference.
 */
module ForestLaws {
  import opened Orders
  import opened ChannelForest

  // ---- who hangs under whom ----

  /** Climbing parents from `x` passes through `id`. */
  ghost predicate Reaches(rows: Rows, root: string, x: string, id: string)
    decreases |x|
  {
    x == id || (Attached(rows, root, x) && Reaches(rows, root, ParentRef(x).value, id))
  }

  /** The top-level reference (or the root) that `x` hangs under. */
  ghost function Anchor(rows: Rows, root: string, x: string): (a: string)
    requires x in rows
    ensures a in rows && (a == root || a in Tops(rows, root))
    ensures Reaches(rows, root, x, a)
    decreases |x|
  {
    if Attached(rows, root, x) then Anchor(rows, root, ParentRef(x).value) else x
  }

  lemma {:induction false} ReachesIsShorter(rows: Rows, root: string, x: string, id: string)
    requires Reaches(rows, root, x, id)
    ensures |id| <= |x| && (x != id ==> |id| < |x|)
    decreases |x|
  {
    if x != id { ReachesIsShorter(rows, root, ParentRef(x).value, id); }
  }

  lemma {:induction false} ReachesTransitive(rows: Rows, root: string, x: string, y: string, z: string)
    requires Reaches(rows, root, x, y) && Reaches(rows, root, y, z)
    ensures Reaches(rows, root, x, z)
    decreases |x|
  {
    if x != y { ReachesTransitive(rows, root, ParentRef(x).value, y, z); }
  }

  /** Two references above the same one are comparable. */
  lemma {:induction false} ReachesLinear(rows: Rows, root: string, x: string, a: string, b: string)
    requires Reaches(rows, root, x, a) && Reaches(rows, root, x, b)
    ensures Reaches(rows, root, a, b) || Reaches(rows, root, b, a)
    decreases |x|
  {
    if x != a && x != b { ReachesLinear(rows, root, ParentRef(x).value, a, b); }
  }

  /** Whoever hangs strictly under `id` hangs under one of its kids. */
  lemma {:induction false} ReachesThroughKid(rows: Rows, root: string, x: string, id: string)
    returns (kid: string)
    requires x in rows && id in rows && Reaches(rows, root, x, id) && x != id
    ensures kid in Kids(rows, root, id) && Reaches(rows, root, x, kid)
    decreases |x|
  {
    var p := ParentRef(x).value;
    if p == id {
      kid := x;
    } else {
      kid := ReachesThroughKid(rows, root, p, id);
    }
  }

  lemma KidReachesParent(rows: Rows, root: string, id: string, kid: string)
    requires id in rows && kid in Kids(rows, root, id)
    ensures Reaches(rows, root, kid, id)
  {
    assert Reaches(rows, root, ParentRef(kid).value, id);
  }

  /** At most one of `ids` is above `x`. */
  ghost predicate Exclusive(rows: Rows, root: string, x: string, ids: seq<string>) {
    forall i, j :: 0 <= i < j < |ids| ==>
      !(Reaches(rows, root, x, ids[i]) && Reaches(rows, root, x, ids[j]))
  }

  lemma KidsExclusive(rows: Rows, root: string, id: string, x: string)
    requires id in rows
    ensures Exclusive(rows, root, x, Ascending(Kids(rows, root, id)))
  {
    var kids := Ascending(Kids(rows, root, id));
    forall i, j | 0 <= i < j < |kids| && Reaches(rows, root, x, kids[i]) && Reaches(rows, root, x, kids[j])
      ensures false
    {
      NotNested(rows, root, id, x, kids[i], kids[j]);
    }
  }

  lemma NotNested(rows: Rows, root: string, id: string, x: string, a: string, b: string)
    requires id in rows && a in Kids(rows, root, id) && b in Kids(rows, root, id) && a != b
    requires Reaches(rows, root, x, a)
    ensures !Reaches(rows, root, x, b)
  {
    if Reaches(rows, root, x, b) {
      ReachesLinear(rows, root, x, a, b);
      var low, high := if Reaches(rows, root, a, b) then a else b, if Reaches(rows, root, a, b) then b else a;
      ReachesIsShorter(rows, root, id, high);
    }
  }

  /** Climbing ends at the anchor: no other top-level reference is above `x`. */
  lemma {:induction false} AnchorUnique(rows: Rows, root: string, x: string, top: string)
    requires x in rows && top in rows && !Attached(rows, root, top)
    requires Reaches(rows, root, x, top)
    ensures top == Anchor(rows, root, x)
    decreases |x|
  {
    if x != top { AnchorUnique(rows, root, ParentRef(x).value, top); }
  }

  // ---- conservation ----

  ghost function Once(rows: Rows, root: string, x: string, id: string): seq<Info> {
    if x in rows && Reaches(rows, root, x, id) then [rows[x]] else []
  }

  /** `x` hangs under one of `ids`. */
  ghost predicate Under(rows: Rows, root: string, x: string, ids: seq<string>) {
    exists id :: id in ids && Reaches(rows, root, x, id)
  }

  lemma {:induction false} UnderFirstOrRest(rows: Rows, root: string, x: string, ids: seq<string>)
    requires ids != []
    ensures Under(rows, root, x, ids) <==> Reaches(rows, root, x, ids[0]) || Under(rows, root, x, ids[1..])
    ensures Exclusive(rows, root, x, ids) ==>
      Exclusive(rows, root, x, ids[1..]) && !(Reaches(rows, root, x, ids[0]) && Under(rows, root, x, ids[1..]))
  {
    assert forall id :: id in ids <==> id == ids[0] || id in ids[1..];
  }

  /** Trees at exclusive references together say at most one thing about `x`. */
  lemma {:induction false} SideBySide(rows: Rows, root: string, ids: seq<string>, x: string)
    requires forall id :: id in ids ==>
      id in rows && History(Flatten(Nest(rows, root, id)), x) == Once(rows, root, x, id)
    requires Exclusive(rows, root, x, ids)
    ensures History(FlattenAll(NestAll(rows, root, ids)), x) ==
      if x in rows && Under(rows, root, x, ids) then [rows[x]] else []
  {
    if ids != [] {
      UnderFirstOrRest(rows, root, x, ids);
      SideBySide(rows, root, ids[1..], x);
      FirstTree(rows, root, ids, x);
      assert ids[0] in ids;
    }
  }

  lemma {:induction false} FirstTree(rows: Rows, root: string, ids: seq<string>, x: string)
    requires ids != [] && forall id :: id in ids ==> id in rows
    ensures History(FlattenAll(NestAll(rows, root, ids)), x) ==
      History(Flatten(Nest(rows, root, ids[0])), x) + History(FlattenAll(NestAll(rows, root, ids[1..])), x)
  {
    var trees := NestAll(rows, root, ids);
    assert trees[1..] == NestAll(rows, root, ids[1..]);
    HistoryConcat(Flatten(trees[0]), FlattenAll(trees[1..]), x);
  }

  /** The tree at `id` holds exactly the references that climb to `id`, each once. */
  lemma {:induction false} TreeHistory(rows: Rows, root: string, id: string, x: string)
    requires id in rows
    ensures History(Flatten(Nest(rows, root, id)), x) == Once(rows, root, x, id)
    decreases Longer(rows, id)
  {
    NestUnfolds(rows, root, id);
    var kids := Ascending(Kids(rows, root, id));
    forall k | k in kids
      ensures History(Flatten(Nest(rows, root, k)), x) == Once(rows, root, x, k)
    {
      KidsAreLonger(rows, root, id, k);
      TreeHistory(rows, root, k, x);
    }
    KidsExclusive(rows, root, id, x);
    SideBySide(rows, root, kids, x);
    if x in rows { UnderSomeKid(rows, root, id, x); }
    var self := [Entry(id, rows[id])];
    HistoryConcat(self, FlattenAll(Nest(rows, root, id).children), x);
    assert History(self[1..], x) == [];
  }

  lemma UnderSomeKid(rows: Rows, root: string, id: string, x: string)
    requires id in rows && x in rows
    ensures Under(rows, root, x, Ascending(Kids(rows, root, id)))
      <==> x != id && Reaches(rows, root, x, id)
  {
    if x != id && Reaches(rows, root, x, id) {
      var kid := ReachesThroughKid(rows, root, x, id);
      assert kid in Ascending(Kids(rows, root, id));
    }
    forall k | k in Ascending(Kids(rows, root, id)) && Reaches(rows, root, x, k)
      ensures x != id && Reaches(rows, root, x, id)
    {
      KidReachesParent(rows, root, id, k);
      ReachesTransitive(rows, root, x, k, id);
      ReachesIsShorter(rows, root, x, k);
    }
  }

  lemma TopsExclusive(rows: Rows, root: string, x: string)
    ensures Exclusive(rows, root, x, Ascending(Tops(rows, root)))
  {
    var tops := Ascending(Tops(rows, root));
    forall i, j | 0 <= i < j < |tops|
      ensures !(Reaches(rows, root, x, tops[i]) && Reaches(rows, root, x, tops[j]))
    {
      assert tops[i] in Tops(rows, root) && tops[j] in Tops(rows, root);
      if Reaches(rows, root, x, tops[i]) && Reaches(rows, root, x, tops[j]) {
        ReachesLinear(rows, root, x, tops[i], tops[j]);
      }
    }
  }

  /** A reference climbs either to the root or to a top-level reference, never both. */
  lemma AnchoredOnce(rows: Rows, root: string, x: string)
    requires x in rows
    ensures Under(rows, root, x, Ascending(Tops(rows, root)))
      <==> !(root in rows && Reaches(rows, root, x, root))
  {
    var a := Anchor(rows, root, x);
    if a != root { assert a in Ascending(Tops(rows, root)); }
    if root in rows && Reaches(rows, root, x, root) { AnchorUnique(rows, root, x, root); }
    forall id | id in Ascending(Tops(rows, root)) && Reaches(rows, root, x, id) ensures id == a {
      AnchorUnique(rows, root, x, id);
    }
  }

  /** Conservation: every reference appears exactly once in the forest, with its merged row. */
  lemma ForestConserves(rows: Rows, root: string, x: string)
    ensures History(FlattenForest(ForestOf(rows, root)), x) == if x in rows then [rows[x]] else []
  {
    var tops := Ascending(Tops(rows, root));
    forall id | id in tops
      ensures History(Flatten(Nest(rows, root, id)), x) == Once(rows, root, x, id)
    {
      TreeHistory(rows, root, id, x);
    }
    TopsExclusive(rows, root, x);
    SideBySide(rows, root, tops, x);
    var f := ForestOf(rows, root);
    HistoryConcat(if f.root.Some? then Flatten(f.root.value) else [], FlattenAll(f.top), x);
    if root in rows { TreeHistory(rows, root, root, x); }
    if x in rows { AnchoredOnce(rows, root, x); }
  }

  // ---- shape ----

  /** Children strictly ascending, each one slash below its parent, and the root never nested. */
  ghost predicate WellNested(b: Block, root: string) {
    && StrictlyAscending(IdsOf(b.children))
    && forall c :: c in b.children ==>
         c.id != root && ParentRef(c.id) == Some(b.id) && WellNested(c, root)
  }

  /**
    The reference definition of a forest for `rows`: the root block is the root reference, the
    other top-level blocks are ascending and have no parent among `rows`, everything is well
    nested, and every reference of `rows` appears exactly once with its row and nothing else.
   */
  ghost predicate IsForest(f: Forest, rows: Rows, root: string) {
    && (f.root.Some? ==> f.root.value.id == root && WellNested(f.root.value, root))
    && StrictlyAscending(IdsOf(f.top))
    && (forall b :: b in f.top ==> b.id != root && !Attached(rows, root, b.id) && WellNested(b, root))
    && (forall x :: History(FlattenForest(f), x) == if x in rows then [rows[x]] else [])
  }

  lemma {:induction false} NestIsWellNested(rows: Rows, root: string, id: string)
    requires id in rows
    ensures WellNested(Nest(rows, root, id), root)
    decreases Longer(rows, id)
  {
    NestUnfolds(rows, root, id);
    var t, kids := Nest(rows, root, id), Ascending(Kids(rows, root, id));
    assert IdsOf(t.children) == kids;
    forall c | c in t.children
      ensures c.id != root && ParentRef(c.id) == Some(id) && WellNested(c, root)
    {
      var i :| 0 <= i < |t.children| && t.children[i] == c;
      assert kids[i] in Kids(rows, root, id);
      KidsAreLonger(rows, root, id, kids[i]);
      NestIsWellNested(rows, root, kids[i]);
    }
  }

  lemma ForestOfIsForest(rows: Rows, root: string)
    ensures IsForest(ForestOf(rows, root), rows, root)
  {
    var f, tops := ForestOf(rows, root), Ascending(Tops(rows, root));
    if root in rows { NestIsWellNested(rows, root, root); }
    assert IdsOf(f.top) == tops;
    forall b | b in f.top
      ensures b.id != root && !Attached(rows, root, b.id) && WellNested(b, root)
    {
      var i :| 0 <= i < |f.top| && f.top[i] == b;
      assert tops[i] in Tops(rows, root);
      NestIsWellNested(rows, root, tops[i]);
    }
    forall x ensures History(FlattenForest(f), x) == if x in rows then [rows[x]] else [] {
      ForestConserves(rows, root, x);
    }
  }

  // ---- the shape determines the forest ----

  ghost predicate Says(es: seq<Entry>, rows: Rows) {
    forall e :: e in es ==> e.id in rows && e.info == rows[e.id]
  }

  ghost predicate Mentions(es: seq<Entry>, x: string) {
    exists e :: e in es && e.id == x
  }

  lemma {:induction false} MentionedInBlocks(bs: seq<Block>, e: Entry)
    ensures e in FlattenAll(bs) <==> exists b :: b in bs && e in Flatten(b)
  {
    if bs != [] {
      MentionedInBlocks(bs[1..], e);
      assert FlattenAll(bs) == Flatten(bs[0]) + FlattenAll(bs[1..]);
      if b :| b in bs[1..] && e in Flatten(b) {
        assert b in bs;
      }
      if b :| b in bs && e in Flatten(b) {
        assert b == bs[0] || b in bs[1..];
      }
      assert bs[0] in bs;
    }
  }

  lemma MentionedInBlock(b: Block, e: Entry)
    ensures e in Flatten(b) <==> e == Entry(b.id, b.info) || exists c :: c in b.children && e in Flatten(c)
  {
    MentionedInBlocks(b.children, e);
  }

  /** A well-nested block mentions only references that climb to it. */
  lemma {:induction false} MentionsClimb(b: Block, rows: Rows, root: string, e: Entry)
    requires WellNested(b, root) && Says(Flatten(b), rows) && e in Flatten(b)
    ensures Reaches(rows, root, e.id, b.id)
    decreases b
  {
    MentionedInBlock(b, e);
    if e != Entry(b.id, b.info) {
      var c :| c in b.children && e in Flatten(c);
      ChildSays(b, c, rows);
      MentionsClimb(c, rows, root, e);
      MentionedInBlock(b, Entry(b.id, b.info));
      assert Reaches(rows, root, ParentRef(c.id).value, b.id);
      ReachesTransitive(rows, root, e.id, c.id, b.id);
    }
  }

  lemma ChildSays(b: Block, c: Block, rows: Rows)
    requires c in b.children && Says(Flatten(b), rows)
    ensures Says(Flatten(c), rows) && c.id in rows && b.id in rows && b.info == rows[b.id]
  {
    forall e | e in Flatten(c) ensures e in Flatten(b) { MentionedInBlock(b, e); }
    MentionedInBlock(c, Entry(c.id, c.info));
    MentionedInBlock(b, Entry(b.id, b.info));
  }

  /** The child under which `x` is mentioned is the only kid of `b.id` above `x`. */
  lemma MentionedUnderKid(b: Block, rows: Rows, root: string, x: string, kid: string)
    returns (c: Block)
    requires WellNested(b, root) && Says(Flatten(b), rows) && Mentions(Flatten(b), x)
    requires b.id in rows && kid in Kids(rows, root, b.id) && Reaches(rows, root, x, kid)
    ensures c in b.children && c.id == kid && Mentions(Flatten(c), x)
  {
    var e :| e in Flatten(b) && e.id == x;
    MentionedInBlock(b, e);
    ReachesIsShorter(rows, root, x, kid);
    c :| c in b.children && e in Flatten(c);
    ChildSays(b, c, rows);
    MentionsClimb(c, rows, root, e);
    assert c.id in Kids(rows, root, b.id);
    if c.id != kid { NotNested(rows, root, b.id, x, c.id, kid); }
  }

  ghost predicate Complete(b: Block, rows: Rows, root: string) {
    forall x :: x in rows && Reaches(rows, root, x, b.id) ==> Mentions(Flatten(b), x)
  }

  lemma {:induction false} ChildIsKid(b: Block, rows: Rows, root: string, c: Block)
    requires WellNested(b, root) && Says(Flatten(b), rows) && c in b.children
    ensures c.id in Kids(rows, root, b.id)
  {
    ChildSays(b, c, rows);
  }

  lemma {:induction false} KidIsChild(b: Block, rows: Rows, root: string, x: string)
    requires WellNested(b, root) && Says(Flatten(b), rows) && Complete(b, rows, root) && b.id in rows
    requires x in Kids(rows, root, b.id)
    ensures x in IdsOf(b.children)
  {
    KidReachesParent(rows, root, b.id, x);
    var c := MentionedUnderKid(b, rows, root, x, x);
    var i :| 0 <= i < |b.children| && b.children[i] == c;
    assert IdsOf(b.children)[i] == x;
  }

  lemma {:induction false} ChildIds(b: Block, rows: Rows, root: string)
    requires WellNested(b, root) && Says(Flatten(b), rows) && Complete(b, rows, root) && b.id in rows
    ensures IdsOf(b.children) == Ascending(Kids(rows, root, b.id))
  {
    var ids, kids := IdsOf(b.children), Kids(rows, root, b.id);
    assert StrictlyAscending(ids);
    forall i | 0 <= i < |ids| ensures ids[i] in kids { ChildIsKid(b, rows, root, b.children[i]); }
    forall x | x in kids ensures x in ids { KidIsChild(b, rows, root, x); }
    AscendingUnique(ids, Ascending(kids));
  }

  lemma SameIdSameBlock(bs: seq<Block>, c: Block, d: Block)
    requires StrictlyAscending(IdsOf(bs)) && c in bs && d in bs && c.id == d.id
    ensures c == d
  {
    var i :| 0 <= i < |bs| && bs[i] == c;
    var j :| 0 <= j < |bs| && bs[j] == d;
    assert IdsOf(bs)[i] == IdsOf(bs)[j];
  }

  lemma ChildComplete(b: Block, c: Block, rows: Rows, root: string)
    requires WellNested(b, root) && Says(Flatten(b), rows) && Complete(b, rows, root)
    requires c in b.children && b.id in rows
    ensures WellNested(c, root) && Says(Flatten(c), rows) && Complete(c, rows, root) && c.id in rows
  {
    ChildSays(b, c, rows);
    var kid := c.id;
    assert kid in Kids(rows, root, b.id);
    KidReachesParent(rows, root, b.id, kid);
    forall x | x in rows && Reaches(rows, root, x, kid) ensures Mentions(Flatten(c), x) {
      ReachesTransitive(rows, root, x, kid, b.id);
      var d := MentionedUnderKid(b, rows, root, x, kid);
      SameIdSameBlock(b.children, c, d);
    }
  }

  /** A complete, well-nested block is the tree of its reference. */
  lemma {:induction false} BlockIsNest(b: Block, rows: Rows, root: string)
    requires WellNested(b, root) && Says(Flatten(b), rows) && Complete(b, rows, root) && b.id in rows
    ensures b == Nest(rows, root, b.id)
    decreases b
  {
    ChildIds(b, rows, root);
    forall c | c in b.children ensures c.id in rows && c == Nest(rows, root, c.id) {
      ChildComplete(b, c, rows, root);
      BlockIsNest(c, rows, root);
    }
    AllNests(b.children, rows, root);
    NestUnfolds(rows, root, b.id);
    MentionedInBlock(b, Entry(b.id, b.info));
  }

  lemma AllNests(bs: seq<Block>, rows: Rows, root: string)
    requires forall b :: b in bs ==> b.id in rows && b == Nest(rows, root, b.id)
    ensures forall id :: id in IdsOf(bs) ==> id in rows
    ensures bs == NestAll(rows, root, IdsOf(bs))
  {
    forall i | 0 <= i < |bs| ensures IdsOf(bs)[i] == bs[i].id && bs[i] in bs {}
  }

  ghost function TopBlocks(f: Forest): seq<Block> {
    (if f.root.Some? then [f.root.value] else []) + f.top
  }

  lemma FlattenTopBlocks(f: Forest)
    ensures FlattenAll(TopBlocks(f)) == FlattenForest(f)
  {
    if f.root.Some? {
      FlattenConcat([f.root.value], f.top);
      FlattenOne(f.root.value);
    } else {
      assert TopBlocks(f) == f.top;
    }
  }

  lemma {:induction false} HistoryMentions(es: seq<Entry>, x: string)
    ensures History(es, x) != [] <==> Mentions(es, x)
    ensures forall e :: e in es && e.id == x ==> e.info in History(es, x)
  {
    if es != [] {
      HistoryMentions(es[1..], x);
      if Mentions(es[1..], x) {
        var e :| e in es[1..] && e.id == x;
        assert e in es;
      }
      if es[0].id == x {
        assert es[0] in es && History(es, x)[0] == es[0].info;
      }
      assert forall e :: e in es ==> e == es[0] || e in es[1..];
    }
  }

  lemma ForestSays(f: Forest, rows: Rows, root: string, b: Block)
    requires IsForest(f, rows, root) && b in TopBlocks(f)
    ensures WellNested(b, root) && Says(Flatten(b), rows) && b.id in rows
    ensures !Attached(rows, root, b.id)
  {
    FlattenTopBlocks(f);
    forall e | e in Flatten(b) ensures e.id in rows && e.info == rows[e.id] {
      MentionedInBlocks(TopBlocks(f), e);
      HistoryMentions(FlattenForest(f), e.id);
    }
    MentionedInBlock(b, Entry(b.id, b.info));
  }

  /** Every reference is mentioned in the top-level block that its anchor names. */
  lemma MentionedAtAnchor(f: Forest, rows: Rows, root: string, x: string) returns (b: Block)
    requires IsForest(f, rows, root) && x in rows
    ensures b in TopBlocks(f) && Mentions(Flatten(b), x) && b.id == Anchor(rows, root, x)
  {
    FlattenTopBlocks(f);
    HistoryMentions(FlattenForest(f), x);
    var e :| e in FlattenForest(f) && e.id == x;
    MentionedInBlocks(TopBlocks(f), e);
    b :| b in TopBlocks(f) && e in Flatten(b);
    ForestSays(f, rows, root, b);
    MentionsClimb(b, rows, root, e);
    AnchorUnique(rows, root, x, b.id);
  }

  lemma TopBlockById(f: Forest, rows: Rows, root: string, b: Block, c: Block)
    requires IsForest(f, rows, root) && b in TopBlocks(f) && c in TopBlocks(f) && b.id == c.id
    ensures b == c
  {
    if b in f.top && c in f.top { SameIdSameBlock(f.top, b, c); }
  }

  lemma TopBlockIsNest(f: Forest, rows: Rows, root: string, b: Block)
    requires IsForest(f, rows, root) && b in TopBlocks(f)
    ensures b.id in rows && !Attached(rows, root, b.id) && b == Nest(rows, root, b.id)
  {
    ForestSays(f, rows, root, b);
    forall x | x in rows && Reaches(rows, root, x, b.id) ensures Mentions(Flatten(b), x) {
      AnchorUnique(rows, root, x, b.id);
      var c := MentionedAtAnchor(f, rows, root, x);
      TopBlockById(f, rows, root, b, c);
    }
    BlockIsNest(b, rows, root);
  }

  lemma TopIds(f: Forest, rows: Rows, root: string)
    requires IsForest(f, rows, root)
    ensures IdsOf(f.top) == Ascending(Tops(rows, root))
  {
    var ids := IdsOf(f.top);
    forall x ensures x in ids <==> x in Tops(rows, root) {
      if x in ids {
        var i :| 0 <= i < |ids| && ids[i] == x;
        assert f.top[i] in TopBlocks(f);
        ForestSays(f, rows, root, f.top[i]);
      }
      if x in Tops(rows, root) {
        var b := MentionedAtAnchor(f, rows, root, x);
        assert b in f.top;
        var i :| 0 <= i < |f.top| && f.top[i] == b;
        assert ids[i] == x;
      }
    }
    AscendingUnique(ids, Ascending(Tops(rows, root)));
  }

  lemma TopsAreNests(f: Forest, rows: Rows, root: string)
    requires IsForest(f, rows, root)
    ensures f.top == NestAll(rows, root, Ascending(Tops(rows, root)))
  {
    TopIds(f, rows, root);
    forall b | b in f.top ensures b.id in rows && b == Nest(rows, root, b.id) {
      assert b in TopBlocks(f);
      TopBlockIsNest(f, rows, root, b);
    }
    AllNests(f.top, rows, root);
  }

  /** Shape and conservation together determine the forest. */
  lemma ForestUnique(f: Forest, rows: Rows, root: string)
    ensures IsForest(f, rows, root) <==> f == ForestOf(rows, root)
  {
    if IsForest(f, rows, root) {
      TopsAreNests(f, rows, root);
      if f.root.Some? {
        assert f.root.value in TopBlocks(f);
        TopBlockIsNest(f, rows, root, f.root.value);
      } else if root in rows {
        var b := MentionedAtAnchor(f, rows, root, root);
      }
    }
    ForestOfIsForest(rows, root);
  }

  // ---- what a merged row says ----

  /** The last of `values` that is not blank, read from the end. */
  function LastSaid<T(==)>(values: seq<T>, blank: T): T {
    if values == [] then blank
    else if values[|values| - 1] != blank then values[|values| - 1]
    else LastSaid(values[..|values| - 1], blank)
  }

  lemma {:induction false} LastSaidStep<T>(x: T, y: T, rest: seq<T>, blank: T)
    ensures LastSaid([x, y] + rest, blank) == LastSaid([if y != blank then y else x] + rest, blank)
  {
    var z := if y != blank then y else x;
    var long, short := [x, y] + rest, [z] + rest;
    if rest == [] {
      assert long[..1] == [x] && short == [z];
      assert [x][..0] == [];
    } else {
      var front := rest[..|rest| - 1];
      assert long[..|long| - 1] == [x, y] + front && short[..|short| - 1] == [z] + front;
      LastSaidStep(x, y, front, blank);
    }
  }

  /** Merging prefers what comes later, unless it is blank. */
  ghost predicate PrefersLater<T(!new)>(field: Info -> T, blank: T) {
    forall a, b :: field(Merge(a, b)) == if field(b) != blank then field(b) else field(a)
  }

  lemma ProjectTwo<T>(first: Info, later: seq<Info>, field: Info -> T)
    requires later != []
    ensures Project([first] + later, field) == [field(first), field(later[0])] + Project(later[1..], field)
  {}

  lemma {:induction false} FieldSays<T(!new)>(first: Info, later: seq<Info>, field: Info -> T, blank: T)
    requires PrefersLater(field, blank)
    ensures field(MergeAll(first, later)) == LastSaid(Project([first] + later, field), blank)
    decreases |later|
  {
    if later == [] {
      var one := Project([first] + later, field);
      assert one == [field(first)] && one[..0] == [];
    } else {
      var merged := Merge(first, later[0]);
      assert field(merged) == if field(later[0]) != blank then field(later[0]) else field(first);
      FieldSays(merged, later[1..], field, blank);
      ProjectCons(merged, later[1..], field);
      LastSaidStep(field(first), field(later[0]), Project(later[1..], field), blank);
      ProjectTwo(first, later, field);
    }
  }

  lemma {:induction false} OmittedIsLargest(first: Info, later: seq<Info>)
    ensures var m := MergeAll(first, later).omitted;
      && (forall i :: i in [first] + later ==> i.omitted <= m)
      && exists i :: i in [first] + later && i.omitted == m
    decreases |later|
  {
    if later == [] {
      assert first in [first] + later;
    } else {
      var merged, m := Merge(first, later[0]), MergeAll(first, later).omitted;
      OmittedIsLargest(merged, later[1..]);
      assert merged in [merged] + later[1..];
      assert first in [first] + later && later[0] in [first] + later;
      forall i | i in [first] + later ensures i.omitted <= m {
        if i != first && i != later[0] { assert i in [merged] + later[1..]; }
      }
      var i :| i in [merged] + later[1..] && i.omitted == m;
      if i != merged { assert i in [first] + later; }
    }
  }

  /** Every field shows the last non-blank report, and the omitted count the largest. */
  ghost predicate SumsUp(h: seq<Info>, row: Info) {
    && row.name == LastSaid(Project(h, (i: Info) => i.name), "")
    && row.about == LastSaid(Project(h, (i: Info) => i.about), "")
    && row.memberCount == LastSaid(Project(h, (i: Info) => i.memberCount), None)
    && row.lastActive == LastSaid(Project(h, (i: Info) => i.lastActive), None)
    && row.members == LastSaid(Project(h, (i: Info) => i.members), [])
    && row.presence == LastSaid(Project(h, (i: Info) => i.presence), [])
    && row.messages == LastSaid(Project(h, (i: Info) => i.messages), [])
    && (forall i :: i in h ==> i.omitted <= row.omitted)
    && exists i :: i in h && i.omitted == row.omitted
  }

  /** The row of a reference sums up everything the input says about it, at any depth. */
  lemma MergedRowSumsUp(channels: seq<Block>, id: string)
    requires id in RowsOf(channels)
    ensures SumsUp(History(FlattenAll(channels), id), RowsOf(channels)[id])
  {
    HistoryDetermines(map[], FlattenAll(channels), id);
    var h := History(FlattenAll(channels), id);
    var first, later := h[0], h[1..];
    assert [first] + later == h;
    FieldSays(first, later, (i: Info) => i.name, "");
    FieldSays(first, later, (i: Info) => i.about, "");
    FieldSays(first, later, (i: Info) => i.memberCount, None);
    FieldSays(first, later, (i: Info) => i.lastActive, None);
    FieldSays(first, later, (i: Info) => i.members, []);
    FieldSays(first, later, (i: Info) => i.presence, []);
    FieldSays(first, later, (i: Info) => i.messages, []);
    OmittedIsLargest(first, later);
  }

  // ---- what the forest depends on ----

  /** Only what is said about each reference matters: not nesting, not interleaving. */
  lemma SameHistoriesSameForest(a: seq<Block>, b: seq<Block>, workspace: string)
    requires forall x :: History(FlattenAll(a), x) == History(FlattenAll(b), x)
    ensures Arranged(workspace, a) == Arranged(workspace, b)
  {
    var ra, rb := AbsorbAll(map[], FlattenAll(a)), AbsorbAll(map[], FlattenAll(b));
    forall x ensures x in ra <==> x in rb
      ensures x in ra ==> ra[x] == rb[x]
    {
      HistoryDetermines(map[], FlattenAll(a), x);
      HistoryDetermines(map[], FlattenAll(b), x);
    }
    assert ra == rb;
  }

  lemma {:induction false} HistoryCounts(es: seq<Entry>, x: string, info: Info)
    ensures multiset(History(es, x))[info] == multiset(es)[Entry(x, info)]
  {
    if es != [] {
      HistoryCounts(es[1..], x, info);
      assert es == [es[0]] + es[1..];
      assert History(es, x) == (if es[0].id == x then [es[0].info] else []) + History(es[1..], x);
    }
  }

  lemma SameHistory(a: seq<Entry>, b: seq<Entry>, x: string)
    requires multiset(a) == multiset(b) && |History(a, x)| <= 1
    ensures History(a, x) == History(b, x)
  {
    var ha, hb := History(a, x), History(b, x);
    forall info ensures multiset(ha)[info] == multiset(hb)[info] {
      HistoryCounts(a, x, info);
      HistoryCounts(b, x, info);
    }
    SameShort(ha, hb);
  }

  lemma SameShort(a: seq<Info>, b: seq<Info>)
    requires multiset(a) == multiset(b) && |a| <= 1
    ensures a == b
  {
    SameElements(a, b);
    if a != [] {
      assert a[0] in b;
    }
  }

  /** With distinct references, any permutation or re-nesting of the input gives the same forest. */
  lemma PermutationSameForest(a: seq<Block>, b: seq<Block>, workspace: string)
    requires multiset(FlattenAll(a)) == multiset(FlattenAll(b))
    requires forall x :: |History(FlattenAll(a), x)| <= 1
    ensures Arranged(workspace, a) == Arranged(workspace, b)
  {
    forall x ensures History(FlattenAll(a), x) == History(FlattenAll(b), x) {
      SameHistory(FlattenAll(a), FlattenAll(b), x);
    }
    SameHistoriesSameForest(a, b, workspace);
  }

  /** Arranging the blocks of a forest again gives the same forest. */
  lemma ArrangeIdempotent(workspace: string, channels: seq<Block>)
    ensures Arranged(workspace, TopBlocks(Arranged(workspace, channels))) == Arranged(workspace, channels)
  {
    var rows, f := RowsOf(channels), Arranged(workspace, channels);
    FlattenTopBlocks(f);
    var again := AbsorbAll(map[], FlattenForest(f));
    forall x ensures x in again <==> x in rows
      ensures x in rows ==> again[x] == rows[x]
    {
      ForestConserves(rows, RootRef(workspace), x);
      HistoryDetermines(map[], FlattenForest(f), x);
    }
    assert again == rows;
  }

  lemma {:induction false} MergeAllConcat(start: Info, a: seq<Info>, b: seq<Info>)
    ensures MergeAll(start, a + b) == MergeAll(MergeAll(start, a), b)
    decreases |a|
  {
    if a == [] {
      assert a + b == b;
    } else {
      assert (a + b)[1..] == a[1..] + b;
      MergeAllConcat(Merge(start, a[0]), a[1..], b);
    }
  }

  lemma {:induction false} MergeAllAssociates(x: Info, y: Info, later: seq<Info>)
    ensures MergeAll(Merge(x, y), later) == Merge(x, MergeAll(y, later))
    decreases |later|
  {
    if later != [] {
      assert Merge(Merge(x, y), later[0]) == Merge(x, Merge(y, later[0]));
      MergeAllAssociates(x, Merge(y, later[0]), later[1..]);
    }
  }

  lemma RedeliveredRow(es: seq<Entry>, x: string)
    ensures x in AbsorbAll(map[], es + es) <==> x in AbsorbAll(map[], es)
    ensures x in AbsorbAll(map[], es) ==> AbsorbAll(map[], es + es)[x] == AbsorbAll(map[], es)[x]
  {
    HistoryDetermines(map[], es, x);
    HistoryDetermines(map[], es + es, x);
    HistoryConcat(es, es, x);
    var h := History(es, x);
    if h != [] { MergeTwice(h); }
  }

  lemma MergeTwice(h: seq<Info>)
    requires h != []
    ensures MergeAll((h + h)[0], (h + h)[1..]) == MergeAll(h[0], h[1..])
  {
    var m := MergeAll(h[0], h[1..]);
    assert (h + h)[1..] == h[1..] + h;
    MergeAllConcat(h[0], h[1..], h);
    MergeAllAssociates(m, h[0], h[1..]);
  }

  /** Delivering every block a second time changes nothing. */
  lemma RedeliverySameForest(workspace: string, blocks: seq<Block>)
    ensures Arranged(workspace, blocks + blocks) == Arranged(workspace, blocks)
  {
    var es := FlattenAll(blocks);
    FlattenConcat(blocks, blocks);
    forall x ensures x in AbsorbAll(map[], es + es) <==> x in AbsorbAll(map[], es)
      ensures x in AbsorbAll(map[], es) ==> AbsorbAll(map[], es + es)[x] == AbsorbAll(map[], es)[x]
    {
      RedeliveredRow(es, x);
    }
    assert RowsOf(blocks + blocks) == RowsOf(blocks);
  }

  // ---- the workspace root ----

  /** The root is present exactly if some block, at any depth, is that of the workspace. */
  lemma {:induction false} RootIsWorkspace(workspace: string, channels: seq<Block>)
    ensures var f := Arranged(workspace, channels);
      && (f.root.Some? <==> Mentions(FlattenAll(channels), "/" + workspace))
      && (f.root.Some? ==> f.root.value.id == "/" + workspace)
      && forall b :: b in f.top ==> b.id != "/" + workspace
  {
    var rows := RowsOf(channels);
    HistoryDetermines(map[], FlattenAll(channels), "/" + workspace);
    HistoryMentions(FlattenAll(channels), "/" + workspace);
    ForestOfIsForest(rows, RootRef(workspace));
  }

  // ---- whose word counts ----

  lemma {:induction false} LastSaidLast<T>(values: seq<T>, x: T, blank: T)
    requires x != blank
    ensures LastSaid(values + [x], blank) == x
  {}

  /** A block that comes later has the last word about its name. */
  lemma {:induction false} LaterBlockNames(channels: seq<Block>, b: Block)
    requires b.children == [] && b.info.name != ""
    ensures b.id in RowsOf(channels + [b]) && RowsOf(channels + [b])[b.id].name == b.info.name
  {
    FlattenConcat(channels, [b]);
    FlattenOne(b);
    assert Flatten(b) == [Entry(b.id, b.info)];
    LastEntryNames(channels + [b], FlattenAll(channels), b.id, b.info);
  }

  lemma {:induction false} LastEntryNames(all: seq<Block>, es: seq<Entry>, id: string, info: Info)
    requires FlattenAll(all) == es + [Entry(id, info)] && info.name != ""
    ensures id in RowsOf(all) && RowsOf(all)[id].name == info.name
  {
    var last := [Entry(id, info)];
    HistoryConcat(es, last, id);
    assert last[1..] == [] && History(last, id) == [info];
    HistoryDetermines(map[], FlattenAll(all), id);
    MergedRowSumsUp(all, id);
    var h, name := History(FlattenAll(all), id), (i: Info) => i.name;
    ProjectConcat(History(es, id), [info], name);
    assert Project([info], name) == [info.name];
    LastSaidLast(Project(History(es, id), name), info.name, "");
  }

  /** What is nested in a block is heard after the block itself. */
  lemma {:induction false} NestedBlockNames(b: Block, c: Block)
    requires b.children == [c] && c.children == [] && c.id == b.id && c.info.name != ""
    ensures b.id in RowsOf([b]) && RowsOf([b])[b.id].name == c.info.name
  {
    FlattenOne(b);
    FlattenOne(c);
    assert Flatten(c) == [Entry(c.id, c.info)];
    LastEntryNames([b], [Entry(b.id, b.info)], b.id, c.info);
  }
}
