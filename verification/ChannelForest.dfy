/**
  The channel forest of one workspace (src/fabric_context/tree.rs): nested, possibly repeated
  channel blocks are flattened into one map keyed by slash reference, and the map is then
  rebuilt into a forest, deepest reference first.

  `ForestOf` says declaratively what the forest of a map of rows is; the methods follow the
  source and are proved to compute it.
 */
module ChannelForest {
  import opened Orders

  datatype Row = Row(text: string)

  /** What a channel block shows besides its reference and its children. */
  datatype Info = Info(
    name: string, about: string, memberCount: Option<nat>, lastActive: Option<string>,
    members: seq<Row>, presence: seq<Row>, messages: seq<Row>, omitted: nat)

  datatype Block = Block(id: string, info: Info, children: seq<Block>)

  function IdOf(b: Block): string { b.id }

  function IdsOf(bs: seq<Block>): seq<string> {
    Project(bs, IdOf)
  }

  datatype Forest = Forest(root: Option<Block>, top: seq<Block>)

  // ---- references ----

  /** The part of a reference before its last slash (`rsplit_once('/')`). */
  function ParentRef(id: string): (r: Option<string>)
    ensures r == None <==> '/' !in id
    ensures r.Some? ==>
      && |r.value| < |id| && id[..|r.value|] == r.value
      && id[|r.value|] == '/' && '/' !in id[|r.value| + 1..]
  {
    if id == [] then None
    else if id[|id| - 1] == '/' then Some(id[..|id| - 1])
    else
      var r := ParentRef(id[..|id| - 1]);
      assert id == id[..|id| - 1] + [id[|id| - 1]];
      assert r.Some? ==> id[|r.value| + 1..] == id[..|id| - 1][|r.value| + 1..] + [id[|id| - 1]];
      r
  }

  function Depth(id: string): nat {
    if id == [] then 0 else (if id[0] == '/' then 1 else 0) + Depth(id[1..])
  }

  lemma {:induction false} DepthConcat(a: string, b: string)
    ensures Depth(a + b) == Depth(a) + Depth(b)
  {
    if a == [] {
      assert a + b == b;
    } else {
      assert (a + b)[1..] == a[1..] + b;
      DepthConcat(a[1..], b);
    }
  }

  lemma {:induction false} DepthSlashFree(a: string)
    requires '/' !in a
    ensures Depth(a) == 0
  {
    if a != [] { DepthSlashFree(a[1..]); }
  }

  /** A parent reference is exactly one level up. */
  lemma ParentIsOneUp(id: string)
    requires ParentRef(id).Some?
    ensures Depth(id) == Depth(ParentRef(id).value) + 1
  {
    var p := ParentRef(id).value;
    var segment := id[|p| + 1..];
    assert id == p + ("/" + segment);
    DepthConcat(p, "/" + segment);
    DepthConcat("/", segment);
    DepthSlashFree(segment);
  }

  /** Appending one slash-free segment is undone by taking the parent reference. */
  lemma {:induction false} ParentOfExtension(p: string, segment: string)
    requires '/' !in segment
    ensures ParentRef(p + "/" + segment) == Some(p)
  {
    var id := p + "/" + segment;
    if segment == [] {
      assert id[..|id| - 1] == p;
    } else {
      assert id[..|id| - 1] == p + "/" + segment[..|segment| - 1];
      ParentOfExtension(p, segment[..|segment| - 1]);
    }
  }

  // ---- rows and how repeated rows combine ----

  datatype Entry = Entry(id: string, info: Info)

  function Flatten(b: Block): seq<Entry>
    decreases b, 1
  {
    [Entry(b.id, b.info)] + FlattenAll(b.children)
  }

  function FlattenAll(bs: seq<Block>): seq<Entry>
    decreases bs, 0
  {
    if bs == [] then [] else Flatten(bs[0]) + FlattenAll(bs[1..])
  }

  function Merge(existing: Info, incoming: Info): Info {
    Info(
      if incoming.name != "" then incoming.name else existing.name,
      if incoming.about != "" then incoming.about else existing.about,
      if incoming.memberCount.Some? then incoming.memberCount else existing.memberCount,
      if incoming.lastActive.Some? then incoming.lastActive else existing.lastActive,
      if incoming.members != [] then incoming.members else existing.members,
      if incoming.presence != [] then incoming.presence else existing.presence,
      if incoming.messages != [] then incoming.messages else existing.messages,
      if existing.omitted >= incoming.omitted then existing.omitted else incoming.omitted)
  }

  type Rows = map<string, Info>

  function Absorb(rows: Rows, e: Entry): Rows {
    if e.id in rows then rows[e.id := Merge(rows[e.id], e.info)] else rows[e.id := e.info]
  }

  function AbsorbAll(rows: Rows, es: seq<Entry>): Rows
    decreases |es|
  {
    if es == [] then rows else AbsorbAll(Absorb(rows, es[0]), es[1..])
  }

  /** Everything that was said about one reference, oldest first. */
  function History(es: seq<Entry>, id: string): seq<Info> {
    if es == [] then []
    else (if es[0].id == id then [es[0].info] else []) + History(es[1..], id)
  }

  function MergeAll(start: Info, later: seq<Info>): Info
    decreases |later|
  {
    if later == [] then start else MergeAll(Merge(start, later[0]), later[1..])
  }

  lemma {:induction false} FlattenConcat(a: seq<Block>, b: seq<Block>)
    ensures FlattenAll(a + b) == FlattenAll(a) + FlattenAll(b)
  {
    if a == [] {
      assert a + b == b;
    } else {
      assert (a + b)[1..] == a[1..] + b;
      FlattenConcat(a[1..], b);
    }
  }

  lemma FlattenOne(b: Block)
    ensures FlattenAll([b]) == Flatten(b)
  {
    assert FlattenAll([b][1..]) == [];
  }

  lemma {:induction false} AbsorbConcat(rows: Rows, a: seq<Entry>, b: seq<Entry>)
    ensures AbsorbAll(rows, a + b) == AbsorbAll(AbsorbAll(rows, a), b)
    decreases |a|
  {
    if a == [] {
      assert a + b == b;
    } else {
      assert (a + b)[1..] == a[1..] + b;
      AbsorbConcat(Absorb(rows, a[0]), a[1..], b);
    }
  }

  lemma {:induction false} HistoryConcat(a: seq<Entry>, b: seq<Entry>, id: string)
    ensures History(a + b, id) == History(a, id) + History(b, id)
  {
    if a == [] {
      assert a + b == b;
    } else {
      var c, head := a + b, if a[0].id == id then [a[0].info] else [];
      assert c[0] == a[0] && c[1..] == a[1..] + b;
      HistoryConcat(a[1..], b, id);
      assert History(c, id) == head + (History(a[1..], id) + History(b, id));
    }
  }

  /** Each reference ends up with what its own rows say, whatever is interleaved with them. */
  lemma {:induction false} HistoryDetermines(rows: Rows, es: seq<Entry>, id: string)
    ensures id in AbsorbAll(rows, es) <==> id in rows || History(es, id) != []
    ensures id in rows ==> AbsorbAll(rows, es)[id] == MergeAll(rows[id], History(es, id))
    ensures id !in rows && History(es, id) != [] ==>
      AbsorbAll(rows, es)[id] == MergeAll(History(es, id)[0], History(es, id)[1..])
    decreases |es|
  {
    if es != [] {
      HistoryDetermines(Absorb(rows, es[0]), es[1..], id);
      if es[0].id == id {
        assert History(es, id)[1..] == History(es[1..], id);
      } else {
        assert History(es, id) == History(es[1..], id);
      }
    }
  }

  // ---- the forest of a set of rows ----

  predicate Attached(rows: Rows, root: string, id: string) {
    id != root && ParentRef(id).Some? && ParentRef(id).value in rows
  }

  function Kids(rows: Rows, root: string, id: string): set<string> {
    set c | c in rows && c != root && ParentRef(c) == Some(id)
  }

  ghost function Longer(rows: Rows, id: string): set<string> {
    set c | c in rows && |c| > |id|
  }

  lemma KidsAreLonger(rows: Rows, root: string, id: string, kid: string)
    requires kid in Kids(rows, root, id)
    ensures Longer(rows, kid) < Longer(rows, id)
  {
    assert kid in Longer(rows, id) && kid !in Longer(rows, kid);
  }

  /** The tree that hangs at one reference: its kids in ascending order, each with its own tree. */
  ghost function Nest(rows: Rows, root: string, id: string): Block
    requires id in rows
    decreases Longer(rows, id)
  {
    var kids := Ascending(Kids(rows, root, id));
    Block(id, rows[id], seq(|kids|, i requires 0 <= i < |kids| =>
      (KidsAreLonger(rows, root, id, kids[i]); Nest(rows, root, kids[i]))))
  }

  ghost function NestAll(rows: Rows, root: string, ids: seq<string>): seq<Block>
    requires forall id :: id in ids ==> id in rows
  {
    seq(|ids|, i requires 0 <= i < |ids| => Nest(rows, root, ids[i]))
  }

  function Tops(rows: Rows, root: string): set<string> {
    set id | id in rows && id != root && !Attached(rows, root, id)
  }

  ghost function ForestOf(rows: Rows, root: string): Forest {
    Forest(
      if root in rows then Some(Nest(rows, root, root)) else None,
      NestAll(rows, root, Ascending(Tops(rows, root))))
  }

  function RowsOf(channels: seq<Block>): Rows {
    AbsorbAll(map[], FlattenAll(channels))
  }

  /** `format_channel_ref(workspace, &[])`. */
  function RootRef(workspace: string): string {
    "/" + workspace
  }

  /** The forest that `arrange` returns. */
  ghost function Arranged(workspace: string, channels: seq<Block>): Forest {
    ForestOf(RowsOf(channels), RootRef(workspace))
  }

  ghost function FlattenForest(f: Forest): seq<Entry> {
    (if f.root.Some? then Flatten(f.root.value) else []) + FlattenAll(f.top)
  }

  lemma NestUnfolds(rows: Rows, root: string, id: string)
    requires id in rows
    ensures forall c :: c in Ascending(Kids(rows, root, id)) ==> c in rows
    ensures Nest(rows, root, id) ==
      Block(id, rows[id], NestAll(rows, root, Ascending(Kids(rows, root, id))))
  {}
}
