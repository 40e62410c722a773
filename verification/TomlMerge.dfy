/**
  Overlaying one Codex configuration on another (`deep_merge` in src/harness/codex_profile.rs):
  tables are merged key by key, anything else is replaced by the overlay.
 */
module TomlMerge {
  import opened Orders

  /** Arrays and scalars are leaves: an overlay replaces them whole. */
  datatype Toml = Leaf(value: string) | Table(entries: map<string, Toml>)

  function Merge(base: Toml, overlay: Toml): Toml
    decreases overlay
  {
    if base.Table? && overlay.Table? then
      Table(map k | k in base.entries.Keys + overlay.entries.Keys ::
        if k !in overlay.entries then base.entries[k]
        else if k in base.entries then Merge(base.entries[k], overlay.entries[k])
        else overlay.entries[k])
    else overlay
  }

  /** The base entries after the overlay's keys in `done` have been laid over them. */
  ghost function Laid(base: map<string, Toml>, overlay: map<string, Toml>, done: set<string>): map<string, Toml>
    requires done <= overlay.Keys
  {
    map k | k in base.Keys + done :: if k !in done then base[k] else LaidAt(base, overlay, k)
  }

  ghost function LaidAt(base: map<string, Toml>, overlay: map<string, Toml>, k: string): Toml
    requires k in overlay
  {
    if k in base then Merge(base[k], overlay[k]) else overlay[k]
  }

  method DeepMerge(base: Toml, overlay: Toml) returns (r: Toml)
    ensures r == Merge(base, overlay)
    decreases overlay
  {
    if !(base.Table? && overlay.Table?) { return overlay; }
    var entries := base.entries;
    var left := overlay.entries.Keys;
    while left != {}
      invariant left <= overlay.entries.Keys
      invariant entries == Laid(base.entries, overlay.entries, overlay.entries.Keys - left)
      decreases |left|
    {
      var key :| key in left;
      var value := overlay.entries[key];
      var merged := value;
      if key in entries {
        var existing := entries[key];
        entries := entries - {key};
        merged := DeepMerge(existing, value);
      }
      LayOne(base.entries, overlay.entries, overlay.entries.Keys - left, key);
      entries := entries[key := merged];
      assert overlay.entries.Keys - left + {key} == overlay.entries.Keys - (left - {key});
      left := left - {key};
    }
    assert overlay.entries.Keys - {} == overlay.entries.Keys;
    LaidAll(base, overlay);
    r := Table(entries);
  }

  lemma LayOne(base: map<string, Toml>, overlay: map<string, Toml>, done: set<string>, k: string)
    requires done <= overlay.Keys && k in overlay && k !in done
    ensures Laid(base, overlay, done + {k}) == Laid(base, overlay, done)[k := LaidAt(base, overlay, k)]
    ensures k in Laid(base, overlay, done) <==> k in base
    ensures k in base ==> Laid(base, overlay, done)[k] == base[k]
    ensures (Laid(base, overlay, done) - {k})[k := LaidAt(base, overlay, k)] ==
      Laid(base, overlay, done)[k := LaidAt(base, overlay, k)]
  {}

  lemma LaidAll(base: Toml, overlay: Toml)
    requires base.Table? && overlay.Table?
    ensures Merge(base, overlay) == Table(Laid(base.entries, overlay.entries, overlay.entries.Keys))
  {}

  // ---- what a path leads to ----

  type Path = seq<string>

  function Lookup(t: Toml, p: Path): Option<Toml>
    decreases |p|
  {
    if p == [] then Some(t)
    else if t.Table? && p[0] in t.entries then Lookup(t.entries[p[0]], p[1..])
    else None
  }

  /** Following `p`, the overlay comes to a table that does not have the next key. */
  predicate Misses(overlay: Toml, p: Path)
    decreases |p|
  {
    p != [] && overlay.Table? && (p[0] !in overlay.entries || Misses(overlay.entries[p[0]], p[1..]))
  }

  /** Following `p`, the overlay comes to a leaf before the end. */
  predicate Cuts(overlay: Toml, p: Path)
    decreases |p|
  {
    p != [] && (overlay.Leaf? || (p[0] in overlay.entries && Cuts(overlay.entries[p[0]], p[1..])))
  }

  /** Every path is either in the overlay, missed by it or cut by it. */
  lemma {:induction false} PathCases(overlay: Toml, p: Path)
    ensures Lookup(overlay, p).Some? || Misses(overlay, p) || Cuts(overlay, p)
    ensures !(Lookup(overlay, p).Some? && Misses(overlay, p)) && !(Lookup(overlay, p).Some? && Cuts(overlay, p))
    ensures !(Misses(overlay, p) && Cuts(overlay, p))
    decreases |p|
  {
    if p != [] && overlay.Table? && p[0] in overlay.entries { PathCases(overlay.entries[p[0]], p[1..]); }
  }

  /**
    The whole meaning of a merge, path by path: a path the overlay misses keeps what the base has,
    a path it cuts leads nowhere, and where it has something the two are merged.
   */
  lemma {:induction false} MergeLookup(base: Toml, overlay: Toml, p: Path)
    ensures Misses(overlay, p) ==> Lookup(Merge(base, overlay), p) == Lookup(base, p)
    ensures Cuts(overlay, p) ==> Lookup(Merge(base, overlay), p) == None
    ensures Lookup(overlay, p).Some? ==> Lookup(Merge(base, overlay), p) == Some(
      match Lookup(base, p)
      case Some(b) => Merge(b, Lookup(overlay, p).value)
      case None => Lookup(overlay, p).value)
    decreases |p|
  {
    if p != [] && overlay.Table? {
      if base.Table? {
        if p[0] in overlay.entries && p[0] in base.entries {
          MergeLookup(base.entries[p[0]], overlay.entries[p[0]], p[1..]);
        } else if p[0] in overlay.entries {
          OverlayAlone(overlay.entries[p[0]], p[1..]);
        }
      } else {
        OverlayAlone(overlay, p);
      }
    }
  }

  lemma {:induction false} OverlayAlone(overlay: Toml, p: Path)
    ensures Misses(overlay, p) || Cuts(overlay, p) ==> Lookup(overlay, p) == None
    decreases |p|
  {
    if p != [] && overlay.Table? && p[0] in overlay.entries { OverlayAlone(overlay.entries[p[0]], p[1..]); }
  }

  /** Every leaf of the overlay survives at its path. */
  lemma {:induction false} OverlayLeafSurvives(base: Toml, overlay: Toml, p: Path, v: string)
    requires Lookup(overlay, p) == Some(Leaf(v))
    ensures Lookup(Merge(base, overlay), p) == Some(Leaf(v))
  {
    MergeLookup(base, overlay, p);
  }

  /** Applying the same overlay again changes nothing. */
  lemma {:induction false} MergeIdempotent(base: Toml, overlay: Toml)
    ensures Merge(Merge(base, overlay), overlay) == Merge(base, overlay)
    decreases overlay
  {
    if base.Table? && overlay.Table? {
      var once := Merge(base, overlay).entries;
      forall k | k in once ensures Merge(Merge(base, overlay), overlay).entries[k] == once[k] {
        if k in overlay.entries {
          if k in base.entries {
            MergeIdempotent(base.entries[k], overlay.entries[k]);
          } else {
            MergeSelf(overlay.entries[k]);
          }
        }
      }
    } else {
      MergeSelf(overlay);
    }
  }

  lemma {:induction false} MergeSelf(t: Toml)
    ensures Merge(t, t) == t
  {
    if t.Table? {
      forall k | k in t.entries ensures Merge(t, t).entries[k] == t.entries[k] { MergeSelf(t.entries[k]); }
      assert Merge(t, t).entries == t.entries;
    }
  }

  // ---- layering three configurations ----

  /** `c` has every key of `a`, at every level where both are tables. */
  predicate Covers(c: Toml, a: Toml)
    decreases c
  {
    a.Table? && c.Table? ==>
      forall k :: k in a.entries ==> k in c.entries && Covers(c.entries[k], a.entries[k])
  }

  /** Overlaying `c` on `a` forgets `a` exactly when `c` covers it. */
  lemma {:induction false} CoveredIsForgotten(a: Toml, c: Toml)
    ensures Merge(a, c) == c <==> Covers(c, a)
    decreases c
  {
    if a.Table? && c.Table? {
      forall k | k in a.entries && k in c.entries
        ensures Merge(a, c).entries[k] == c.entries[k] <==> Covers(c.entries[k], a.entries[k])
      {
        CoveredIsForgotten(a.entries[k], c.entries[k]);
      }
      if Covers(c, a) {
        assert Merge(a, c).entries == c.entries;
      }
      if Merge(a, c) == c {
        assert forall k :: k in a.entries ==> k in Merge(a, c).entries;
      }
    }
  }

  /**
    Layering is associative unless, at some path, a leaf sits between two tables of which the upper
    one does not cover the lower one.
   */
  predicate LayersAgree(a: Toml, b: Toml, c: Toml)
    decreases c
  {
    if a.Table? && b.Leaf? && c.Table? then Covers(c, a)
    else a.Table? && b.Table? && c.Table? ==>
      forall k :: k in a.entries && k in b.entries && k in c.entries ==>
        LayersAgree(a.entries[k], b.entries[k], c.entries[k])
  }

  lemma {:induction false} LayeringAssociative(a: Toml, b: Toml, c: Toml)
    ensures Merge(Merge(a, b), c) == Merge(a, Merge(b, c)) <==> LayersAgree(a, b, c)
    decreases c
  {
    if a.Table? && b.Leaf? && c.Table? {
      CoveredIsForgotten(a, c);
    } else if a.Table? && b.Table? && c.Table? {
      var left, right := Merge(Merge(a, b), c), Merge(a, Merge(b, c));
      assert left.entries.Keys == right.entries.Keys;
      forall k | k in left.entries
        ensures left.entries[k] == right.entries[k] <==>
          (k in a.entries && k in b.entries && k in c.entries ==>
            LayersAgree(a.entries[k], b.entries[k], c.entries[k]))
      {
        if k in a.entries && k in b.entries && k in c.entries {
          LayeringAssociative(a.entries[k], b.entries[k], c.entries[k]);
        }
      }
      assert left == right <==> left.entries == right.entries;
    }
  }

  /** The smallest failure: a table, a leaf in its place, and an empty table over it. */
  lemma TableLeafTable(k: string, v: string, w: string)
    ensures var a, b, c := Table(map[k := Leaf(v)]), Leaf(w), Table(map[]);
      Merge(Merge(a, b), c) != Merge(a, Merge(b, c))
  {
    var a, b, c := Table(map[k := Leaf(v)]), Leaf(w), Table(map[]);
    LayeringAssociative(a, b, c);
    assert k in a.entries && k !in c.entries;
  }
}
