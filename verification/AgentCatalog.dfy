/**
  The catalogue of installed agent profiles (src/agent_catalog.rs): for each slug and harness the
  active workspace's profile wins over the global one, and a slug without an explicit harness
  resolves only when one harness implements it.
 */
module AgentCatalog {
  import opened Orders
  import Bundles

  type Harness = Bundles.Harness

  datatype Scope = Global | Workspace(root: string)

  datatype Profile = Profile(slug: string, harness: Harness, scope: Scope, path: string)

  /** A slug and the harness that implements it. */
  type Key = (string, Harness)

  function KeyOf(p: Profile): Key { (p.slug, p.harness) }

  function ScopeText(s: Scope): string {
    match s case Global => "global" case Workspace(root) => root
  }

  /** The scopes are written alike: the global one reads "global". */
  predicate SameScopeText(a: Scope, b: Scope) {
    match (a, b)
    case (Global, Global) => true
    case (Workspace(r), Workspace(q)) => r == q
    case (Global, Workspace(q)) => q == "global"
    case (Workspace(r), Global) => r == "global"
  }

  /** No two profiles share scope, harness and slug. */
  ghost predicate UniqueSources(profiles: seq<Profile>) {
    forall i, j :: 0 <= i < j < |profiles| ==>
      !(profiles[i].slug == profiles[j].slug && profiles[i].harness == profiles[j].harness
        && SameScopeText(profiles[i].scope, profiles[j].scope))
  }

  method ValidateUniqueSources(profiles: seq<Profile>) returns (ok: bool)
    ensures ok <==> UniqueSources(profiles)
  {
    var seen: set<(string, Key)> := {};
    for i := 0 to |profiles|
      invariant UniqueSources(profiles[..i])
      invariant seen == set j | 0 <= j < i :: (ScopeText(profiles[j].scope), KeyOf(profiles[j]))
    {
      var key := (ScopeText(profiles[i].scope), KeyOf(profiles[i]));
      if key in seen { return false; }
      seen := seen + {key};
    }
    assert profiles[..|profiles|] == profiles;
    ok := true;
  }

  predicate InScope(p: Profile, active: Option<string>) {
    p.scope.Global? || active == Some(p.scope.root)
  }

  // ---- selection ----

  type Selection = map<Key, Profile>

  function Consider(selected: Selection, p: Profile, active: Option<string>): Selection {
    var key := KeyOf(p);
    if !InScope(p, active) || (key in selected && selected[key].scope.Workspace?) then selected
    else selected[key := p]
  }

  function Select(profiles: seq<Profile>, active: Option<string>): Selection {
    if profiles == [] then map[] else
      Consider(Select(profiles[..|profiles| - 1], active), profiles[|profiles| - 1], active)
  }

  method SelectProfiles(profiles: seq<Profile>, active: Option<string>) returns (selected: Selection)
    ensures selected == Select(profiles, active)
  {
    selected := map[];
    for i := 0 to |profiles|
      invariant selected == Select(profiles[..i], active)
    {
      assert profiles[..i + 1][..i] == profiles[..i];
      var p := profiles[i];
      if InScope(p, active) {
        var key := KeyOf(p);
        if !(key in selected && selected[key].scope.Workspace?) { selected := selected[key := p]; }
      }
    }
    assert profiles[..|profiles|] == profiles;
  }

  /** `p` is a profile for `k` that applies in the active workspace. */
  predicate Applies(profiles: seq<Profile>, active: Option<string>, k: Key, p: Profile) {
    && p in profiles && p.slug == k.0 && p.harness == k.1
    && (p.scope == Global || (active.Some? && p.scope == Workspace(active.value)))
  }

  /** What is selected for `k`: a workspace profile if one applies, and otherwise a global one. */
  lemma {:induction false} SelectionMeans(profiles: seq<Profile>, active: Option<string>, k: Key)
    ensures k in Select(profiles, active) <==> exists p :: Applies(profiles, active, k, p)
    ensures k in Select(profiles, active) ==> Applies(profiles, active, k, Select(profiles, active)[k])
    ensures k in Select(profiles, active) && Select(profiles, active)[k].scope.Global? ==>
      forall p :: Applies(profiles, active, k, p) ==> p.scope.Global?
  {
    if profiles != [] {
      var front, last := profiles[..|profiles| - 1], profiles[|profiles| - 1];
      assert profiles == front + [last];
      SelectionMeans(front, active, k);
      forall p ensures Applies(profiles, active, k, p) <==>
        Applies(front, active, k, p) || (p == last && KeyOf(last) == k && InScope(last, active))
      {}
      if k in Select(front, active) {
        assert Applies(profiles, active, k, Select(front, active)[k]);
      } else if KeyOf(last) == k && InScope(last, active) {
        assert Applies(profiles, active, k, last);
      }
    }
  }

  lemma SameScopeSameProfile(profiles: seq<Profile>, p: Profile, q: Profile)
    requires UniqueSources(profiles) && p in profiles && q in profiles
    requires KeyOf(p) == KeyOf(q) && p.scope == q.scope
    ensures p == q
  {
    var i :| 0 <= i < |profiles| && profiles[i] == p;
    var j :| 0 <= j < |profiles| && profiles[j] == q;
  }

  /** A selected profile is the one and only applicable profile of its scope. */
  lemma SelectionUnique(profiles: seq<Profile>, active: Option<string>, k: Key, p: Profile)
    requires UniqueSources(profiles)
    ensures k in Select(profiles, active) && Select(profiles, active)[k] == p <==>
      Applies(profiles, active, k, p) && (p.scope.Global? ==>
        forall q :: Applies(profiles, active, k, q) ==> q.scope.Global?)
  {
    SelectionMeans(profiles, active, k);
    if Applies(profiles, active, k, p) && k in Select(profiles, active) {
      var s := Select(profiles, active)[k];
      if s.scope == p.scope { SameScopeSameProfile(profiles, s, p); }
    }
  }

  /** Which profiles are selected does not depend on the order of the list. */
  lemma SelectionForgetsOrder(a: seq<Profile>, b: seq<Profile>, active: Option<string>)
    requires UniqueSources(a) && UniqueSources(b) && forall p :: p in a <==> p in b
    ensures Select(a, active) == Select(b, active)
  {
    forall k ensures k in Select(a, active) <==> k in Select(b, active)
      ensures k in Select(a, active) ==> Select(a, active)[k] == Select(b, active)[k]
    {
      assert forall p :: Applies(a, active, k, p) <==> Applies(b, active, k, p);
      SelectionMeans(a, active, k);
      SelectionMeans(b, active, k);
      if k in Select(a, active) {
        SelectionUnique(a, active, k, Select(a, active)[k]);
        SelectionUnique(b, active, k, Select(a, active)[k]);
      }
    }
  }

  // ---- resolution ----

  datatype Resolution = Found(profile: Profile) | NoSuchAgent | NoSuchHarness | SeveralHarnesses

  /** The harnesses that implement a slug here. */
  ghost function Implementations(profiles: seq<Profile>, active: Option<string>, slug: string): set<Harness> {
    set k | k in Select(profiles, active) && k.0 == slug :: k.1
  }

  lemma ImplementationsMean(profiles: seq<Profile>, active: Option<string>, slug: string, h: Harness)
    ensures h in Implementations(profiles, active, slug) <==>
      exists p :: Applies(profiles, active, (slug, h), p)
  {
    SelectionMeans(profiles, active, (slug, h));
    assert h in Implementations(profiles, active, slug) <==> (slug, h) in Select(profiles, active);
  }

  /**
    Without a preferred harness a slug resolves exactly when one harness implements it here; with
    one, exactly when that harness does. What is found is the selected profile.
   */
  method Resolve(profiles: seq<Profile>, slug: string, active: Option<string>, preferred: Option<Harness>)
    returns (r: Resolution)
    ensures r.NoSuchAgent? <==> Implementations(profiles, active, slug) == {}
    ensures preferred.Some? ==> (r.Found? <==> preferred.value in Implementations(profiles, active, slug))
    ensures preferred.None? ==> (r.Found? <==> |Implementations(profiles, active, slug)| == 1)
    ensures r.Found? ==> r.profile.slug == slug && (preferred.Some? ==> r.profile.harness == preferred.value)
    ensures r.Found? ==>
      KeyOf(r.profile) in Select(profiles, active) && Select(profiles, active)[KeyOf(r.profile)] == r.profile
  {
    var selected := SelectProfiles(profiles, active);
    forall k | k in selected ensures KeyOf(selected[k]) == k { SelectionMeans(profiles, active, k); }
    var harnesses := set k | k in selected && k.0 == slug :: k.1;
    assert harnesses == Implementations(profiles, active, slug);
    if harnesses == {} { return NoSuchAgent; }
    if preferred.Some? {
      var key := (slug, preferred.value);
      return if key in selected then Found(selected[key]) else NoSuchHarness;
    }
    if |harnesses| == 1 {
      var h :| h in harnesses;
      assert (slug, h) in selected;
      return Found(selected[(slug, h)]);
    }
    return SeveralHarnesses;
  }
}
