/**
  Harness bundles (src/harness/config.rs): a configured bundle is found, or a new one is added under
  a name that is still free. Existing entries are never touched.
 */
module Bundles {
  import opened Orders
  import opened Text

  datatype Harness = ClaudeCode | Codex | Opencode | Grok | Goose | Hermes | Unknown

  datatype Transport = Pty | Acp | AppServer

  datatype Bundle = Bundle(harness: Harness, transport: Transport, args: seq<string>)

  datatype Error = EmptyName | Unsupported | Ambiguous

  datatype Result<T> = Ok(value: T) | Err(error: Error)

  function Slug(h: Harness): string {
    match h
    case ClaudeCode => "claude" case Codex => "codex" case Opencode => "opencode" case Grok => "grok"
    case Goose => "goose" case Hermes => "hermes" case Unknown => "unknown"
  }

  function TransportName(t: Transport): string {
    match t case Pty => "pty" case Acp => "acp" case AppServer => "app-server"
  }

  /** The cells of the driver table (src/harness/driver.rs). */
  predicate HasDriver(h: Harness, t: Transport) {
    match t
    case Pty => h != Unknown
    case Acp => h == ClaudeCode || h == Opencode || h == Goose || h == Hermes
    case AppServer => h == Codex
  }

  // ---- suffixes ----

  function Decimal(n: nat): (s: string)
    ensures s != [] && Value(s) == n
  {
    if n < 10 then [(n + '0' as int) as char]
    else
      var front, last := Decimal(n / 10), (n % 10 + '0' as int) as char;
      assert (front + [last])[..|front|] == front;
      front + [last]
  }

  /** What a decimal numeral stands for: so different numbers have different numerals. */
  function Value(s: string): int {
    if s == [] then 0 else Value(s[..|s| - 1]) * 10 + (s[|s| - 1] as int - '0' as int)
  }

  function Candidate(base: string, k: nat): string { base + "-" + Decimal(k) }

  lemma CandidatesDiffer(base: string, j: nat, k: nat)
    requires Candidate(base, j) == Candidate(base, k)
    ensures j == k
  {
    var front := base + "-";
    assert Decimal(j) == (front + Decimal(j))[|front|..] && Decimal(k) == (front + Decimal(k))[|front|..];
  }

  ghost function Tried(base: string, k: nat): set<string> {
    set j | 2 <= j < k :: Candidate(base, j)
  }

  lemma {:induction false} TriedSize(base: string, k: nat)
    requires 2 <= k
    ensures |Tried(base, k)| == k - 2
  {
    if k == 2 {
      assert Tried(base, 2) == {};
    } else {
      TriedSize(base, k - 1);
      assert Candidate(base, k - 1) !in Tried(base, k - 1) by {
        forall j | 2 <= j < k - 1 ensures Candidate(base, j) != Candidate(base, k - 1) {
          if Candidate(base, j) == Candidate(base, k - 1) { CandidatesDiffer(base, j, k - 1); }
        }
      }
      assert Tried(base, k) == Tried(base, k - 1) + {Candidate(base, k - 1)};
    }
  }

  /** Taken names cannot outnumber the bundles. */
  lemma Pigeonhole(taken: set<string>, base: string, k: nat)
    requires 2 <= k && base in taken && Tried(base, k) <= taken
    ensures k - 1 <= |taken|
  {
    TriedSize(base, k);
    assert base !in Tried(base, k) by {
      assert forall j: nat :: |Candidate(base, j)| > |base|;
    }
    assert |Tried(base, k) + {base}| == k - 1;
    SubsetSize(Tried(base, k) + {base}, taken);
  }

  /** The first free name: the base itself, or the least suffix from 2 on. */
  ghost predicate IsFreeName(name: string, base: string, taken: set<string>) {
    && name !in taken
    && (name == base || (base in taken && exists k :: 2 <= k <= |taken| + 1 && IsLeast(name, base, taken, k)))
  }

  ghost predicate IsLeast(name: string, base: string, taken: set<string>, k: nat) {
    name == Candidate(base, k) && Tried(base, k) <= taken
  }

  method FreeName(base: string, taken: set<string>) returns (name: string)
    ensures IsFreeName(name, base, taken)
    ensures name !in taken && (name == base <==> base !in taken)
    ensures name != base ==> exists k :: 2 <= k <= |taken| + 1 && name == base + "-" + Decimal(k)
  {
    if base !in taken { return base; }
    var suffix := 2;
    assert Tried(base, 2) == {};
    while Candidate(base, suffix) in taken
      invariant 2 <= suffix && Tried(base, suffix) <= taken
      decreases |taken| + 2 - suffix
    {
      assert Tried(base, suffix + 1) == Tried(base, suffix) + {Candidate(base, suffix)};
      Pigeonhole(taken, base, suffix + 1);
      suffix := suffix + 1;
    }
    Pigeonhole(taken, base, suffix);
    name := Candidate(base, suffix);
    assert IsLeast(name, base, taken, suffix);
  }

  // ---- the configuration ----

  function Matching(bundles: map<string, Bundle>, h: Harness, t: Transport): set<string> {
    set n | n in bundles && bundles[n].harness == h && bundles[n].transport == t
  }

  class HarnessesConfig {
    var bundles: map<string, Bundle>

    constructor (bundles: map<string, Bundle>)
      ensures this.bundles == bundles
    {
      this.bundles := bundles;
    }

    /** Reuses the first equal bundle in name order, or adds one under the first free name. */
    method EnsureBundle(canonical: string, desired: Bundle) returns (r: Result<(string, bool)>)
      modifies this
      ensures Trim(canonical) == "" <==> r.Err?
      ensures r.Err? ==> bundles == old(bundles) && r.error == EmptyName
      ensures r.Ok? && !r.value.1 ==>
        && bundles == old(bundles) && r.value.0 in bundles && bundles[r.value.0] == desired
        && forall n :: n in bundles && bundles[n] == desired ==> StrLe(r.value.0, n)
      ensures r.Ok? && r.value.1 ==>
        && (forall n :: n in old(bundles) ==> old(bundles)[n] != desired)
        && IsFreeName(r.value.0, Trim(canonical), old(bundles).Keys)
        && bundles == old(bundles)[r.value.0 := desired]
    {
      var base := Trim(canonical);
      if base == "" { return Err(EmptyName); }
      var names := WalkKeys(bundles.Keys);
      for i := 0 to |names|
        invariant bundles == old(bundles)
        invariant forall k :: 0 <= k < i ==> names[k] in bundles && bundles[names[k]] != desired
      {
        assert names[i] in names;
        if bundles[names[i]] == desired {
          forall n | n in bundles && bundles[n] == desired ensures StrLe(names[i], n) {
            assert n in names;
            var k :| 0 <= k < |names| && names[k] == n;
            StrLeTotal(n, n);
          }
          return Ok((names[i], false));
        }
      }
      assert forall n :: n in bundles ==> n in names;
      var name := FreeName(base, bundles.Keys);
      bundles := bundles[name := desired];
      r := Ok((name, true));
    }

    /** Afterwards exactly one bundle serves the cell, and it is the one returned. */
    method ResolveOrCreateHosted(h: Harness, t: Transport) returns (r: Result<(string, bool)>)
      modifies this
      ensures r.Err? <==> !HasDriver(h, t) || |Matching(old(bundles), h, t)| > 1
      ensures r.Err? ==> bundles == old(bundles)
      ensures r.Err? ==> r.error == if HasDriver(h, t) then Ambiguous else Unsupported
      ensures r.Ok? ==> Matching(bundles, h, t) == {r.value.0}
      ensures r.Ok? ==> forall n :: n in bundles ==>
        (bundles[n].harness == h && bundles[n].transport == t <==> n == r.value.0)
      ensures r.Ok? && r.value.1 ==>
        IsFreeName(r.value.0, Slug(h) + "-" + TransportName(t), old(bundles).Keys)
      ensures r.Ok? ==> (r.value.1 <==> Matching(old(bundles), h, t) == {})
      ensures r.Ok? && !r.value.1 ==> bundles == old(bundles)
      ensures r.Ok? && r.value.1 ==>
        r.value.0 !in old(bundles) && bundles == old(bundles)[r.value.0 := Bundle(h, t, [])]
    {
      if !HasDriver(h, t) { return Err(Unsupported); }
      var candidates := set n | n in bundles && bundles[n].harness == h && bundles[n].transport == t;
      assert candidates == Matching(bundles, h, t);
      if |candidates| == 1 {
        var name :| name in candidates;
        assert candidates == {name} by { OnlyOne(candidates, name); }
        assert forall n :: n in bundles && bundles[n].harness == h && bundles[n].transport == t ==> n in candidates;
        return Ok((name, false));
      }
      if candidates != {} { assert |candidates| > 1; return Err(Ambiguous); }
      NameIsTrimmed(h, t);
      r := EnsureBundle(CanonicalName(h, t), Bundle(h, t, []));
      NewCell(old(bundles), r.value.0, h, t);
    }

    /** Asking again returns the same name and creates nothing. */
    method ResolveTwice(h: Harness, t: Transport) returns (first: Result<(string, bool)>, again: Result<(string, bool)>)
      modifies this
      ensures first.Ok? ==> again == Ok((first.value.0, false)) && Matching(bundles, h, t) == {first.value.0}
      ensures first.Err? ==> again == first && bundles == old(bundles)
    {
      first := ResolveOrCreateHosted(h, t);
      again := ResolveOrCreateHosted(h, t);
    }
  }

  function CanonicalName(h: Harness, t: Transport): string {
    Slug(h) + "-" + TransportName(t)
  }

  /** Neither a harness nor a transport name starts or ends with white space. */
  lemma {:induction false} NamesAreVisible(h: Harness, t: Transport)
    ensures Slug(h) != "" && !IsWhitespace(Slug(h)[0] as int)
    ensures TransportName(t) != "" && !IsWhitespace(TransportName(t)[|TransportName(t)| - 1] as int)
  {}

  lemma {:induction false} VisibleEnds(front: string, back: string)
    requires front != "" && !IsWhitespace(front[0] as int)
    requires back != "" && !IsWhitespace(back[|back| - 1] as int)
    ensures Trim(front + "-" + back) == front + "-" + back != ""
  {
    var name := front + "-" + back;
    assert name[0] == front[0] && name[|name| - 1] == back[|back| - 1];
    var i, j := TrimMeans(name);
    assert i == 0 && j == |name|;
  }

  lemma {:induction false} NameIsTrimmed(h: Harness, t: Transport)
    ensures Trim(CanonicalName(h, t)) == CanonicalName(h, t) != ""
  {
    NamesAreVisible(h, t);
    VisibleEnds(Slug(h), TransportName(t));
  }

  /** The cells that can be hosted, and the names their bundles get. */
  lemma {:induction false} HostedCells(h: Harness, t: Transport)
    ensures HasDriver(h, t) <==> (h, t) in {
      (ClaudeCode, Pty), (Codex, Pty), (Opencode, Pty), (Grok, Pty), (Goose, Pty), (Hermes, Pty),
      (ClaudeCode, Acp), (Opencode, Acp), (Goose, Acp), (Hermes, Acp), (Codex, AppServer)}
    ensures CanonicalName(ClaudeCode, Pty) == "claude-pty" && CanonicalName(Codex, AppServer) == "codex-app-server"
    ensures CanonicalName(Opencode, Acp) == "opencode-acp" && CanonicalName(Grok, Pty) == "grok-pty"
    ensures CanonicalName(Goose, Acp) == "goose-acp" && CanonicalName(Hermes, Acp) == "hermes-acp"
  {}

  /** A bundle added to an empty cell is the only one there. */
  lemma NewCell(bundles: map<string, Bundle>, name: string, h: Harness, t: Transport)
    requires Matching(bundles, h, t) == {}
    ensures Matching(bundles[name := Bundle(h, t, [])], h, t) == {name}
    ensures forall n :: n in bundles ==> bundles[n] != Bundle(h, t, [])
  {
    forall n | n in bundles ensures bundles[n] != Bundle(h, t, []) {
      assert n !in Matching(bundles, h, t);
    }
  }

  lemma OnlyOne(s: set<string>, x: string)
    requires |s| == 1 && x in s
    ensures s == {x}
  {
    assert |s - {x}| == 0;
  }
}
