/**
  The Goose context file (src/goose_integration.rs): every hook prepends a delta to one file and
  cuts the result at 65536 bytes on a character boundary. Text is UTF-8 bytes, with the encoding of
  section 3 of RFC 3629.
 */
module GooseContext {
  import opened Orders
  import opened Text

  newtype byte = b: int | 0 <= b < 256

  type Bytes = seq<byte>

  const MAX_MOIM_BYTES: nat := 65536

  // ---- UTF-8 ----

  /** A continuation byte, 10xxxxxx. */
  predicate Tail(b: byte) { 0x80 <= b < 0xC0 }

  /** The length of a well-formed character at the start of `s`, or 0 (RFC 3629, section 4). */
  function CharLen(s: Bytes): (n: nat)
    ensures n <= 4 && n <= |s|
    ensures 0 < n ==> !Tail(s[0])
    ensures forall i :: 0 < i < n ==> Tail(s[i])
  {
    if s == [] then 0
    else if s[0] < 0x80 then 1
    else if 0xC2 <= s[0] < 0xE0 then
      if 2 <= |s| && Tail(s[1]) then 2 else 0
    else if 0xE0 <= s[0] < 0xF0 then
      if 3 <= |s| && Tail(s[1]) && Tail(s[2])
        && (s[0] == 0xE0 ==> 0xA0 <= s[1]) && (s[0] == 0xED ==> s[1] < 0xA0) then 3 else 0
    else if 0xF0 <= s[0] < 0xF5 then
      if 4 <= |s| && Tail(s[1]) && Tail(s[2]) && Tail(s[3])
        && (s[0] == 0xF0 ==> 0x90 <= s[1]) && (s[0] == 0xF4 ==> s[1] < 0x90) then 4 else 0
    else 0
  }

  /** The code point of the character at the start of `s`. */
  function CodePoint(s: Bytes): int
    requires 0 < CharLen(s)
  {
    match CharLen(s)
    case 1 => s[0] as int
    case 2 => (s[0] as int - 0xC0) * 64 + (s[1] as int - 0x80)
    case 3 => (s[0] as int - 0xE0) * 4096 + (s[1] as int - 0x80) * 64 + (s[2] as int - 0x80)
    case _ =>
      (s[0] as int - 0xF0) * 262144 + (s[1] as int - 0x80) * 4096 + (s[2] as int - 0x80) * 64
        + (s[3] as int - 0x80)
  }

  predicate Valid(s: Bytes) {
    s == [] || (0 < CharLen(s) && Valid(s[CharLen(s)..]))
  }

  /** `s.trim().is_empty()`: every character is white space. */
  predicate Blank(s: Bytes)
    requires Valid(s)
  {
    s == [] || (IsWhitespace(CodePoint(s)) && Blank(s[CharLen(s)..]))
  }

  /** `str::is_char_boundary`. */
  predicate IsBoundary(s: Bytes, i: nat) {
    i == 0 || i == |s| || (i < |s| && !Tail(s[i]))
  }

  // ---- cutting ----

  /** The last boundary at or below `end`. */
  function LastBoundary(s: Bytes, end: nat): (k: nat)
    requires end <= |s|
    ensures k <= end && IsBoundary(s, k)
    ensures forall i :: k < i <= end ==> !IsBoundary(s, i)
  {
    if IsBoundary(s, end) then end else LastBoundary(s, end - 1)
  }

  function Bounded(s: Bytes, cap: nat): (r: Bytes)
    ensures |r| <= cap && r <= s
  {
    if |s| <= cap then s else s[..LastBoundary(s, cap)]
  }

  method BoundedUtf8(value: Bytes) returns (r: Bytes)
    ensures r == Bounded(value, MAX_MOIM_BYTES)
  {
    if |value| <= MAX_MOIM_BYTES { return value; }
    var end: nat := MAX_MOIM_BYTES;
    while !IsBoundary(value, end)
      invariant end <= MAX_MOIM_BYTES
      invariant LastBoundary(value, end) == LastBoundary(value, MAX_MOIM_BYTES)
      decreases end
    {
      end := end - 1;
    }
    r := value[..end];
  }

  // ---- characters and boundaries ----

  /** A character is recognised by its own bytes alone. */
  lemma CharLenPrefix(s: Bytes, k: nat)
    requires k <= |s|
    ensures 0 < CharLen(s) <= k ==> CharLen(s[..k]) == CharLen(s) && CodePoint(s[..k]) == CodePoint(s)
    ensures 0 < CharLen(s[..k]) ==> CharLen(s) == CharLen(s[..k])
  {}

  lemma {:induction false} CharLenConcat(a: Bytes, b: Bytes)
    requires 0 < CharLen(a)
    ensures CharLen(a + b) == CharLen(a) && CodePoint(a + b) == CodePoint(a)
    ensures (a + b)[CharLen(a)..] == a[CharLen(a)..] + b
  {
    assert (a + b)[..|a|] == a;
    CharLenPrefix(a + b, |a|);
  }

  lemma {:induction false} ValidConcat(a: Bytes, b: Bytes)
    requires Valid(a) && Valid(b)
    ensures Valid(a + b) && (Blank(a + b) <==> Blank(a) && Blank(b))
  {
    if a == [] {
      assert a + b == b;
    } else {
      CharLenConcat(a, b);
      ValidConcat(a[CharLen(a)..], b);
    }
  }

  /** Inside a character there is no boundary, and what is cut off there is not valid. */
  lemma {:induction false} InsideChar(s: Bytes, k: nat)
    requires 0 < k < CharLen(s)
    ensures !IsBoundary(s, k) && !Valid(s[..k])
  {
    CharLenPrefix(s, k);
  }

  /** Past the first character the question is one about the rest. */
  lemma {:induction false} PastChar(s: Bytes, k: nat)
    requires 0 < CharLen(s) <= k < |s| && Valid(s[CharLen(s)..])
    ensures var n := CharLen(s);
      && (IsBoundary(s, k) <==> IsBoundary(s[n..], k - n))
      && (Valid(s[..k]) <==> Valid(s[n..][..k - n])) && s[n..][k - n..] == s[k..]
  {
    var n := CharLen(s);
    CharLenPrefix(s, k);
    assert s[..k][n..] == s[n..][..k - n];
    assert s[n..][k - n] == s[k];
  }

  /** In valid text, the boundaries are exactly the ends of valid prefixes. */
  lemma {:induction false} BoundarySplits(s: Bytes, k: nat)
    requires Valid(s) && k <= |s|
    ensures IsBoundary(s, k) <==> Valid(s[..k])
    ensures IsBoundary(s, k) ==> Valid(s[k..])
  {
    assert s[..0] == [] && s[0..] == s && s[..|s|] == s;
    if 0 < k < |s| {
      var n := CharLen(s);
      if k < n {
        InsideChar(s, k);
      } else {
        PastChar(s, k);
        BoundarySplits(s[n..], k - n);
      }
    }
  }

  /** A boundary is never more than three bytes back. */
  lemma {:induction false} BoundaryWithinThree(s: Bytes, end: nat)
    requires Valid(s) && end <= |s|
    ensures exists k :: end - 3 <= k <= end && 0 <= k && IsBoundary(s, k)
  {
    if end <= 3 {
      assert IsBoundary(s, 0);
    } else {
      var n := CharLen(s);
      BoundaryWithinThree(s[n..], end - n);
      var k :| end - n - 3 <= k <= end - n && 0 <= k && IsBoundary(s[n..], k);
      BoundarySplits(s[n..], k);
      assert IsBoundary(s, k + n) by {
        if k < |s[n..]| { assert s[n..][k] == s[k + n]; }
      }
    }
  }

  lemma LastBoundaryWithinThree(s: Bytes, end: nat)
    requires Valid(s) && end <= |s|
    ensures end - 3 <= LastBoundary(s, end)
  {
    BoundaryWithinThree(s, end);
  }

  /** The cut text is the longest valid prefix that fits. */
  lemma BoundedIsLongestValidPrefix(s: Bytes, cap: nat, p: Bytes)
    requires Valid(s)
    ensures Valid(Bounded(s, cap))
    ensures p <= s && |p| <= cap && Valid(p) ==> p <= Bounded(s, cap)
  {
    if |s| > cap {
      BoundarySplits(s, LastBoundary(s, cap));
      if p <= s && |p| <= cap && Valid(p) {
        assert p == s[..|p|];
        BoundarySplits(s, |p|);
      }
    }
  }

  /** Two texts that agree beyond the cap are cut alike. */
  lemma BoundedAgrees(u: Bytes, v: Bytes, cap: nat)
    requires u <= v && cap < |u|
    ensures Bounded(u, cap) == Bounded(v, cap)
  {
    var i, j := LastBoundary(u, cap), LastBoundary(v, cap);
    assert IsBoundary(v, i) && IsBoundary(u, j);
    assert u == v[..|u|];
    assert u[..i] == v[..j];
  }

  /** Cutting early does not matter when at least three bytes are put in front. */
  lemma PrependAfterCut(front: Bytes, text: Bytes, cap: nat)
    requires Valid(text) && 3 <= |front|
    ensures Bounded(front + Bounded(text, cap), cap) == Bounded(front + text, cap)
  {
    if |text| > cap {
      var e := LastBoundary(text, cap);
      LastBoundaryWithinThree(text, cap);
      NoTailAtBoundary(text, e);
      CutInFront(front, text, e, cap);
    }
  }

  lemma CutInFront(front: Bytes, text: Bytes, e: nat, cap: nat)
    requires e < |text| && !Tail(text[e]) && cap <= |front| + e
    ensures Bounded(front + text[..e], cap) == Bounded(front + text, cap)
  {
    var u, v := front + text[..e], front + text;
    assert u == v[..|u|] && v[|u|] == text[e];
    if |u| > cap {
      BoundedAgrees(u, v, cap);
    } else {
      assert IsBoundary(v, cap);
    }
  }

  lemma NoTailAtBoundary(s: Bytes, k: nat)
    requires Valid(s) && k < |s| && IsBoundary(s, k)
    ensures !Tail(s[k])
  {
    BoundarySplits(s, k);
    assert s[k..][0] == s[k];
  }

  // ---- text as characters ----

  /** A Unicode scalar value. */
  predicate Scalar(c: int) { 0 <= c < 0xD800 || 0xE000 <= c < 0x110000 }

  /** The encoding of one character (RFC 3629, section 3). */
  function Encode(c: int): Bytes
    requires Scalar(c)
  {
    if c < 0x80 then [c as byte]
    else if c < 0x800 then [(0xC0 + c / 64) as byte, (0x80 + c % 64) as byte]
    else if c < 0x10000 then [(0xE0 + c / 4096) as byte, (0x80 + c / 64 % 64) as byte, (0x80 + c % 64) as byte]
    else [(0xF0 + c / 262144) as byte, (0x80 + c / 4096 % 64) as byte, (0x80 + c / 64 % 64) as byte,
          (0x80 + c % 64) as byte]
  }

  lemma {:induction false} DecodeThree(c: int)
    requires Scalar(c) && 0x800 <= c < 0x10000
    ensures CharLen(Encode(c)) == 3 && CodePoint(Encode(c)) == c
  {
    var x, y, z := c / 4096, c / 64 % 64, c % 64;
    assert c == x * 4096 + y * 64 + z;
    assert Encode(c) == [(0xE0 + x) as byte, (0x80 + y) as byte, (0x80 + z) as byte];
  }

  lemma {:induction false} DecodeFour(c: int)
    requires Scalar(c) && 0x10000 <= c
    ensures CharLen(Encode(c)) == 4 && CodePoint(Encode(c)) == c
  {
    var w, x, y, z := c / 262144, c / 4096 % 64, c / 64 % 64, c % 64;
    assert c == w * 262144 + x * 4096 + y * 64 + z;
    assert Encode(c) == [(0xF0 + w) as byte, (0x80 + x) as byte, (0x80 + y) as byte, (0x80 + z) as byte];
  }

  lemma {:induction false} DecodeEncoded(c: int)
    requires Scalar(c)
    ensures CharLen(Encode(c)) == |Encode(c)| && CodePoint(Encode(c)) == c
  {
    if 0x800 <= c < 0x10000 {
      DecodeThree(c);
    } else if 0x10000 <= c {
      DecodeFour(c);
    }
  }

  /** Every character recognised in text is the encoding of a scalar value. */
  lemma {:induction false} EncodeDecoded(s: Bytes)
    requires 0 < CharLen(s)
    ensures Scalar(CodePoint(s)) && s[..CharLen(s)] == Encode(CodePoint(s))
  {
    var n := CharLen(s);
    if n == 2 {
      var a, b := s[0] as int - 0xC0, s[1] as int - 0x80;
      assert (a * 64 + b) / 64 == a && (a * 64 + b) % 64 == b;
    } else if n == 3 {
      ThreeParts(s[0] as int - 0xE0, s[1] as int - 0x80, s[2] as int - 0x80);
    } else if n == 4 {
      FourParts(s[0] as int - 0xF0, s[1] as int - 0x80, s[2] as int - 0x80, s[3] as int - 0x80);
    }
  }

  lemma Parts(q: int, r: int)
    requires 0 <= q && 0 <= r < 64
    ensures (q * 64 + r) / 64 == q && (q * 64 + r) % 64 == r
  {}

  lemma {:induction false} ThreeParts(a: int, b: int, c: int)
    requires 0 <= a && 0 <= b < 64 && 0 <= c < 64
    ensures var n := a * 4096 + b * 64 + c; n / 4096 == a && n / 64 % 64 == b && n % 64 == c
  {
    Parts(a * 64 + b, c);
    Parts(a, b);
    assert a * 4096 + b * 64 + c == (a * 64 + b) * 64 + c;
  }

  lemma {:induction false} FourParts(a: int, b: int, c: int, d: int)
    requires 0 <= a && 0 <= b < 64 && 0 <= c < 64 && 0 <= d < 64
    ensures var n := a * 262144 + b * 4096 + c * 64 + d;
      n / 262144 == a && n / 4096 % 64 == b && n / 64 % 64 == c && n % 64 == d
  {
    var n := a * 262144 + b * 4096 + c * 64 + d;
    var m := a * 4096 + b * 64 + c;
    assert n == m * 64 + d;
    Parts(m, d);
    ThreeParts(a, b, c);
    assert n / 4096 == m / 64 && n / 262144 == m / 4096;
  }

  ghost predicate Scalars(cs: seq<int>) { forall i :: 0 <= i < |cs| ==> Scalar(cs[i]) }

  function EncodeAll(cs: seq<int>): Bytes
    requires Scalars(cs)
  {
    if cs == [] then [] else Encode(cs[0]) + EncodeAll(cs[1..])
  }

  ghost predicate AllWhite(cs: seq<int>) { forall i :: 0 <= i < |cs| ==> IsWhitespace(cs[i]) }

  lemma {:induction false} EncodeCons(c: int, rest: seq<int>)
    requires Scalar(c) && Scalars(rest)
    ensures Scalars([c] + rest) && EncodeAll([c] + rest) == Encode(c) + EncodeAll(rest)
    ensures AllWhite([c] + rest) <==> IsWhitespace(c) && AllWhite(rest)
  {
    var cs := [c] + rest;
    assert cs[1..] == rest && cs[0] == c;
    assert forall i :: 0 <= i < |rest| ==> cs[i + 1] == rest[i];
  }

  /** Valid text is the encoding of its characters, and is blank exactly if all of them are white space. */
  lemma {:induction false} ValidIsEncoded(s: Bytes) returns (cs: seq<int>)
    requires Valid(s)
    ensures Scalars(cs) && s == EncodeAll(cs) && (Blank(s) <==> AllWhite(cs))
  {
    if s == [] {
      cs := [];
    } else {
      var n, c := CharLen(s), CodePoint(s);
      EncodeDecoded(s);
      var tail := s[n..];
      assert s == s[..n] + tail;
      var rest := ValidIsEncoded(tail);
      EncodeCons(c, rest);
      cs := [c] + rest;
    }
  }

  /** And every encoding is valid text. */
  lemma {:induction false} EncodedIsValid(cs: seq<int>)
    requires Scalars(cs)
    ensures Valid(EncodeAll(cs))
  {
    if cs != [] {
      var one := Encode(cs[0]);
      DecodeEncoded(cs[0]);
      assert one[CharLen(one)..] == [];
      EncodedIsValid(cs[1..]);
      ValidConcat(one, EncodeAll(cs[1..]));
    }
  }

  // ---- the file ----

  const GAP: Bytes := [10, 10]

  /** What one hook leaves in the file. */
  function Prepend(file: Bytes, delta: Bytes, cap: nat): Bytes
    requires Valid(file)
  {
    Bounded(if Blank(file) then delta else delta + GAP + file, cap)
  }

  class ContextFile {
    /** No content when the file does not exist yet. */
    var content: Option<Bytes>

    ghost predicate Utf8()
      reads this
    {
      content.Some? ==> Valid(content.value)
    }

    /** `read_to_string(path).unwrap_or_default()`. */
    function Text(): (t: Bytes)
      reads this
    {
      match content case Some(c) => if Valid(c) then c else [] case None => []
    }

    constructor ()
      ensures Utf8() && Text() == []
    {
      content := None;
    }

    method AppendDelta(delta: Bytes)
      requires Utf8() && Valid(delta)
      modifies this
      ensures Utf8() && Text() == Prepend(old(Text()), delta, MAX_MOIM_BYTES)
      ensures Text() ==
        Bounded(if Blank(old(Text())) then delta else delta + [10, 10] + old(Text()), 65536)
      ensures |Text()| <= 65536
    {
      var previous := Text();
      var combined := if Blank(previous) then delta else delta + GAP + previous;
      if !Blank(previous) {
        GapIsValid();
        ValidConcat(delta, GAP);
        ValidConcat(delta + GAP, previous);
      }
      BoundedIsLongestValidPrefix(combined, MAX_MOIM_BYTES, []);
      var bounded := BoundedUtf8(combined);
      content := Some(bounded);
    }

    /** Only the two context hooks write, and only when they have something to say. */
    method SyncHookContext(hook: string, context: Option<Bytes>)
      requires Utf8() && (context.Some? ==> Valid(context.value))
      modifies this
      ensures Utf8()
      ensures Text() ==
        if (hook == "user-prompt-submit" || hook == "post-tool-use") && context.Some? && !Blank(context.value)
        then Prepend(old(Text()), context.value, MAX_MOIM_BYTES) else old(Text())
    {
      if hook == "user-prompt-submit" || hook == "post-tool-use" {
        if context.Some? && !Blank(context.value) {
          AppendDelta(context.value);
        }
      }
    }
  }

  // ---- the whole history ----

  /** Deltas as the hook hands them over: valid text that is not blank. */
  ghost predicate Deltas(ds: seq<Bytes>) {
    forall d :: d in ds ==> Valid(d) && !Blank(d)
  }

  lemma GapIsValid()
    ensures Valid(GAP)
  {
    assert GAP[1..][1..] == [];
  }

  /** The newest-first history, joined by blank lines. */
  ghost function Join(ds: seq<Bytes>): (j: Bytes)
    requires Deltas(ds)
    ensures Valid(j)
  {
    if ds == [] then []
    else if |ds| == 1 then assert ds[0] in ds; ds[0]
    else
      assert ds[0] in ds;
      GapIsValid();
      ValidConcat(ds[0], GAP);
      ValidConcat(ds[0] + GAP, Join(ds[1..]));
      ds[0] + GAP + Join(ds[1..])
  }

  /** The file after the deltas of `ds` (newest first) have been synced into an empty file. */
  ghost function Synced(ds: seq<Bytes>, cap: nat): (file: Bytes)
    requires Deltas(ds)
    ensures Valid(file) && |file| <= cap
  {
    if ds == [] then [] else
      var previous := Synced(ds[1..], cap);
      assert ds[0] in ds;
      GapIsValid();
      ValidConcat(ds[0], GAP);
      ValidConcat(ds[0] + GAP, previous);
      BoundedIsLongestValidPrefix(if Blank(previous) then ds[0] else ds[0] + GAP + previous, cap, []);
      Prepend(previous, ds[0], cap)
  }

  ghost predicate Faithful(ds: seq<Bytes>, cap: nat)
    requires Deltas(ds)
  {
    Synced(ds, cap) == Bounded(Join(ds), cap)
  }

  /** A non-blank delta in front decides whether the cut file is blank. */
  lemma BlankByNewest(d: Bytes, more: Bytes, cap: nat)
    requires Valid(d) && Valid(more) && Valid(d + more) && !Blank(d)
    ensures Valid(Bounded(d, cap)) && Valid(Bounded(d + more, cap))
    ensures Blank(Bounded(d + more, cap)) <==> Blank(Bounded(d, cap))
  {
    BoundedIsLongestValidPrefix(d, cap, []);
    BoundedIsLongestValidPrefix(d + more, cap, d);
    if |d| > cap {
      BoundedAgrees(d, d + more, cap);
    } else {
      PrefixNotBlank(d, Bounded(d + more, cap));
    }
  }

  lemma PrefixNotBlank(d: Bytes, text: Bytes)
    requires Valid(d) && Valid(text) && d <= text && !Blank(d)
    ensures !Blank(text)
  {
    assert d == text[..|d|];
    BoundarySplits(text, |d|);
    assert text == d + text[|d|..];
    ValidConcat(d, text[|d|..]);
  }

  /** When the previous file is taken for blank, its history survives only behind a full delta. */
  lemma ForgettingStep(d: Bytes, history: Bytes, cap: nat)
    ensures Bounded(d, cap) == Bounded(d + GAP + history, cap) <==> cap <= |d|
  {
    var v := d + GAP + history;
    assert d == v[..|d|];
    if |d| > cap {
      BoundedAgrees(d, v, cap);
    } else if |d| == cap {
      assert v[cap] == GAP[0] && IsBoundary(v, cap);
    } else {
      assert v[|d| + 1] == GAP[1] && IsBoundary(v, |d| + 1);
    }
  }

  lemma {:induction false} JoinStartsWithNewest(ds: seq<Bytes>) returns (more: Bytes)
    requires Deltas(ds) && ds != []
    ensures Valid(more) && Join(ds) == ds[0] + more
  {
    if |ds| == 1 {
      more := [];
    } else {
      more := GAP + Join(ds[1..]);
      GapIsValid();
      ValidConcat(GAP, Join(ds[1..]));
    }
  }

  /** The cut history is blank exactly when its newest delta is, once cut. */
  lemma {:induction false} CutHistoryBlank(ds: seq<Bytes>, cap: nat)
    requires Deltas(ds) && ds != []
    ensures Valid(Bounded(ds[0], cap)) && Valid(Bounded(Join(ds), cap))
    ensures Blank(Bounded(Join(ds), cap)) <==> Blank(Bounded(ds[0], cap))
  {
    assert ds[0] in ds;
    var more := JoinStartsWithNewest(ds);
    BlankByNewest(ds[0], more, cap);
  }

  /** One more delta keeps the file faithful exactly when the cut of the delta before it is not blank. */
  lemma FaithfulStep(ds: seq<Bytes>, cap: nat)
    requires Deltas(ds) && 2 <= |ds|
    requires Faithful(ds[1..], cap)
    ensures Valid(Bounded(ds[1], cap))
    ensures Faithful(ds, cap) <==> cap <= |ds[0]| || !Blank(Bounded(ds[1], cap))
  {
    CutHistoryBlank(ds[1..], cap);
    assert ds[0] in ds && ds[1..][0] == ds[1];
    if Blank(Synced(ds[1..], cap)) {
      ForgettingStep(ds[0], Join(ds[1..]), cap);
    } else {
      assert ds[0] != [];
      PrependAfterCut(ds[0] + GAP, Join(ds[1..]), cap);
    }
  }

  /** At each step the delta before it is not blank once cut, or the new one fills the file alone. */
  ghost predicate NeverForgets(ds: seq<Bytes>, cap: nat) {
    forall i :: 0 <= i < |ds| - 1 ==>
      cap <= |ds[i]| || (Valid(Bounded(ds[i + 1], cap)) && !Blank(Bounded(ds[i + 1], cap)))
  }

  /**
    After every hook the file is the cut of the whole newest-first history, if and only if every
    delta but the newest is not blank once cut, or is followed at once by one that fills the file.
   */
  lemma {:induction false} FileIsCutHistory(ds: seq<Bytes>, cap: nat)
    requires Deltas(ds)
    ensures (forall k :: 0 <= k <= |ds| ==> Deltas(ds[k..]) && Faithful(ds[k..], cap))
      <==> NeverForgets(ds, cap)
  {
    if |ds| <= 1 {
      forall k | 0 <= k <= |ds| ensures Deltas(ds[k..]) && Faithful(ds[k..], cap) {}
    } else {
      var rest := ds[1..];
      FileIsCutHistory(rest, cap);
      assert forall k :: 1 <= k <= |ds| ==> ds[k..] == rest[k - 1..];
      assert ds[0..] == ds;
      SplitNeverForgets(ds, cap);
      if NeverForgets(rest, cap) {
        assert rest[0..] == rest;
        assert Faithful(rest, cap);
        FaithfulStep(ds, cap);
      } else {
        var k :| 0 <= k <= |rest| && !(Deltas(rest[k..]) && Faithful(rest[k..], cap));
        assert ds[k + 1..] == rest[k..];
      }
    }
  }

  lemma SplitNeverForgets(ds: seq<Bytes>, cap: nat)
    requires 2 <= |ds|
    ensures NeverForgets(ds, cap) <==>
      && NeverForgets(ds[1..], cap)
      && (cap <= |ds[0]| || (Valid(Bounded(ds[1], cap)) && !Blank(Bounded(ds[1], cap))))
  {
    assert forall i :: 1 <= i < |ds| ==> ds[i] == ds[1..][i - 1];
  }

  // ---- what the file holds in any case ----

  ghost predicate BlankOnceCut(d: Bytes, cap: nat) {
    Valid(Bounded(d, cap)) && Blank(Bounded(d, cap))
  }

  /** The newest deltas, up to the first that is blank once cut and so lost to the hook after it. */
  ghost function Kept(ds: seq<Bytes>, cap: nat): (kept: seq<Bytes>)
    ensures kept <= ds && (ds != [] ==> kept != [])
    ensures |kept| < |ds| ==> BlankOnceCut(ds[|kept|], cap)
    ensures forall i :: 0 < i < |kept| ==> !BlankOnceCut(kept[i], cap)
  {
    if |ds| <= 1 then ds
    else if BlankOnceCut(ds[1], cap) then [ds[0]]
    else [ds[0]] + Kept(ds[1..], cap)
  }

  lemma KeptDeltas(ds: seq<Bytes>, cap: nat)
    requires Deltas(ds)
    ensures Deltas(Kept(ds, cap))
  {
    assert forall d :: d in Kept(ds, cap) ==> d in ds;
  }

  /** Whatever was lost before, the file is blank exactly when its newest delta is, once cut. */
  lemma {:induction false} FileBlank(ds: seq<Bytes>, cap: nat)
    requires Deltas(ds) && ds != []
    ensures Blank(Synced(ds, cap)) <==> BlankOnceCut(ds[0], cap)
  {
    var previous := Synced(ds[1..], cap);
    assert ds[0] in ds;
    BoundedIsLongestValidPrefix(ds[0], cap, []);
    if !Blank(previous) {
      GapIsValid();
      ValidConcat(GAP, previous);
      ValidConcat(ds[0], GAP + previous);
      assert ds[0] + (GAP + previous) == ds[0] + GAP + previous;
      BlankByNewest(ds[0], GAP + previous, cap);
    }
  }

  /** One more delta in front of a file that is a cut of `kept`. */
  lemma {:induction false} KeptStep(d: Bytes, kept: seq<Bytes>, file: Bytes, cap: nat)
    requires Deltas([d] + kept) && Deltas(kept) && kept != []
    requires Valid(file) && !Blank(file) && file == Bounded(Join(kept), cap)
    ensures Prepend(file, d, cap) == Bounded(Join([d] + kept), cap)
  {
    assert d in [d] + kept;
    assert ([d] + kept)[1..] == kept;
    PrependAfterCut(d + GAP, Join(kept), cap);
  }

  lemma SyncedUnfolds(ds: seq<Bytes>, cap: nat)
    requires Deltas(ds) && ds != []
    ensures Synced(ds, cap) == Prepend(Synced(ds[1..], cap), ds[0], cap)
  {}

  /** On every run the file is the cut of the newest deltas that were not forgotten. */
  lemma {:induction false} FileIsCutOfKept(ds: seq<Bytes>, cap: nat)
    requires Deltas(ds)
    ensures Deltas(Kept(ds, cap)) && Synced(ds, cap) == Bounded(Join(Kept(ds, cap)), cap)
  {
    KeptDeltas(ds, cap);
    if |ds| >= 2 {
      SyncedUnfolds(ds, cap);
      FileBlank(ds[1..], cap);
      if !BlankOnceCut(ds[1], cap) {
        FileIsCutOfKept(ds[1..], cap);
        KeptStep(ds[0], Kept(ds[1..], cap), Synced(ds[1..], cap), cap);
      }
    }
  }

  /** The joined history continues after its newest part with a gap. */
  lemma {:induction false} JoinContinues(ds: seq<Bytes>, kept: seq<Bytes>) returns (older: Bytes)
    requires Deltas(ds) && Deltas(kept) && kept <= ds && 0 < |kept| < |ds|
    ensures Join(ds) == Join(kept) + GAP + older
  {
    if |kept| == 1 {
      older := Join(ds[1..]);
    } else {
      older := JoinContinues(ds[1..], kept[1..]);
      assert ds[0] == kept[0];
      calc {
        Join(ds);
        ds[0] + GAP + (Join(kept[1..]) + GAP + older);
        (ds[0] + GAP + Join(kept[1..])) + GAP + older;
        Join(kept) + GAP + older;
      }
    }
  }

  /**
    The file is the cut of the whole history if and only if nothing was forgotten, or what is kept
    fills the file by itself.
   */
  lemma {:induction false} FileForgets(ds: seq<Bytes>, cap: nat)
    requires Deltas(ds)
    ensures Deltas(Kept(ds, cap))
    ensures Synced(ds, cap) == Bounded(Join(ds), cap) <==> Kept(ds, cap) == ds || cap <= |Join(Kept(ds, cap))|
  {
    var kept := Kept(ds, cap);
    FileIsCutOfKept(ds, cap);
    if |kept| < |ds| {
      var older := JoinContinues(ds, kept);
      ForgettingStep(Join(kept), older, cap);
    } else {
      assert kept == ds;
    }
  }

  /** A delta that fits, or that starts with a visible character, is not blank once cut. */
  lemma VisibleStart(d: Bytes, cap: nat)
    requires Valid(d) && !Blank(d) && 4 <= cap
    requires |d| <= cap || !IsWhitespace(CodePoint(d))
    ensures Valid(Bounded(d, cap)) && !Blank(Bounded(d, cap))
  {
    BoundedIsLongestValidPrefix(d, cap, d[..CharLen(d)]);
    if |d| > cap {
      var first, cut := d[..CharLen(d)], Bounded(d, cap);
      CharLenPrefix(d, CharLen(d));
      assert first[CharLen(d)..] == [];
      assert Valid(first) && first <= cut;
      CharLenPrefix(d, |cut|);
    }
  }

  /** So the file is always the cut history when no delta starts with more blanks than fit. */
  lemma {:induction false} FileIsCutHistoryOfVisibleDeltas(ds: seq<Bytes>)
    requires Deltas(ds)
    requires forall d :: d in ds ==> |d| <= MAX_MOIM_BYTES || !IsWhitespace(CodePoint(d))
    ensures Synced(ds, MAX_MOIM_BYTES) == Bounded(Join(ds), MAX_MOIM_BYTES)
  {
    forall d | d in ds
      ensures Valid(Bounded(d, MAX_MOIM_BYTES)) && !Blank(Bounded(d, MAX_MOIM_BYTES))
    {
      VisibleStart(d, MAX_MOIM_BYTES);
    }
    FileIsCutHistory(ds, MAX_MOIM_BYTES);
    assert ds[0..] == ds;
    assert Faithful(ds, MAX_MOIM_BYTES);
  }

  ghost function Spaces(n: nat): Bytes { seq(n, _ => 0x20 as byte) }

  lemma {:induction false} SpacesAreBlank(n: nat)
    ensures Valid(Spaces(n)) && Blank(Spaces(n))
  {
    if n != 0 {
      assert Spaces(n)[1..] == Spaces(n - 1);
      SpacesAreBlank(n - 1);
    }
  }

  /** Such a history exists: a delta with more leading blanks than fit is lost to the next hook. */
  lemma LongBlankStartIsForgotten(cap: nat)
    requires 2 <= cap
    ensures var ds := [[0x79 as byte], Spaces(cap + 1) + [0x78]];
      Deltas(ds) && !Faithful(ds, cap)
  {
    var newest, older: Bytes := [0x79], Spaces(cap + 1) + [0x78];
    var ds := [newest, older];
    SpacesAreBlank(cap + 1);
    assert Valid(newest) && !Blank(newest) by { assert newest[1..] == []; }
    assert Valid([0x78 as byte]) && !Blank([0x78 as byte]) by { assert [0x78 as byte][1..] == []; }
    ValidConcat(Spaces(cap + 1), [0x78]);
    assert Deltas(ds);
    BoundedAgrees(Spaces(cap + 1), older, cap);
    assert Bounded(Spaces(cap + 1), cap) == Spaces(cap);
    SpacesAreBlank(cap);
    assert ds[1..] == [older];
    assert Faithful([older], cap);
    FaithfulStep(ds, cap);
  }
}
