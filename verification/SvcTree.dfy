/**
  The service tree: sorted siblings and the search in svcnode.c, and option
  stripping in spath.c. A component of a path ends at '/', its name at '?'.
 */
module SvcTree {
  import opened Bytes
  import opened Codec

  const SLASH: byte := 0x2f
  const QUERY: byte := 0x3f

  // ----- string order -----

  function Strcmp(a: CStr, b: CStr): int {
    if a == [] then if b == [] then 0 else -1
    else if b == [] then 1
    else if a[0] < b[0] then -1
    else if a[0] > b[0] then 1
    else Strcmp(a[1..], b[1..])
  }

  function Strncmp(a: CStr, b: CStr, n: nat): int {
    if n == 0 then 0
    else if a == [] then if b == [] then 0 else -1
    else if b == [] then 1
    else if a[0] < b[0] then -1
    else if a[0] > b[0] then 1
    else Strncmp(a[1..], b[1..], n - 1)
  }

  lemma {:induction false} StrcmpZero(a: CStr, b: CStr)
    ensures Strcmp(a, b) == 0 <==> a == b
  {
    if a != [] && b != [] && a[0] == b[0] {
      StrcmpZero(a[1..], b[1..]);
      assert a == [a[0]] + a[1..] && b == [b[0]] + b[1..];
    }
  }

  lemma {:induction false} StrcmpFlips(a: CStr, b: CStr)
    ensures Strcmp(a, b) == -Strcmp(b, a)
  {
    if a != [] && b != [] && a[0] == b[0] {
      StrcmpFlips(a[1..], b[1..]);
    }
  }

  lemma {:induction false} StrcmpTransitive(a: CStr, b: CStr, c: CStr)
    requires Strcmp(a, b) < 0 && Strcmp(b, c) < 0
    ensures Strcmp(a, c) < 0
  {
    if a != [] && b != [] && c != [] && a[0] == b[0] == c[0] {
      StrcmpTransitive(a[1..], b[1..], c[1..]);
    }
  }

  // A name that sorts before another does not compare greater on the other's length.
  lemma {:induction false} SmallerPrefix(a: CStr, b: CStr)
    requires Strcmp(a, b) < 0
    ensures Strncmp(a, b, |b|) < 0
  {
    if a != [] && b != [] && a[0] == b[0] {
      SmallerPrefix(a[1..], b[1..]);
    }
  }

  // Comparing equal on the length of b, and being no longer, is being b.
  lemma {:induction false} FullMatch(a: CStr, b: CStr)
    ensures Strncmp(a, b, |b|) == 0 && |a| == |b| <==> a == b
  {
    if a != [] && b != [] && a[0] == b[0] {
      FullMatch(a[1..], b[1..]);
      assert a == [a[0]] + a[1..] && b == [b[0]] + b[1..];
    }
  }

  // ----- trees and paths -----

  datatype Tree = Tree(name: CStr, virtual: bool, wildcard: bool, kids: seq<Tree>)

  predicate SortedNames(names: seq<CStr>) {
    forall i, j :: 0 <= i < j < |names| ==> Strcmp(names[i], names[j]) < 0
  }

  function Names(kids: seq<Tree>): seq<CStr> {
    seq(|kids|, i requires 0 <= i < |kids| => kids[i].name)
  }

  // As any run of russ_svcnode_add leaves it.
  predicate Ordered(t: Tree) {
    SortedNames(Names(t.kids)) && forall i :: 0 <= i < |t.kids| ==> Ordered(t.kids[i])
  }

  // The position of the first '/', or the length.
  function SLen(p: CStr): (k: nat)
    ensures k <= |p|
  {
    if p == [] || p[0] == SLASH then 0 else 1 + SLen(p[1..])
  }

  // The length of the first component without its options.
  function NLen(p: CStr): (k: nat)
    ensures k <= SLen(p)
  {
    if p == [] || p[0] == SLASH || p[0] == QUERY then 0 else 1 + NLen(p[1..])
  }

  // The name of the first component.
  function First(p: CStr): CStr {
    p[..NLen(p)]
  }

  // What follows the first '/', if there is one.
  function Rest(p: CStr): (r: Option<CStr>)
    ensures r.Some? ==> |r.value| < |p|
  {
    if SLen(p) == |p| then None else Some(p[SLen(p) + 1..])
  }

  function Unslashed(path: CStr): CStr {
    if path != [] && path[0] == SLASH then path[1..] else path
  }

  predicate Matches(kid: Tree, comp: CStr) {
    kid.wildcard || kid.name == comp
  }

  predicate Beyond(kid: Tree, comp: CStr) {
    !kid.wildcard && Strncmp(kid.name, comp, |comp|) > 0
  }

  // The sibling that the search settles on: it gives up at a name beyond the component.
  function Pick(kids: seq<Tree>, comp: CStr, i: nat): (r: Option<nat>)
    requires i <= |kids|
    ensures r.Some? ==> i <= r.value < |kids|
    decreases |kids| - i
  {
    if i == |kids| || Beyond(kids[i], comp) then None
    else if Matches(kids[i], comp) then Some(i)
    else Pick(kids, comp, i + 1)
  }

  // The first that matches.
  function FirstMatch(kids: seq<Tree>, comp: CStr, i: nat): (r: Option<nat>)
    requires i <= |kids|
    ensures r.Some? ==> i <= r.value < |kids| && Matches(kids[r.value], comp)
    ensures forall k :: i <= k < (if r.Some? then r.value else |kids|) ==> !Matches(kids[k], comp)
    decreases |kids| - i
  {
    if i == |kids| then None
    else if Matches(kids[i], comp) then Some(i)
    else FirstMatch(kids, comp, i + 1)
  }

  // The node found, by its position among the children at each level.
  function Find(t: Tree, path: CStr): Option<seq<nat>>
    decreases |path|, t
  {
    var p := Unslashed(path);
    if t.virtual || p == [] then Some([])
    else match Pick(t.kids, First(p), 0)
      case None => None
      case Some(i) =>
        match Rest(p)
        case None => Some([i])
        case Some(rest) => match Find(t.kids[i], rest)
          case None => None
          case Some(q) => Some([i] + q)
  }

  // The same with a full scan of every sibling list.
  function FindAll(t: Tree, path: CStr): Option<seq<nat>>
    decreases |path|, t
  {
    var p := Unslashed(path);
    if t.virtual || p == [] then Some([])
    else match FirstMatch(t.kids, First(p), 0)
      case None => None
      case Some(i) =>
        match Rest(p)
        case None => Some([i])
        case Some(rest) => match FindAll(t.kids[i], rest)
          case None => None
          case Some(q) => Some([i] + q)
  }

  // The first match is a wildcard and comes after a name beyond the component.
  predicate Hidden(kids: seq<Tree>, comp: CStr) {
    var r := FirstMatch(kids, comp, 0);
    r.Some? && kids[r.value].wildcard && exists k :: 0 <= k < r.value && Beyond(kids[k], comp)
  }

  // Some node that the full scan goes through is hidden.
  predicate HiddenOnTheWay(t: Tree, path: CStr)
    decreases |path|, t
  {
    var p := Unslashed(path);
    if t.virtual || p == [] then false
    else
      Hidden(t.kids, First(p)) ||
      match FirstMatch(t.kids, First(p), 0)
      case None => false
      case Some(i) => Rest(p).Some? && HiddenOnTheWay(t.kids[i], Rest(p).value)
  }

  // No exact match comes after a name beyond the component.
  lemma ExactNotBeyond(kids: seq<Tree>, comp: CStr, k: nat, i: nat)
    requires SortedNames(Names(kids)) && k <= i < |kids| && kids[i].name == comp
    ensures !Beyond(kids[k], comp)
  {
    if k < i {
      assert Strcmp(Names(kids)[k], Names(kids)[i]) < 0;
      SmallerPrefix(kids[k].name, comp);
    } else {
      FullMatch(comp, comp);
    }
  }

  lemma {:induction false} PickStops(kids: seq<Tree>, comp: CStr, i: nat, k: nat)
    requires i <= k < |kids| && Beyond(kids[k], comp) && forall j :: i <= j < k ==> !Matches(kids[j], comp)
    ensures Pick(kids, comp, i) == None
    decreases k - i
  {
    if i < k && !Beyond(kids[i], comp) {
      PickStops(kids, comp, i + 1, k);
    }
  }

  lemma {:induction false} PickFollows(kids: seq<Tree>, comp: CStr, i: nat)
    requires i <= |kids|
    requires var r := FirstMatch(kids, comp, i); r.Some? ==> forall k :: i <= k <= r.value ==> !Beyond(kids[k], comp)
    ensures Pick(kids, comp, i) == FirstMatch(kids, comp, i)
    decreases |kids| - i
  {
    if i < |kids| {
      if !Matches(kids[i], comp) && !Beyond(kids[i], comp) {
        PickFollows(kids, comp, i + 1);
      }
    }
  }

  /** Among sorted siblings giving up early loses exactly the hidden wildcards. */
  lemma PickLosesHidden(kids: seq<Tree>, comp: CStr)
    requires SortedNames(Names(kids))
    ensures Pick(kids, comp, 0) == if Hidden(kids, comp) then None else FirstMatch(kids, comp, 0)
  {
    var r := FirstMatch(kids, comp, 0);
    if Hidden(kids, comp) {
      var k :| 0 <= k < r.value && Beyond(kids[k], comp);
      PickStops(kids, comp, 0, k);
    } else {
      if r.Some? {
        forall k | 0 <= k <= r.value ensures !Beyond(kids[k], comp) {
          if !kids[r.value].wildcard { ExactNotBeyond(kids, comp, k, r.value); }
        }
      }
      PickFollows(kids, comp, 0);
    }
  }

  /** The search fails on hidden nodes, and otherwise finds what a full scan of every sibling list finds. */
  lemma {:induction false} FindLosesHidden(t: Tree, path: CStr)
    requires Ordered(t)
    ensures Find(t, path) == if HiddenOnTheWay(t, path) then None else FindAll(t, path)
    decreases |path|, t
  {
    var p := Unslashed(path);
    if !t.virtual && p != [] {
      var comp := First(p);
      var r := FirstMatch(t.kids, comp, 0);
      assert Pick(t.kids, comp, 0) == if Hidden(t.kids, comp) then None else r by {
        PickLosesHidden(t.kids, comp);
      }
      if r.Some? && Rest(p).Some? {
        FindLosesHidden(t.kids[r.value], Rest(p).value);
      }
    }
  }

  // Wildcards come first among their siblings.
  predicate WildcardsFirst(t: Tree) {
    forall i :: 0 <= i < |t.kids| ==> WildcardsFirst(t.kids[i]) && (i > 0 ==> !t.kids[i].wildcard)
  }

  lemma {:induction false} FirstIsNotHidden(t: Tree, path: CStr)
    requires WildcardsFirst(t)
    ensures !HiddenOnTheWay(t, path)
    decreases |path|, t
  {
    var p := Unslashed(path);
    if !t.virtual && p != [] {
      var r := FirstMatch(t.kids, First(p), 0);
      if r.Some? && Rest(p).Some? {
        FirstIsNotHidden(t.kids[r.value], Rest(p).value);
      }
    }
  }

  /** With every wildcard the first of its siblings, the early exit changes nothing. */
  lemma ShortCircuitIsFullScan(t: Tree, path: CStr)
    requires Ordered(t) && WildcardsFirst(t)
    ensures Find(t, path) == FindAll(t, path)
  {
    FindLosesHidden(t, path);
    FirstIsNotHidden(t, path);
  }

  // A wildcard "z" after "b" is not found for "a", though it would match.
  lemma LaterWildcardIsLost()
    ensures exists t: Tree, path: CStr :: Ordered(t) && Find(t, path) == None && FindAll(t, path) == Some([1])
  {
    var a: CStr, b: CStr, z: CStr := [0x61], [0x62], [0x7a];
    var t := Tree([], false, false, [Tree(b, false, false, []), Tree(z, false, true, [])]);
    assert Unslashed(a) == a && a[1..] == [];
    assert NLen(a) == SLen(a) == 1 by { assert NLen([]) == SLen([]) == 0; }
    var p := Unslashed(a);
    assert First(p) == a;
    assert Names(t.kids) == [b, z];
    assert Strncmp(b, a, 1) == 1 && Beyond(t.kids[0], a);
    assert Pick(t.kids, a, 0) == None;
    assert FirstMatch(t.kids, a, 0) == FirstMatch(t.kids, a, 1) == Some(1);
    assert Find(t, a) == None;
    assert FindAll(t, a) == Some([1]);
    assert Ordered(t);
  }

  // ----- the matched path -----

  /**
    The buffer for the matched path: what stands behind its first character, and
    whether that is '/' or NUL. Every level of the search sets the first
    character to NUL and then appends behind it.
   */
  datatype MatchBuf = MatchBuf(shown: bool, tail: seq<byte>) {
    function Text(): seq<byte> {
      if shown then [SLASH] + tail else []
    }
  }

  predicate Fits(comp: seq<byte>, cap: int) {
    1 + |comp| + 1 < cap
  }

  // One component matched; only its own length is compared with the capacity.
  function Marked(m: MatchBuf, comp: seq<byte>, cap: int): MatchBuf {
    if Fits(comp, cap) then MatchBuf(true, m.tail + comp) else m.(shown := false)
  }

  function MatchBelow(t: Tree, path: CStr, m: MatchBuf, cap: int): MatchBuf
    decreases |path|, t
  {
    var p := Unslashed(path);
    if t.virtual || p == [] then m
    else match Pick(t.kids, First(p), 0)
      case None => m.(shown := false)
      case Some(i) =>
        var m1 := Marked(m, p[..SLen(p)], cap);
        if Rest(p).None? then m1 else MatchBelow(t.kids[i], Rest(p).value, m1, cap)
  }

  // The components, with their options, that the search matches.
  function Trail(t: Tree, path: CStr): seq<CStr>
    decreases |path|, t
  {
    var p := Unslashed(path);
    if t.virtual || p == [] then []
    else match Pick(t.kids, First(p), 0)
      case None => []
      case Some(i) => [p[..SLen(p)]] + (if Rest(p).None? then [] else Trail(t.kids[i], Rest(p).value))
  }

  function Concat(comps: seq<CStr>): seq<byte> {
    if comps == [] then [] else comps[0] + Concat(comps[1..])
  }

  // The matched path as documented: every component behind a '/'.
  function Slashed(comps: seq<CStr>): seq<byte> {
    if comps == [] then [] else [SLASH] + comps[0] + Slashed(comps[1..])
  }

  lemma {:induction false} SlashedLength(comps: seq<CStr>)
    ensures |Slashed(comps)| == |Concat(comps)| + |comps|
  {
    if comps != [] {
      SlashedLength(comps[1..]);
    }
  }

  // The components that are short enough.
  function Fitting(comps: seq<CStr>, cap: int): seq<CStr> {
    if comps == [] then []
    else (if Fits(comps[0], cap) then [comps[0]] else []) + Fitting(comps[1..], cap)
  }

  lemma {:induction false} FittingIsShorter(comps: seq<CStr>, cap: int)
    ensures |Concat(Fitting(comps, cap))| <= |Concat(comps)|
  {
    if comps != [] {
      FittingIsShorter(comps[1..], cap);
      FirstFits(comps, cap);
    }
  }

  lemma FirstFits(comps: seq<CStr>, cap: int)
    requires comps != []
    ensures Concat(Fitting(comps, cap))
      == (if Fits(comps[0], cap) then comps[0] else []) + Concat(Fitting(comps[1..], cap))
  {
    var rest := Fitting(comps[1..], cap);
    assert ([comps[0]] + rest)[1..] == rest;
    assert [] + rest == rest;
  }

  // The buffer after these components.
  function AfterTrail(m: MatchBuf, trail: seq<CStr>, cap: int): MatchBuf {
    if trail == [] then m else MatchBuf(Fits(trail[|trail| - 1], cap), m.tail + Concat(Fitting(trail, cap)))
  }

  lemma {:induction false} MatchIsConcat(t: Tree, path: CStr, m: MatchBuf, cap: int)
    ensures Find(t, path).None? ==> MatchBelow(t, path, m, cap).Text() == []
    ensures Find(t, path).Some? ==> MatchBelow(t, path, m, cap) == AfterTrail(m, Trail(t, path), cap)
    decreases |path|
  {
    var p := Unslashed(path);
    if !t.virtual && p != [] {
      var r := Pick(t.kids, First(p), 0);
      if r.Some? {
        var comp := p[..SLen(p)];
        var rest := if Rest(p).None? then [] else Trail(t.kids[r.value], Rest(p).value);
        var trail := Trail(t, path);
        assert trail[0] == comp && trail[1..] == rest;
        TrailGoesOn(m, trail, cap);
        if Rest(p).Some? {
          MatchIsConcat(t.kids[r.value], Rest(p).value, Marked(m, comp, cap), cap);
        }
      }
    }
  }

  lemma TrailGoesOn(m: MatchBuf, trail: seq<CStr>, cap: int)
    requires trail != []
    ensures AfterTrail(m, trail, cap) == AfterTrail(Marked(m, trail[0], cap), trail[1..], cap)
  {
    FirstFits(trail, cap);
    var rest := Concat(Fitting(trail[1..], cap));
    assert m.tail + (trail[0] + rest) == m.tail + trail[0] + rest && m.tail + ([] + rest) == m.tail + rest;
    assert |trail| == 1 ==> rest == [] && m.tail + [] == m.tail && m.tail + trail[0] + [] == m.tail + trail[0];
  }

  /**
    The matched path that the search leaves in a clean buffer is nothing when
    there is no node or the last component does not fit the buffer, and otherwise
    the matched components that fit, without the '/' between them: it is the path
    of the node exactly when that is nothing or one component that fits.
   */
  lemma MatchedPathExactly(t: Tree, path: CStr, cap: int)
    ensures var text, trail := MatchBelow(t, path, MatchBuf(false, []), cap).Text(), Trail(t, path);
      && (Find(t, path).None? ==> text == [])
      && (Find(t, path).Some? ==>
            text == if trail == [] || !Fits(trail[|trail| - 1], cap) then [] else [SLASH] + Concat(Fitting(trail, cap)))
      && (Find(t, path).Some? ==> (text == Slashed(trail) <==> trail == [] || (|trail| == 1 && |trail[0]| + 2 < cap)))
  {
    var trail := Trail(t, path);
    MatchIsConcat(t, path, MatchBuf(false, []), cap);
    SlashedLength(trail);
    FittingIsShorter(trail, cap);
    assert [] + Concat(Fitting(trail, cap)) == Concat(Fitting(trail, cap));
    if |trail| == 1 {
      FirstFits(trail, cap);
      assert trail[1..] == [] && trail[0] + [] == trail[0] && [SLASH] + trail[0] + [] == [SLASH] + trail[0];
    }
  }

  // ----- option stripping -----

  function Stripped(path: CStr): CStr
    decreases |path|, 0
  {
    if path == [] then []
    else if path[0] == QUERY then AfterOptions(path[1..])
    else Prepend(path[0], Stripped(path[1..]))
  }

  function Prepend(c: byte, s: CStr): CStr
    requires c != 0
  {
    [c] + s
  }

  // Up to the next '/', which is kept.
  function AfterOptions(path: CStr): CStr
    decreases |path|, 1
  {
    if path == [] then []
    else if path[0] == SLASH then Prepend(SLASH, Stripped(path[1..]))
    else AfterOptions(path[1..])
  }

  // No component starts with '?'.
  predicate NoBareOptions(path: CStr) {
    forall i :: 0 <= i < |path| && path[i] == QUERY ==> i > 0 && path[i - 1] != SLASH
  }

  // What stripping leaves from the end of the first component on.
  function StrippedTail(p: CStr): CStr {
    if Rest(p).None? then [] else Prepend(SLASH, Stripped(Rest(p).value))
  }

  lemma {:induction false} AfterOptionsIsTail(p: CStr)
    ensures AfterOptions(p) == StrippedTail(p)
    decreases |p|
  {
    if p != [] {
      if p[0] == SLASH {
        assert p[SLen(p) + 1..] == p[1..];
      } else {
        AfterOptionsIsTail(p[1..]);
        TailOfRest(p);
      }
    }
  }

  lemma TailOfRest(p: CStr)
    requires p != [] && p[0] != SLASH
    ensures Rest(p) == Rest(p[1..]) && StrippedTail(p) == StrippedTail(p[1..])
  {
    assert SLen(p) == 1 + SLen(p[1..]);
    if SLen(p) < |p| { assert p[SLen(p) + 1..] == p[1..][SLen(p[1..]) + 1..]; }
  }

  lemma TailAlone(p: CStr, s: CStr)
    ensures p[..0] + s == s
  {
  }

  lemma FirstOfParts(p: CStr, n: nat, tail: CStr)
    requires n < |p|
    ensures [p[0]] + (p[1..][..n] + tail) == p[..n + 1] + tail
  {
    assert p[..n + 1] == [p[0]] + p[1..][..n];
  }

  lemma {:induction false} StrippedParts(p: CStr)
    ensures Stripped(p) == First(p) + StrippedTail(p)
    decreases |p|
  {
    if p == [] {
    } else if p[0] == SLASH {
      assert p[SLen(p) + 1..] == p[1..];
      TailAlone(p, StrippedTail(p));
    } else if p[0] == QUERY {
      AfterOptionsIsTail(p[1..]);
      TailOfRest(p);
      TailAlone(p, StrippedTail(p));
    } else {
      StrippedParts(p[1..]);
      TailOfRest(p);
      FirstOfParts(p, NLen(p[1..]), StrippedTail(p));
    }
  }

  // A component without options and what follows it.
  lemma {:induction false} ComponentLengths(comp: CStr, tail: CStr)
    requires SLASH !in comp && QUERY !in comp && (tail == [] || tail[0] == SLASH)
    ensures NLen(comp + tail) == SLen(comp + tail) == |comp|
  {
    if comp == [] {
      assert comp + tail == tail;
    } else {
      assert (comp + tail)[1..] == comp[1..] + tail;
      ComponentLengths(comp[1..], tail);
    }
  }

  lemma {:induction false} NameIsPlain(p: CStr)
    ensures SLASH !in First(p) && QUERY !in First(p)
  {
    if p != [] && p[0] != SLASH && p[0] != QUERY {
      NameIsPlain(p[1..]);
      assert p[..NLen(p)] == [p[0]] + p[1..][..NLen(p[1..])];
    }
  }

  lemma StrippedUnslashed(path: CStr)
    requires NoBareOptions(path)
    ensures Unslashed(Stripped(path)) == Stripped(Unslashed(path)) && NoBareOptions(Unslashed(path))
    ensures Stripped(Unslashed(path)) == [] <==> Unslashed(path) == []
  {
    var p := Unslashed(path);
    forall i | 0 <= i < |p| && p[i] == QUERY ensures i > 0 && p[i - 1] != SLASH {
      if |p| < |path| { assert path[i + 1] == QUERY; }
    }
  }

  lemma RestIsBare(p: CStr)
    requires NoBareOptions(p) && Rest(p).Some?
    ensures NoBareOptions(Rest(p).value)
  {
    SlashAt(p);
    var rest := Rest(p).value;
    forall i | 0 <= i < |rest| && rest[i] == QUERY ensures i > 0 && rest[i - 1] != SLASH {
      assert p[SLen(p) + 1 + i] == QUERY;
    }
  }

  lemma PartsOf(comp: CStr, tail: CStr)
    requires SLASH !in comp && QUERY !in comp && (tail == [] || tail[0] == SLASH)
    ensures First(comp + tail) == comp
    ensures Rest(comp + tail) == if tail == [] then None else Some(tail[1..])
  {
    ComponentLengths(comp, tail);
    var s := comp + tail;
    assert s[..|comp|] == comp;
    if tail != [] { assert s[|comp| + 1..] == tail[1..]; }
  }

  // Stripping keeps the first component's name and strips the rest.
  lemma StrippedFirst(p: CStr)
    ensures First(Stripped(p)) == First(p)
    ensures Rest(Stripped(p)) == if Rest(p).None? then None else Some(Stripped(Rest(p).value))
  {
    StrippedParts(p);
    NameIsPlain(p);
    PartsOf(First(p), StrippedTail(p));
  }

  /** When no component starts with '?', a path and its stripped form find the same node. */
  lemma {:induction false} StrippingFindsTheSame(t: Tree, path: CStr)
    requires NoBareOptions(path)
    ensures Find(t, Stripped(path)) == Find(t, path)
    decreases |path|
  {
    var p := Unslashed(path);
    StrippedUnslashed(path);
    if !t.virtual && p != [] {
      StrippedFirst(p);
      var r := Pick(t.kids, First(p), 0);
      if r.Some? && Rest(p).Some? {
        RestIsBare(p);
        StrippingFindsTheSame(t.kids[r.value], Rest(p).value);
      }
    }
  }

  lemma {:induction false} SlashAt(p: CStr)
    requires SLen(p) < |p|
    ensures p[SLen(p)] == SLASH
  {
    if p[0] != SLASH {
      SlashAt(p[1..]);
    }
  }

  // ----- when two paths find the same -----

  // The names that the search looks for, one after the other.
  function Walk(path: CStr): seq<CStr>
    decreases |path|
  {
    var p := Unslashed(path);
    if p == [] then [] else [First(p)] + (if Rest(p).None? then [] else Walk(Rest(p).value))
  }

  function FindWalk(t: Tree, names: seq<CStr>): Option<seq<nat>>
    decreases |names|
  {
    if t.virtual || names == [] then Some([])
    else match Pick(t.kids, names[0], 0)
      case None => None
      case Some(i) => match FindWalk(t.kids[i], names[1..])
        case None => None
        case Some(q) => Some([i] + q)
  }

  lemma {:induction false} FindFollowsWalk(t: Tree, path: CStr)
    ensures Find(t, path) == FindWalk(t, Walk(path))
    decreases |path|
  {
    var p := Unslashed(path);
    if !t.virtual && p != [] {
      var r := Pick(t.kids, First(p), 0);
      var rest := if Rest(p).None? then [] else Walk(Rest(p).value);
      assert Walk(path)[0] == First(p) && Walk(path)[1..] == rest;
      if r.Some? {
        if Rest(p).Some? {
          FindFollowsWalk(t.kids[r.value], Rest(p).value);
        } else {
          assert FindWalk(t.kids[r.value], []) == Some([]) && [r.value] + [] == [r.value];
        }
      }
    }
  }

  // A tree that is one path of the given names.
  function Chain(name: CStr, names: seq<CStr>): Tree
    decreases |names|
  {
    Tree(name, false, false, if names == [] then [] else [Chain(names[0], names[1..])])
  }

  function Zeros(n: nat): seq<nat> { seq(n, _ => 0) }

  lemma {:induction false} ChainIsOrdered(name: CStr, names: seq<CStr>)
    ensures Ordered(Chain(name, names))
    decreases |names|
  {
    if names != [] {
      ChainIsOrdered(names[0], names[1..]);
    }
  }

  lemma {:induction false} ChainFinds(name: CStr, names: seq<CStr>, sought: seq<CStr>)
    ensures FindWalk(Chain(name, names), sought) == if sought <= names then Some(Zeros(|sought|)) else None
    decreases |names|
  {
    var t := Chain(name, names);
    assert Zeros(0) == [];
    if sought != [] && names != [] {
      FullMatch(names[0], sought[0]);
      ChainFinds(names[0], names[1..], sought[1..]);
      assert sought <= names <==> sought[0] == names[0] && sought[1..] <= names[1..];
      assert [0] + Zeros(|sought| - 1) == Zeros(|sought|);
    }
  }

  lemma PrefixesAreEqual(a: seq<CStr>, b: seq<CStr>)
    requires a <= b && |a| == |b|
    ensures a == b
  {
  }

  /** Two paths find the same node in every tree if and only if they look for the same names. */
  lemma SameNodesSameWalks(a: CStr, b: CStr)
    ensures (forall t: Tree :: Ordered(t) ==> Find(t, a) == Find(t, b)) <==> Walk(a) == Walk(b)
  {
    forall t: Tree ensures Walk(a) == Walk(b) ==> Find(t, a) == Find(t, b) {
      FindFollowsWalk(t, a);
      FindFollowsWalk(t, b);
    }
    var t := Chain([], Walk(a));
    ChainIsOrdered([], Walk(a));
    FindFollowsWalk(t, a);
    FindFollowsWalk(t, b);
    ChainFinds([], Walk(a), Walk(a));
    ChainFinds([], Walk(a), Walk(b));
    if Find(t, a) == Find(t, b) {
      assert |Zeros(|Walk(a)|)| == |Zeros(|Walk(b)|)|;
      PrefixesAreEqual(Walk(b), Walk(a));
    }
  }

  // ----- inputs on which the matched path is not the path -----

  // A name that is a component by itself.
  predicate Plain(name: CStr) {
    name != [] && SLASH !in name && QUERY !in name
  }

  // The path of these names.
  function Spelled(names: seq<CStr>): CStr {
    if |names| == 0 then [] else if |names| == 1 then names[0] else names[0] + [SLASH] + Spelled(names[1..])
  }

  lemma PickOnly(kid: Tree)
    requires !kid.virtual && !kid.wildcard
    ensures Pick([kid], kid.name, 0) == Some(0)
  {
    FullMatch(kid.name, kid.name);
  }

  lemma SpelledParts(names: seq<CStr>)
    requires names != [] && Plain(names[0])
    ensures var p := Spelled(names);
      && p != [] && Unslashed(p) == p && First(p) == names[0] && p[..SLen(p)] == names[0]
      && Rest(p) == if |names| == 1 then None else Some(Spelled(names[1..]))
  {
    hide First, Rest, SLen, NLen, Spelled;
    var name := names[0];
    var tail := SpelledTail(names);
    SpelledSplit(names);
    PartsOf(name, tail);
    ComponentLengths(name, tail);
    assert name[0] in name && (name + tail)[0] == name[0];
    assert (name + tail)[..|name|] == name;
    assert |names| > 1 ==> tail[1..] == Spelled(names[1..]);
  }

  function SpelledTail(names: seq<CStr>): CStr
    requires names != []
  {
    if |names| == 1 then [] else [SLASH] + Spelled(names[1..])
  }

  lemma SpelledSplit(names: seq<CStr>)
    requires names != []
    ensures Spelled(names) == names[0] + SpelledTail(names)
  {
    assert |names| == 1 ==> names[0] + [] == names[0];
    assert |names| > 1 ==> names[0] + ([SLASH] + Spelled(names[1..])) == names[0] + [SLASH] + Spelled(names[1..]);
  }

  lemma NothingSpelled(t: Tree)
    ensures Trail(t, Spelled([])) == [] && Find(t, Spelled([])) == Some([])
  {
  }

  // In the tree that is one path, that path is found and leaves its names.
  lemma {:induction false} ChainTrail(name: CStr, names: seq<CStr>)
    requires forall i :: 0 <= i < |names| ==> Plain(names[i])
    ensures Trail(Chain(name, names), Spelled(names)) == names
    ensures Find(Chain(name, names), Spelled(names)) == Some(Zeros(|names|))
    decreases |names|
  {
    hide First, Rest, SLen, Pick, Unslashed;
    var t := Chain(name, names);
    assert Zeros(0) == [];
    if names == [] {
      NothingSpelled(t);
    } else {
      assert t.kids == [Chain(names[0], names[1..])];
      SpelledParts(names);
      PickOnly(t.kids[0]);
      ChainTrail(names[0], names[1..]);
      assert [0] + Zeros(|names| - 1) == Zeros(|names|);
      assert names == [names[0]] + names[1..];
      assert |names| == 1 ==> names[1..] == [] && [names[0]] + [] == names && Zeros(1) == [0];
    }
  }

  // For "a/b" the search leaves "/ab".
  lemma MatchedPathLosesSlash()
    ensures var a: CStr, b: CStr := [0x61], [0x62];
      exists t: Tree, path: CStr ::
        && Ordered(t) && Find(t, path) == Some([0, 0]) && Slashed(Trail(t, path)) == [SLASH] + a + [SLASH] + b
        && MatchBelow(t, path, MatchBuf(false, []), 65536).Text() == [SLASH] + (a + b)
  {
    var a: CStr, b: CStr := [0x61], [0x62];
    var names := [a, b];
    var t, path := Chain([], names), Spelled(names);
    ChainTrail([], names);
    ChainIsOrdered([], names);
    MatchedPathExactly(t, path, 65536);
    TwoComponents(a, b, 65536);
    assert Zeros(2) == [0, 0];
    assert Ordered(t) && Find(t, path) == Some([0, 0]);
  }

  lemma TwoComponents(a: CStr, b: CStr, cap: int)
    requires Fits(a, cap) && Fits(b, cap)
    ensures Slashed([a, b]) == [SLASH] + a + [SLASH] + b && Concat(Fitting([a, b], cap)) == a + b
  {
    FirstFits([a, b], cap);
    FirstFits([b], cap);
    assert [a, b][1..] == [b] && [b][1..] == [];
    assert Slashed([b]) == [SLASH] + b + [] && b + [] == b;
  }

  function Repeated(name: CStr, n: nat): seq<CStr> { seq(n, _ => name) }

  lemma {:induction false} RepeatedLength(name: CStr, n: nat, cap: int)
    requires Fits(name, cap)
    ensures |Concat(Fitting(Repeated(name, n), cap))| == n * |name|
  {
    var names := Repeated(name, n);
    if n > 0 {
      assert names[1..] == Repeated(name, n - 1);
      RepeatedLength(name, n - 1, cap);
      FirstFits(names, cap);
    }
  }

  // However large the buffer is, some path leaves more than it holds.
  lemma MatchedPathOutgrows(cap: nat)
    requires cap > 3
    ensures exists t: Tree, path: CStr ::
      Ordered(t) && Find(t, path).Some? && |MatchBelow(t, path, MatchBuf(false, []), cap).Text()| > cap
  {
    var a: CStr := [0x61];
    var names := Repeated(a, cap);
    var t, path := Chain([], names), Spelled(names);
    ChainTrail([], names);
    ChainIsOrdered([], names);
    MatchedPathExactly(t, path, cap);
    RepeatedLength(a, cap, cap);
    assert Ordered(t) && |MatchBelow(t, path, MatchBuf(false, []), cap).Text()| > cap;
  }

  // ----- when stripping is harmless -----

  // The walk, component by component: Begin(p) may still drop an empty component, Go(p) has done so.
  function Begin(p: CStr): seq<CStr>
    decreases |p|
  {
    if SLen(p) > 0 then [First(p)] + (if Rest(p).None? then [] else Begin(Rest(p).value))
    else if Rest(p).None? then []
    else Go(Rest(p).value)
  }

  function Go(p: CStr): seq<CStr>
    decreases |p|
  {
    if p == [] then [] else [First(p)] + (if Rest(p).None? then [] else Begin(Rest(p).value))
  }

  lemma {:induction false} WalkBegins(path: CStr)
    ensures Walk(path) == Begin(path) && (path != [] && path[0] == SLASH ==> Walk(path) == Go(path[1..]))
    decreases |path|
  {
    var p := Unslashed(path);
    if path != [] && path[0] == SLASH {
      assert Rest(path) == Some(path[1..]);
    }
    if p != [] && Rest(p).Some? {
      WalkBegins(Rest(p).value);
    }
  }

  datatype Scan = Even | Odd | Owing | Repaid

  /**
    Reads a path component by component, comparing the two walks. They are Even
    as long as they have dropped the same, and Odd after an empty component that
    both have dropped. At a component that is nothing but options only the
    stripped path drops something: it is Owing a name until the next component,
    which must be an empty one, and Repaid after it.
   */
  predicate Harmless(p: CStr, st: Scan)
    decreases |p|
  {
    if Rest(p).None? then st != Owing && (SLen(p) > 0 ==> NLen(p) > 0)
    else
      var rest := Rest(p).value;
      match st
      case Even => Harmless(rest, if NLen(p) > 0 then Even else if SLen(p) == 0 then Odd else Owing)
      case Odd => Harmless(rest, Even)
      case Owing => SLen(p) == 0 && Harmless(rest, Repaid)
      case Repaid => Harmless(rest, if NLen(p) > 0 then Even else Owing)
  }

  // The stripped path's components have the length of the names.
  lemma StrippedSLen(p: CStr)
    ensures SLen(Stripped(p)) == NLen(p) && (Stripped(p) == [] <==> NLen(p) == 0 && Rest(p).None?)
  {
    StrippedParts(p);
    NameIsPlain(p);
    ComponentLengths(First(p), StrippedTail(p));
  }

  lemma StrippedWalks(p: CStr)
    ensures var q, f, r := Stripped(p), [First(p)], Rest(p);
      && Begin(q) == (if NLen(p) > 0 then f + (if r.None? then [] else Begin(Stripped(r.value)))
                      else if r.None? then [] else Go(Stripped(r.value)))
      && Go(q) == (if NLen(p) == 0 && r.None? then [] else f + (if r.None? then [] else Begin(Stripped(r.value))))
  {
    StrippedFirst(p);
    StrippedSLen(p);
  }

  // Stripping never makes the walk longer.
  lemma {:induction false} StrippedWalkShorter(p: CStr)
    ensures |Begin(Stripped(p))| <= |Begin(p)| && |Go(Stripped(p))| <= |Go(p)|
    ensures |Go(Stripped(p))| <= |Begin(p)| + 1 && |Begin(Stripped(p))| <= |Go(p)|
    decreases |p|
  {
    StrippedWalks(p);
    if Rest(p).Some? {
      StrippedWalkShorter(Rest(p).value);
    }
  }

  // What the two walks have in common in each state.
  ghost predicate Alike(p: CStr, q: CStr, st: Scan) {
    match st
    case Even => Begin(p) == Begin(q)
    case Odd => Go(p) == Go(q)
    case Owing => [[]] + Begin(p) == Go(q)
    case Repaid => Go(p) == Begin(q)
  }

  lemma SameHead(x: CStr, a: seq<CStr>, b: seq<CStr>)
    ensures [x] + a == [x] + b <==> a == b
  {
    assert ([x] + a)[1..] == a && ([x] + b)[1..] == b;
  }

  lemma {:induction false} ScanIsExact(p: CStr, st: Scan)
    ensures Harmless(p, st) <==> Alike(p, Stripped(p), st)
    decreases |p|
  {
    StrippedWalks(p);
    if Rest(p).Some? {
      var r := Rest(p).value;
      var s := Stripped(r);
      SameHead(First(p), Begin(r), Begin(s));
      match st
      case Even => ScanIsExact(r, if NLen(p) > 0 then Even else if SLen(p) == 0 then Odd else Owing);
      case Odd => ScanIsExact(r, Even);
      case Owing =>
        ScanIsExact(r, Repaid);
        StrippedWalkShorter(r);
        SameHead([], Begin(p), Begin(s));
      case Repaid => ScanIsExact(r, if NLen(p) > 0 then Even else Owing);
    }
  }

  /**
    Exactly when stripping its options does not change what a path finds, as a
    condition on the text of the path. A path in which no component starts with
    '?' meets it.
   */
  lemma WhenStrippingIsHarmless(path: CStr)
    ensures (forall t: Tree :: Ordered(t) ==> Find(t, path) == Find(t, Stripped(path))) <==> Harmless(path, Even)
    ensures NoBareOptions(path) ==> Harmless(path, Even)
  {
    SameNodesSameWalks(path, Stripped(path));
    WalkBegins(path);
    WalkBegins(Stripped(path));
    ScanIsExact(path, Even);
    if NoBareOptions(path) {
      forall t: Tree | Ordered(t) ensures Find(t, path) == Find(t, Stripped(path)) {
        StrippingFindsTheSame(t, path);
      }
    }
  }

  // "a/?x//b" is harmless although a component is nothing but options.
  lemma RepaidOptionsAreHarmless()
    ensures exists path: CStr :: !NoBareOptions(path) && Harmless(path, Even)
  {
    var b: CStr := [0x62];
    var path: CStr := [0x61, SLASH, QUERY, 0x78, SLASH, SLASH] + b;
    assert path[2] == QUERY;
    assert b[1..] == [] && NLen(b) == SLen(b) == 1 && Rest(b) == None && Harmless(b, Repaid);
    var sb: CStr := [SLASH] + b;
    assert Rest(sb) == Some(b) && Harmless(sb, Owing) by { assert sb[1..] == b; }
    var x: CStr := [QUERY, 0x78, SLASH] + sb;
    assert x[1..][1..] == [SLASH] + sb;
    assert SLen(x[1..][1..]) == 0 && SLen(x[1..]) == 1 && SLen(x) == 2 && NLen(x) == 0;
    assert Rest(x) == Some(sb) by { assert x[3..] == sb; }
    assert Harmless(x, Even);
    assert path[1..] == [SLASH] + x && SLen(path) == NLen(path) == 1;
    assert Rest(path) == Some(x) by { assert path[2..] == x; }
  }

  // "?x" finds nothing below a plain leaf; stripped, it is empty and finds the leaf itself.
  lemma BareOptionsFindOtherwise()
    ensures exists t: Tree, path: CStr ::
      !NoBareOptions(path) && Find(t, path) == None && Find(t, Stripped(path)) == Some([])
  {
    var path: CStr := [QUERY, 0x78];
    var t := Tree([], false, false, []);
    assert Stripped(path) == AfterOptions(path[1..]) == AfterOptions(path[1..][1..]) == [];
    assert path[0] == QUERY && Unslashed(path) == path;
    assert Find(t, path) == None;
    assert Find(t, []) == Some([]);
  }
}
