/**
  Splitting strings: str.c and sarray0.c. Strings hold no NUL; strstr and
  strchr, from a position on, are the function Find.
 */
module Str {
  import opened Bytes

  predicate OccursAt(s: string, ss: string, i: nat) {
    i + |ss| <= |s| && s[i..i + |ss|] == ss
  }

  // The first occurrence at or after p.
  function Find(s: string, ss: string, p: nat): (r: Option<nat>)
    requires p <= |s|
    ensures r.Some? ==> p <= r.value && r.value + |ss| <= |s|
    decreases |s| - p
  {
    if OccursAt(s, ss, p) then Some(p)
    else if p == |s| then None
    else Find(s, ss, p + 1)
  }

  lemma {:induction false} FindIsFirst(s: string, ss: string, p: nat)
    requires p <= |s|
    ensures var r := Find(s, ss, p);
      && (r.Some? ==> OccursAt(s, ss, r.value))
      && forall i :: p <= i < (if r.Some? then r.value else |s| + 1) ==> !OccursAt(s, ss, i)
    decreases |s| - p
  {
    if !OccursAt(s, ss, p) && p < |s| {
      FindIsFirst(s, ss, p + 1);
    }
  }

  // ----- splitting -----

  function SplitFrom(s: string, ss: string, p: nat): seq<string>
    requires ss != "" && p <= |s|
    decreases |s| - p
  {
    match Find(s, ss, p)
    case None => [s[p..]]
    case Some(k) => [s[p..k]] + SplitFrom(s, ss, k + |ss|)
  }

  function Split(s: string, ss: string): seq<string>
    requires ss != ""
  {
    SplitFrom(s, ss, 0)
  }

  function Join(parts: seq<string>, ss: string): string {
    if parts == [] then "" else if |parts| == 1 then parts[0] else parts[0] + ss + Join(parts[1..], ss)
  }

  lemma {:induction false} JoinAppend(a: seq<string>, b: seq<string>, ss: string)
    requires a != [] && b != []
    ensures Join(a + b, ss) == Join(a, ss) + ss + Join(b, ss)
  {
    var s := a + b;
    assert s[0] == a[0];
    if |a| == 1 {
      assert s[1..] == b;
    } else {
      assert s[1..] == a[1..] + b;
      JoinAppend(a[1..], b, ss);
      assert a[0] + ss + (Join(a[1..], ss) + ss + Join(b, ss)) == a[0] + ss + Join(a[1..], ss) + ss + Join(b, ss);
    }
  }

  ghost predicate Within(s: string, ss: string) {
    exists i: nat :: OccursAt(s, ss, i)
  }

  lemma NotBefore(s: string, ss: string, p: nat, k: nat)
    requires p <= k <= |s| && ss != "" && forall i :: p <= i < k ==> !OccursAt(s, ss, i)
    ensures !Within(s[p..k], ss)
  {
    if Within(s[p..k], ss) {
      var i: nat :| OccursAt(s[p..k], ss, i);
      assert forall m :: i <= m < i + |ss| ==> s[p..k][m] == s[p + m];
      assert forall m :: 0 <= m < |ss| ==> s[p + i..p + i + |ss|][m] == s[p..k][i..i + |ss|][m] == ss[m];
      assert OccursAt(s, ss, p + i);
    }
  }

  lemma {:induction false} JoinOfRest(s: string, ss: string, p: nat)
    requires ss != "" && p <= |s|
    ensures Join(SplitFrom(s, ss, p), ss) == s[p..] && SplitFrom(s, ss, p) != []
    ensures forall i :: 0 <= i < |SplitFrom(s, ss, p)| ==> !Within(SplitFrom(s, ss, p)[i], ss)
    decreases |s| - p
  {
    FindIsFirst(s, ss, p);
    match Find(s, ss, p) {
      case None =>
        NotBefore(s, ss, p, |s|);
        assert s[p..|s|] == s[p..];
      case Some(k) =>
        var rest := SplitFrom(s, ss, k + |ss|);
        JoinOfRest(s, ss, k + |ss|);
        NotBefore(s, ss, p, k);
        assert ([s[p..k]] + rest)[1..] == rest;
        assert s[p..] == s[p..k] + s[k..k + |ss|] + s[k + |ss|..];
    }
  }

  /** Joining the parts gives the string back, and no part holds the separator. */
  lemma JoinOfSplit(s: string, ss: string)
    requires ss != ""
    ensures Join(Split(s, ss), ss) == s
    ensures forall i :: 0 <= i < |Split(s, ss)| ==> !Within(Split(s, ss)[i], ss)
  {
    JoinOfRest(s, ss, 0);
    assert s[0..] == s;
  }

  lemma OneChar(s: string, c: char, i: nat)
    ensures OccursAt(s, [c], i) <==> i < |s| && s[i] == c
  {
    if i < |s| { assert s[i..i + 1] == [s[i]]; }
  }

  lemma WithinOne(s: string, c: char)
    ensures Within(s, [c]) <==> c in s
  {
    forall i: nat ensures OccursAt(s, [c], i) <==> i < |s| && s[i] == c {
      OneChar(s, c, i);
    }
  }

  lemma {:induction false} FoundAfter(s: string, sep: char, p: nat, k: nat)
    requires p <= k <= |s| && (forall i :: p <= i < k ==> s[i] != sep) && (k < |s| ==> s[k] == sep)
    ensures Find(s, [sep], p) == if k < |s| then Some(k) else None
    decreases k - p
  {
    OneChar(s, sep, p);
    if p < k {
      FoundAfter(s, sep, p + 1, k);
    }
  }

  // A string that goes on with a part and then, unless it is the last, the separator.
  lemma PartFound(s: string, sep: char, p: nat, part: string, last: bool)
    requires sep !in part && p + |part| <= |s| && part <= s[p..]
    requires if last then p + |part| == |s| else p + |part| < |s| && s[p + |part|] == sep
    ensures Find(s, [sep], p) == if last then None else Some(p + |part|)
    ensures s[p..p + |part|] == part
  {
    assert forall i :: p <= i < p + |part| ==> s[i] == s[p..][i - p] == part[i - p];
    FoundAfter(s, sep, p, p + |part|);
  }

  lemma JoinedAt(s: string, p: nat, parts: seq<string>, sep: char)
    requires |parts| > 1 && p <= |s| && s[p..] == Join(parts, [sep])
    ensures var k := p + |parts[0]|;
      k < |s| && s[k] == sep && parts[0] <= s[p..] && s[k + 1..] == Join(parts[1..], [sep])
  {
    var n := |parts[0]|;
    assert |s[p..]| == |s| - p;
    assert s[p..][n] == s[p + n];
    assert s[p..][n + 1..] == s[p + n + 1..];
  }

  lemma {:induction false} SplitOfJoinFrom(s: string, p: nat, parts: seq<string>, sep: char)
    requires parts != [] && forall i :: 0 <= i < |parts| ==> sep !in parts[i]
    requires p <= |s| && s[p..] == Join(parts, [sep])
    ensures SplitFrom(s, [sep], p) == parts
    decreases |parts|
  {
    if |parts| == 1 {
      PartFound(s, sep, p, parts[0], true);
      assert parts == [parts[0]];
    } else {
      var k := p + |parts[0]|;
      JoinedAt(s, p, parts, sep);
      assert Find(s, [sep], p) == Some(k) && s[p..k] == parts[0] by { PartFound(s, sep, p, parts[0], false); }
      assert SplitFrom(s, [sep], k + 1) == parts[1..] by { SplitOfJoinFrom(s, k + 1, parts[1..], sep); }
      assert SplitFrom(s, [sep], p) == [parts[0]] + parts[1..];
    }
  }

  /** With a one-character separator, splitting undoes joining. */
  lemma SplitOfJoin(parts: seq<string>, sep: char)
    requires parts != [] && forall i :: 0 <= i < |parts| ==> sep !in parts[i]
    ensures Split(Join(parts, [sep]), [sep]) == parts
  {
    SplitOfJoinFrom(Join(parts, [sep]), 0, parts, sep);
  }

  // Part j of the parts starts at p.
  predicate PartAt(all: seq<string>, s: string, ss: string, p: nat, j: nat) {
    ss != "" && p <= |s| && j < |all| && SplitFrom(s, ss, p) == all[j..]
  }

  lemma NextPart(all: seq<string>, s: string, ss: string, p: nat, j: nat)
    requires PartAt(all, s, ss, p, j)
    ensures Find(s, ss, p).None? ==> |all| == j + 1 && all[j] == s[p..]
    ensures Find(s, ss, p).Some? ==>
      all[j] == s[p..Find(s, ss, p).value] && PartAt(all, s, ss, Find(s, ss, p).value + |ss|, j + 1)
  {
    var r := Find(s, ss, p);
    assert all[j..][0] == all[j] && all[j..][1..] == all[j + 1..];
    if r.Some? {
      var rest := SplitFrom(s, ss, r.value + |ss|);
      assert all[j..] == [s[p..r.value]] + rest;
      assert all[j + 1..] == rest;
      JoinOfRest(s, ss, r.value + |ss|);
    } else {
      assert all[j..] == [s[p..]];
    }
  }

  lemma FirstPart(s: string, ss: string)
    requires ss != ""
    ensures PartAt(Split(s, ss), s, ss, 0, 0)
  {
    JoinOfRest(s, ss, 0);
    assert Split(s, ss)[0..] == Split(s, ss);
  }

  /** russ_str_count_sub */
  method CountSub(s: string, ss: string) returns (n: nat)
    requires ss != ""
    ensures |Split(s, ss)| == n + 1
  {
    ghost var all := Split(s, ss);
    var p := 0;
    n := 0;
    FirstPart(s, ss);
    while true
      invariant PartAt(all, s, ss, p, n)
      decreases |s| - p
    {
      NextPart(all, s, ss, p, n);
      var k := Find(s, ss, p);
      if k.None? {
        break;
      }
      p := k.value + |ss|;
      n := n + 1;
    }
  }

  // One part, and where the next one starts.
  method TakePart(s: string, ss: string, p: nat, ghost all: seq<string>, ghost j: nat) returns (part: string, next: nat)
    requires PartAt(all, s, ss, p, j)
    ensures part == all[j] && (j + 1 < |all| ==> PartAt(all, s, ss, next, j + 1))
  {
    NextPart(all, s, ss, p, j);
    var pp := Find(s, ss, p);
    if pp.None? {
      part, next := s[p..], p;
    } else {
      part, next := s[p..pp.value], pp.value + |ss|;
    }
  }

  /** russ_sarray0_new_split: the parts from a starting index on. */
  method NewSplit(s: string, ss: string, sindex: int) returns (r: seq<string>)
    requires ss != ""
    ensures r == if 0 <= sindex <= |Split(s, ss)| then Split(s, ss)[sindex..] else []
  {
    ghost var all := Split(s, ss);
    var n := CountSub(s, ss);
    var count := n + 1;
    count := if sindex < 0 || count < sindex then 0 else count - sindex;
    if count == 0 {
      return [];
    }
    var self := new string[count];
    var i, p := -sindex, 0;
    FirstPart(s, ss);
    while i < count
      invariant -sindex <= i <= count && |all| == sindex + count && p >= 0
      invariant i < count ==> PartAt(all, s, ss, p, i + sindex)
      invariant forall k :: 0 <= k < i ==> self[k] == all[k + sindex]
    {
      var part;
      part, p := TakePart(s, ss, p, all, i + sindex);
      if i >= 0 {
        self[i] := part;
      }
      i := i + 1;
    }
    r := self[..];
  }

  // What russ_str_dup_comp and russ_str_get_comp give: a negative index counts as 0.
  function Component(s: string, sep: char, idx: int): Option<string> {
    var parts := Split(s, [sep]);
    var i := if idx < 0 then 0 else idx;
    if i < |parts| then Some(parts[i]) else None
  }

  // Past the next separator, if there is one.
  method SkipPart(s: string, sep: char, p: nat, ghost all: seq<string>, ghost j: nat) returns (next: Option<nat>)
    requires PartAt(all, s, [sep], p, j)
    ensures next.Some? ==> PartAt(all, s, [sep], next.value, j + 1)
    ensures next.None? ==> |all| == j + 1
  {
    NextPart(all, s, [sep], p, j);
    var k := Find(s, [sep], p);
    next := if k.None? then None else Some(k.value + 1);
  }

  // The start and the end of a component.
  method FindComp(s: string, sep: char, idx: int) returns (start: nat, end: nat, found: bool)
    ensures start <= end <= |s|
    ensures Component(s, sep, idx) == if found then Some(s[start..end]) else None
  {
    ghost var all := Split(s, [sep]);
    start, end := 0, 0;
    var i := idx;
    ghost var j := 0;
    FirstPart(s, [sep]);
    while i > 0
      invariant PartAt(all, s, [sep], start, j) && (if idx <= 0 then i == idx && j == 0 else i == idx - j >= 0)
      decreases i
    {
      var next := SkipPart(s, sep, start, all, j);
      if next.None? {
        return start, start, false;
      }
      start := next.value;
      i := i - 1;
      j := j + 1;
    }
    NextPart(all, s, [sep], start, j);
    var p := Find(s, [sep], start);
    end := if p.None? then |s| else p.value;
    assert s[start..|s|] == s[start..];
    found := true;
  }

  /** russ_str_dup_comp: an element of the split string. */
  method DupComp(s: string, sep: char, idx: int) returns (r: Option<string>)
    ensures r == Component(s, sep, idx)
    ensures idx < 0 ==> r == Some(Split(s, [sep])[0])
    ensures idx >= 0 ==> r == if idx < |Split(s, [sep])| then Some(Split(s, [sep])[idx]) else None
  {
    var start, end, found := FindComp(s, sep, idx);
    r := if found then Some(s[start..end]) else None;
  }

  /** russ_str_get_comp: the same into a buffer, if it fits with its NUL. */
  method GetComp(s: string, sep: char, idx: int, b: array<char>) returns (rv: int)
    modifies b
    ensures rv == 0 || rv == -1
    ensures rv == 0 <==> Component(s, sep, idx).Some? && |Component(s, sep, idx).value| < b.Length
    ensures rv == 0 ==>
      b[..] == Component(s, sep, idx).value + ['\0'] + old(b[..])[|Component(s, sep, idx).value| + 1..]
    ensures rv == -1 ==> b[..] == old(b[..])
  {
    var start, end, found := FindComp(s, sep, idx);
    if !found || end - start > b.Length - 1 {
      return -1;
    }
    var n := end - start;
    ghost var was := b[..];
    forall i | 0 <= i < n {
      b[i] := s[start + i];
    }
    b[n] := '\0';
    assert b[..] == s[start..end] + ['\0'] + was[n + 1..];
    rv := 0;
  }
}
