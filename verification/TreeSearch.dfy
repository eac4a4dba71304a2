/**
  What the search in the service tree finds, told from the names in the path:
  the children are followed by name, a wildcard stands for any name, options are
  ignored, and a virtual node takes the rest of the path.
 */
module TreeSearch {
  import opened Bytes
  import opened Codec
  import opened SvcTree

  // ----- paths as they are written -----

  // A component: a name, and options behind a '?' if there are any.
  datatype Component = Component(name: CStr, options: Option<CStr>)

  predicate Proper(c: Component) {
    && c.name != [] && 0x2f !in c.name && 0x3f !in c.name
    && (c.options.Some? ==> 0x2f !in c.options.value)
  }

  function Text(c: Component): CStr {
    match c.options
    case None => c.name
    case Some(options) => c.name + [0x3f] + options
  }

  function Texts(cs: seq<Component>): seq<CStr> {
    seq(|cs|, i requires 0 <= i < |cs| => Text(cs[i]))
  }

  function NamesOf(cs: seq<Component>): seq<CStr> {
    seq(|cs|, i requires 0 <= i < |cs| => cs[i].name)
  }

  // With or without a '/' at its start.
  function PathOf(cs: seq<Component>, rooted: bool): CStr {
    if rooted then [0x2f] + Spelled(Texts(cs)) else Spelled(Texts(cs))
  }

  lemma {:induction false} LengthOfText(s: CStr, tail: CStr)
    requires 0x2f !in s && (tail == [] || tail[0] == 0x2f)
    ensures SLen(s + tail) == |s|
  {
    if s == [] {
      assert s + tail == tail;
    } else {
      assert (s + tail)[1..] == s[1..] + tail;
      LengthOfText(s[1..], tail);
    }
  }

  lemma {:induction false} LengthOfName(name: CStr, more: CStr)
    requires 0x2f !in name && 0x3f !in name && (more == [] || more[0] == 0x2f || more[0] == 0x3f)
    ensures NLen(name + more) == |name|
  {
    if name == [] {
      assert name + more == more;
    } else {
      assert (name + more)[1..] == name[1..] + more;
      LengthOfName(name[1..], more);
    }
  }

  lemma TextParts(c: Component, tail: CStr)
    requires Proper(c) && (tail == [] || tail[0] == 0x2f)
    ensures var p := Text(c) + tail;
      && p != [] && p[0] != 0x2f && First(p) == c.name
      && Rest(p) == if tail == [] then None else Some(tail[1..])
  {
    var p := Text(c) + tail;
    LengthOfText(Text(c), tail);
    assert p[0] == c.name[0] && c.name[0] in c.name;
    var more := if c.options.None? then tail else [0x3f] + c.options.value + tail;
    assert p == c.name + more;
    LengthOfName(c.name, more);
    assert p[..|c.name|] == c.name;
    if tail != [] { assert p[|Text(c)| + 1..] == tail[1..]; }
  }

  lemma {:induction false} WalkOfSpelled(cs: seq<Component>)
    requires forall i :: 0 <= i < |cs| ==> Proper(cs[i])
    ensures Walk(Spelled(Texts(cs))) == NamesOf(cs)
    ensures cs != [] ==> Spelled(Texts(cs)) != [] && Spelled(Texts(cs))[0] != 0x2f
  {
    hide First, Rest;
    if cs != [] {
      var texts := Texts(cs);
      var p := Spelled(texts);
      SpelledSplit(texts);
      TextParts(cs[0], SpelledTail(texts));
      assert texts[1..] == Texts(cs[1..]);
      assert Unslashed(p) == p;
      if |cs| > 1 {
        assert SpelledTail(texts)[1..] == Spelled(texts[1..]);
        WalkOfSpelled(cs[1..]);
      }
      assert NamesOf(cs) == [cs[0].name] + NamesOf(cs[1..]);
    }
  }

  /** The names that the search looks for are those of the components, in order. */
  lemma WalkOfPath(cs: seq<Component>, rooted: bool)
    requires forall i :: 0 <= i < |cs| ==> Proper(cs[i])
    ensures Walk(PathOf(cs, rooted)) == NamesOf(cs)
  {
    hide First, Rest;
    WalkOfSpelled(cs);
    var p := Spelled(Texts(cs));
    if rooted {
      assert ([0x2f] + p)[1..] == p;
      assert Unslashed(PathOf(cs, rooted)) == p == Unslashed(p);
    }
  }

  // ----- following the names -----

  // The children idx are the first ones that the names lead to; a virtual node ends the way.
  predicate Leads(t: Tree, names: seq<CStr>, idx: seq<nat>)
    decreases |names|
  {
    if t.virtual || names == [] then idx == []
    else
      && idx != [] && idx[0] < |t.kids|
      && (t.kids[idx[0]].wildcard || t.kids[idx[0]].name == names[0])
      && (forall k :: 0 <= k < idx[0] ==> !t.kids[k].wildcard && t.kids[k].name != names[0])
      && Leads(t.kids[idx[0]], names[1..], idx[1..])
  }

  lemma {:induction false} FullScanFollows(t: Tree, path: CStr, idx: seq<nat>)
    ensures FindAll(t, path) == Some(idx) <==> Leads(t, Walk(path), idx)
    decreases |path|
  {
    hide First, Rest;
    var p := Unslashed(path);
    if !t.virtual && p != [] {
      var r := FirstMatch(t.kids, First(p), 0);
      var walk := Walk(path);
      var more := if Rest(p).None? then [] else Walk(Rest(p).value);
      assert walk[0] == First(p) && walk[1..] == more;
      if idx != [] && r == Some(idx[0]) {
        assert idx == [idx[0]] + idx[1..];
        var kid := t.kids[idx[0]];
        assert Leads(kid, [], idx[1..]) <==> idx == [idx[0]];
        if Rest(p).Some? {
          FullScanFollows(kid, Rest(p).value, idx[1..]);
          var below := FindAll(kid, Rest(p).value);
          if below.Some? { assert ([idx[0]] + below.value)[1..] == below.value; }
        }
      }
    }
  }

  /**
    In an ordered tree the search finds the node that the names in the path lead
    to, exactly if it is not hidden on the way, and no other.
   */
  lemma FoundByNames(t: Tree, cs: seq<Component>, rooted: bool, idx: seq<nat>)
    requires Ordered(t) && forall i :: 0 <= i < |cs| ==> Proper(cs[i])
    ensures var path := PathOf(cs, rooted);
      Find(t, path) == Some(idx) <==> Leads(t, NamesOf(cs), idx) && !HiddenOnTheWay(t, path)
  {
    var path := PathOf(cs, rooted);
    WalkOfPath(cs, rooted);
    FindLosesHidden(t, path);
    FullScanFollows(t, path, idx);
  }

  // No node is a wildcard.
  predicate NoWildcards(t: Tree) {
    forall i :: 0 <= i < |t.kids| ==> !t.kids[i].wildcard && NoWildcards(t.kids[i])
  }

  lemma {:induction false} NoneIsHidden(t: Tree)
    requires NoWildcards(t)
    ensures WildcardsFirst(t)
    decreases t
  {
    forall i | 0 <= i < |t.kids| ensures WildcardsFirst(t.kids[i]) {
      NoneIsHidden(t.kids[i]);
    }
  }

  /** Without wildcards, exactly the node that the names lead to. */
  lemma FoundWithoutWildcards(t: Tree, cs: seq<Component>, rooted: bool, idx: seq<nat>)
    requires Ordered(t) && NoWildcards(t) && forall i :: 0 <= i < |cs| ==> Proper(cs[i])
    ensures Find(t, PathOf(cs, rooted)) == Some(idx) <==> Leads(t, NamesOf(cs), idx)
  {
    FoundByNames(t, cs, rooted, idx);
    NoneIsHidden(t);
    FirstIsNotHidden(t, PathOf(cs, rooted));
  }

  lemma {:induction false} StrippedTexts(cs: seq<Component>)
    requires forall i :: 0 <= i < |cs| ==> Proper(cs[i])
    ensures Stripped(Spelled(Texts(cs))) == Spelled(NamesOf(cs))
  {
    hide First, Rest;
    var names, texts := NamesOf(cs), Texts(cs);
    if cs != [] {
      var p := Spelled(texts);
      SpelledSplit(texts);
      SpelledSplit(names);
      TextParts(cs[0], SpelledTail(texts));
      StrippedParts(p);
      assert texts[1..] == Texts(cs[1..]) && names[1..] == NamesOf(cs[1..]);
      if |cs| > 1 {
        assert SpelledTail(texts)[1..] == Spelled(texts[1..]);
        StrippedTexts(cs[1..]);
        assert StrippedTail(p) == [0x2f] + Spelled(names[1..]);
      } else {
        assert StrippedTail(p) == [];
      }
    }
  }

  /** Stripping the options of a path leaves the path of the names. */
  lemma StrippedPath(cs: seq<Component>, rooted: bool)
    requires forall i :: 0 <= i < |cs| ==> Proper(cs[i])
    ensures Stripped(PathOf(cs, rooted)) == if rooted then [0x2f] + Spelled(NamesOf(cs)) else Spelled(NamesOf(cs))
  {
    StrippedTexts(cs);
    if rooted { assert PathOf(cs, rooted)[1..] == Spelled(Texts(cs)); }
  }
}
