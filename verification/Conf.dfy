/**
  The configuration store of conf.c: an array of sections, each an array of
  option-value pairs, both with swap-removal. The view is a map of maps.
 */
module Conf {
  import opened Bytes

  datatype Named<V> = Named(name: string, value: V)

  type Item = Named<string>
  type Section = Named<seq<Item>>

  // ----- arrays of uniquely named entries -----

  predicate Unique<V>(s: seq<Named<V>>) {
    forall i, j :: 0 <= i < j < |s| ==> s[i].name != s[j].name
  }

  predicate Has<V>(s: seq<Named<V>>, name: string) {
    exists i :: 0 <= i < |s| && s[i].name == name
  }

  function AsMap<V>(s: seq<Named<V>>): map<string, V> {
    if s == [] then map[] else AsMap(s[..|s| - 1])[s[|s| - 1].name := s[|s| - 1].value]
  }

  function SwapRemoved<V>(s: seq<Named<V>>, pos: nat): seq<Named<V>>
    requires pos < |s|
  {
    if pos == |s| - 1 then s[..pos] else s[pos := s[|s| - 1]][..|s| - 1]
  }

  // The map says of every name what the array says.
  ghost predicate Agrees<V(!new)>(s: seq<Named<V>>, m: map<string, V>) {
    && (forall i :: 0 <= i < |s| ==> s[i].name in m && m[s[i].name] == s[i].value)
    && (forall name :: name in m ==> Has(s, name))
  }

  lemma {:induction false} MapAgrees<V(!new)>(s: seq<Named<V>>)
    requires Unique(s)
    ensures Agrees(s, AsMap(s))
  {
    if s != [] {
      var init, last := s[..|s| - 1], s[|s| - 1];
      MapAgrees(init);
      forall i | 0 <= i < |s| ensures s[i].name in AsMap(s) && AsMap(s)[s[i].name] == s[i].value {
        if i < |s| - 1 { assert init[i] == s[i]; }
      }
      forall name | name in AsMap(s) ensures Has(s, name) {
        if name == last.name {
          assert s[|s| - 1].name == name;
        } else {
          var k :| 0 <= k < |init| && init[k].name == name;
          assert s[k].name == name;
        }
      }
    }
  }

  lemma AgreeingMaps<V(!new)>(s: seq<Named<V>>, m: map<string, V>)
    requires Unique(s) && Agrees(s, m)
    ensures AsMap(s) == m
  {
    MapAgrees(s);
    forall name ensures name in m <==> name in AsMap(s) {}
    forall name | name in m ensures AsMap(s)[name] == m[name] {
      var i :| 0 <= i < |s| && s[i].name == name;
    }
  }

  lemma HasInMap<V(!new)>(s: seq<Named<V>>, name: string)
    requires Unique(s)
    ensures name in AsMap(s) <==> Has(s, name)
  {
    MapAgrees(s);
  }

  lemma MapAppend<V(!new)>(s: seq<Named<V>>, e: Named<V>)
    requires Unique(s) && !Has(s, e.name)
    ensures Unique(s + [e]) && AsMap(s + [e]) == AsMap(s)[e.name := e.value]
  {
    var t := s + [e];
    assert t[..|t| - 1] == s;
    forall i, j | 0 <= i < j < |t| ensures t[i].name != t[j].name {
      if j == |s| { assert s[i].name != e.name; }
    }
  }

  lemma MapReplace<V(!new)>(s: seq<Named<V>>, i: nat, v: V)
    requires Unique(s) && i < |s|
    ensures Unique(s[i := Named(s[i].name, v)])
    ensures AsMap(s[i := Named(s[i].name, v)]) == AsMap(s)[s[i].name := v]
  {
    var t, m := s[i := Named(s[i].name, v)], AsMap(s)[s[i].name := v];
    MapAgrees(s);
    assert forall k :: 0 <= k < |s| ==> t[k].name == s[k].name;
    forall name | name in m ensures Has(t, name) {
      var k :| 0 <= k < |s| && s[k].name == name;
      assert t[k].name == name;
    }
    AgreeingMaps(t, m);
  }

  // Where entry k of the array after a removal was before it.
  function From(n: nat, pos: nat, k: nat): int { if k == pos then n - 1 else k }

  lemma RemovedAt<V>(s: seq<Named<V>>, pos: nat, k: nat)
    requires pos < |s| && k < |s| - 1
    ensures |SwapRemoved(s, pos)| == |s| - 1
    ensures SwapRemoved(s, pos)[k] == s[From(|s|, pos, k)] && From(|s|, pos, k) != pos
  {
  }

  lemma RemovedUnique<V>(s: seq<Named<V>>, pos: nat)
    requires Unique(s) && pos < |s|
    ensures Unique(SwapRemoved(s, pos))
  {
    var t := SwapRemoved(s, pos);
    forall i, j | 0 <= i < j < |t| ensures t[i].name != t[j].name {
      RemovedAt(s, pos, i);
      RemovedAt(s, pos, j);
    }
  }

  lemma RemovedHas<V>(s: seq<Named<V>>, pos: nat, i: nat)
    requires pos < |s| && i < |s| && i != pos
    ensures Has(SwapRemoved(s, pos), s[i].name)
  {
    var k := if i == |s| - 1 then pos else i;
    RemovedAt(s, pos, k);
    assert SwapRemoved(s, pos)[k].name == s[i].name;
  }

  lemma MapRemove<V(!new)>(s: seq<Named<V>>, pos: nat)
    requires Unique(s) && pos < |s|
    ensures Unique(SwapRemoved(s, pos)) && AsMap(SwapRemoved(s, pos)) == AsMap(s) - {s[pos].name}
  {
    var t, m := SwapRemoved(s, pos), AsMap(s) - {s[pos].name};
    RemovedUnique(s, pos);
    MapAgrees(s);
    forall k | 0 <= k < |t| ensures t[k].name in m && m[t[k].name] == t[k].value {
      RemovedAt(s, pos, k);
    }
    forall name | name in m ensures Has(t, name) {
      var i :| 0 <= i < |s| && s[i].name == name;
      RemovedHas(s, pos, i);
    }
    AgreeingMaps(t, m);
  }

  method FindPos<V>(s: seq<Named<V>>, name: string) returns (pos: int)
    ensures pos >= 0 ==> pos < |s| && s[pos].name == name
    ensures pos < 0 ==> pos == -1 && !Has(s, name)
  {
    for i := 0 to |s|
      invariant forall k :: 0 <= k < i ==> s[k].name != name
    {
      if s[i].name == name {
        return i;
      }
    }
    return -1;
  }

  // ----- the map of maps -----

  type Contents = map<string, map<string, string>>

  predicate WellKept(secs: seq<Section>) {
    Unique(secs) && forall i :: 0 <= i < |secs| ==> Unique(secs[i].value)
  }

  function View(secs: seq<Section>): Contents {
    map name | name in AsMap(secs) :: AsMap(AsMap(secs)[name])
  }

  function Get(m: Contents, name: string): map<string, string> {
    if name in m then m[name] else map[]
  }

  // All sections and options of both; where both have an option, b's value.
  function Merge(a: Contents, b: Contents): Contents {
    map name | name in a.Keys + b.Keys :: Get(a, name) + Get(b, name)
  }

  /** Of two values of an option the other store's counts; nothing is lost and nothing is made up. */
  lemma MergedOption(a: Contents, b: Contents, name: string, option: string)
    ensures name in Merge(a, b) <==> name in a || name in b
    ensures name in Merge(a, b) ==>
      (option in Merge(a, b)[name] <==> (name in a && option in a[name]) || (name in b && option in b[name]))
    ensures name in b && option in b[name] ==> Merge(a, b)[name][option] == b[name][option]
    ensures name in a && option in a[name] && !(name in b && option in b[name]) ==>
      Merge(a, b)[name][option] == a[name][option]
  {
    if name in Merge(a, b) {
      assert Merge(a, b)[name] == Get(a, name) + Get(b, name);
    }
  }

  lemma ViewAt(secs: seq<Section>, i: nat)
    requires WellKept(secs) && i < |secs|
    ensures secs[i].name in View(secs) && View(secs)[secs[i].name] == AsMap(secs[i].value)
  {
    MapAgrees(secs);
  }

  lemma ViewLacks(secs: seq<Section>, name: string)
    requires WellKept(secs) && !Has(secs, name)
    ensures name !in View(secs)
  {
    HasInMap(secs, name);
  }

  lemma ViewAppend(secs: seq<Section>, s: Section)
    requires WellKept(secs) && !Has(secs, s.name) && Unique(s.value)
    ensures WellKept(secs + [s]) && View(secs + [s]) == View(secs)[s.name := AsMap(s.value)]
  {
    MapAppend(secs, s);
  }

  lemma ViewReplace(secs: seq<Section>, i: nat, items: seq<Item>)
    requires WellKept(secs) && i < |secs| && Unique(items)
    ensures WellKept(secs[i := Named(secs[i].name, items)])
    ensures View(secs[i := Named(secs[i].name, items)]) == View(secs)[secs[i].name := AsMap(items)]
  {
    MapReplace(secs, i, items);
  }

  lemma ViewRemove(secs: seq<Section>, pos: nat)
    requires WellKept(secs) && pos < |secs|
    ensures WellKept(SwapRemoved(secs, pos)) && View(SwapRemoved(secs, pos)) == View(secs) - {secs[pos].name}
  {
    MapRemove(secs, pos);
    forall k | 0 <= k < |secs| - 1 ensures Unique(SwapRemoved(secs, pos)[k].value) {
      RemovedAt(secs, pos, k);
    }
  }

  lemma MergeStep(a: Contents, b: Contents, name: string, x: map<string, string>)
    requires name !in b
    ensures Merge(a, b[name := x]) == Merge(a, b)[name := Get(Merge(a, b), name) + x]
  {
    var u, v := Merge(a, b[name := x]), Merge(a, b)[name := Get(Merge(a, b), name) + x];
    assert u.Keys == v.Keys;
    assert Get(Merge(a, b), name) == Get(a, name);
  }

  lemma MergeNothing(a: Contents)
    ensures Merge(a, map[]) == a
  {
    var m := Merge(a, map[]);
    assert m.Keys == a.Keys;
    assert forall name :: name in a ==> m[name] == a[name];
  }

  lemma MergeSelf(a: Contents)
    ensures Merge(a, a) == a
  {
    var m := Merge(a, a);
    assert m.Keys == a.Keys;
    assert forall name :: name in a ==> m[name] == a[name] + a[name] == a[name];
  }

  lemma SetSelf(a: Contents, name: string)
    requires name in a
    ensures a[name := a[name] + a[name]] == a && a[name := Get(a, name)] == a
  {
    assert a[name] + a[name] == a[name];
  }

  // ----- sections -----

  // __russ_confsection_set
  method SectionSet(items: seq<Item>, option: string, value: string) returns (now: seq<Item>)
    requires Unique(items)
    ensures Unique(now) && AsMap(now) == AsMap(items)[option := value]
    ensures forall j :: 0 <= j < |items| && items[j].name == option ==> now == items[j := Named(option, value)]
  {
    var pos := FindPos(items, option);
    if pos < 0 {
      MapAppend(items, Named(option, value));
      now := items + [Named(option, value)];
    } else {
      MapReplace(items, pos, value);
      now := items[pos := Named(option, value)];
    }
  }

  // Sets all of src in dst.
  method SectionSetAll(dst: seq<Item>, src: seq<Item>) returns (now: seq<Item>)
    requires Unique(dst) && Unique(src)
    ensures Unique(now) && AsMap(now) == AsMap(dst) + AsMap(src)
  {
    now := dst;
    for j := 0 to |src|
      invariant Unique(now) && AsMap(now) == AsMap(dst) + AsMap(src[..j])
    {
      assert src[..j + 1][..j] == src[..j];
      now := SectionSet(now, src[j].name, src[j].value);
    }
    assert src[..|src|] == src;
  }

  // The items one by one into a new section.
  method CopyItems(src: seq<Item>) returns (now: seq<Item>)
    requires Unique(src)
    ensures now == src
  {
    now := [];
    for j := 0 to |src|
      invariant now == src[..j]
    {
      NotAmongFirst(src, j);
      var pos := FindPos(now, src[j].name);
      assert pos < 0;
      now := now + [src[j]];
    }
  }

  lemma NotAmongFirst<V>(s: seq<Named<V>>, i: nat)
    requires Unique(s) && i < |s|
    ensures Unique(s[..i]) && !Has(s[..i], s[i].name)
  {
  }

  // One option of one section was set, and nothing else changed.
  predicate OnlySets(was: seq<Section>, now: seq<Section>, section: string, option: string, value: string) {
    && |now| == |was|
    && (forall i :: 0 <= i < |was| ==> now[i].name == was[i].name && (was[i].name != section ==> now[i] == was[i]))
    && (forall i, j :: 0 <= i < |was| && 0 <= j < |was[i].value| ==>
        was[i].name == section && was[i].value[j].name == option ==>
          now[i].value == was[i].value[j := Named(option, value)])
  }

  lemma SetSame(was: seq<Section>, now: seq<Section>, pos: nat, j: nat)
    requires Unique(was) && pos < |was| && j < |was[pos].value|
    requires OnlySets(was, now, was[pos].name, was[pos].value[j].name, was[pos].value[j].value)
    ensures now == was
  {
    var item := was[pos].value[j];
    assert was[pos].value[j := Named(item.name, item.value)] == was[pos].value;
    assert now[pos] == was[pos];
  }

  // The first i items of src are in dst too.
  predicate Dupping(m: Contents, was: Contents, src: string, dst: string, items: seq<Item>, i: nat) {
    i <= |items| && m == if src == dst then was else was[dst := Get(was, dst) + AsMap(items[..i])]
  }

  lemma DupStarts(was: Contents, src: string, dst: string, items: seq<Item>)
    requires src in was
    ensures Dupping(was[dst := Get(was, dst)], was, src, dst, items, 0)
  {
    assert items[..0] == [] && Get(was, dst) + map[] == Get(was, dst);
    if src == dst { SetSelf(was, dst); }
  }

  lemma DupStep(m: Contents, now: Contents, was: Contents, src: string, dst: string, items: seq<Item>, i: nat)
    requires Dupping(m, was, src, dst, items, i) && i < |items| && dst in m
    requires now == if src == dst then m else m[dst := m[dst][items[i].name := items[i].value]]
    ensures Dupping(now, was, src, dst, items, i + 1)
  {
    assert items[..i + 1][..i] == items[..i];
    if src != dst {
      var a, b := Get(was, dst) + AsMap(items[..i]), Get(was, dst) + AsMap(items[..i + 1]);
      assert b == a[items[i].name := items[i].value];
      assert was[dst := a][dst := b] == was[dst := b];
    }
  }

  lemma DupEnds(m: Contents, was: Contents, src: string, dst: string, items: seq<Item>)
    requires Dupping(m, was, src, dst, items, |items|) && src in was && was[src] == AsMap(items)
    ensures m == was[dst := Get(was, dst) + was[src]]
  {
    assert items[..|items|] == items;
    if src == dst { SetSelf(was, dst); }
  }

  class Conf {
    var sections: seq<Section>

    ghost predicate Valid()
      reads this
    {
      WellKept(sections)
    }

    ghost function Map(): Contents
      reads this
    {
      View(sections)
    }

    constructor ()
      ensures Valid() && sections == [] && Map() == map[]
    {
      sections := [];
    }

    method HasOption(section: string, option: string) returns (found: bool)
      requires Valid()
      ensures found <==> section in Map() && option in Map()[section]
    {
      var pos := FindPos(sections, section);
      if pos < 0 {
        ViewLacks(sections, section);
        return false;
      }
      ViewAt(sections, pos);
      var i := FindPos(sections[pos].value, option);
      HasInMap(sections[pos].value, option);
      found := i >= 0;
    }

    // The option's value, or the default.
    method GetValue(section: string, option: string, dvalue: Option<string>) returns (value: Option<string>)
      requires Valid()
      ensures value == if section in Map() && option in Map()[section] then Some(Map()[section][option]) else dvalue
    {
      var pos := FindPos(sections, section);
      if pos < 0 {
        ViewLacks(sections, section);
        return dvalue;
      }
      ViewAt(sections, pos);
      var items := sections[pos].value;
      var i := FindPos(items, option);
      HasInMap(items, option);
      if i < 0 {
        return dvalue;
      }
      MapAgrees(items);
      value := Some(items[i].value);
    }

    /** A section that exists is refused. */
    method AddSection(name: string) returns (rv: int)
      requires Valid()
      modifies this
      ensures Valid() && (rv == -1 <==> name in old(Map()))
      ensures rv == -1 ==> sections == old(sections)
      ensures rv != -1 ==> rv == |old(sections)| && sections == old(sections) + [Named(name, [])]
      ensures rv != -1 ==> Map() == old(Map())[name := map[]]
    {
      var pos := FindPos(sections, name);
      if pos >= 0 {
        ViewAt(sections, pos);
        return -1;
      }
      ViewLacks(sections, name);
      ViewAppend(sections, Named(name, []));
      sections := sections + [Named(name, [])];
      rv := |sections| - 1;
    }

    // The section to put options in, made if there is none.
    method EnsureSection(name: string) returns (pos: nat)
      requires Valid()
      modifies this
      ensures Valid() && pos < |sections| && sections[pos].name == name && |old(sections)| <= |sections|
      ensures Map() == old(Map())[name := Get(old(Map()), name)]
      ensures forall i :: 0 <= i < |old(sections)| ==> sections[i] == old(sections)[i]
    {
      var i := FindPos(sections, name);
      if i < 0 {
        ViewLacks(sections, name);
        i := AddSection(name);
      } else {
        ViewAt(sections, i);
        assert Map() == Map()[name := Get(Map(), name)];
      }
      pos := i;
    }

    /** Sets an option of an existing section. */
    method Set(section: string, option: string, value: string) returns (rv: int)
      requires Valid()
      modifies this
      ensures Valid() && (rv == 0 || rv == -1) && (rv == 0 <==> section in old(Map()))
      ensures rv == 0 ==> Map() == old(Map())[section := old(Map())[section][option := value]]
      ensures rv == -1 ==> sections == old(sections)
      ensures OnlySets(old(sections), sections, section, option, value)
    {
      var pos := FindPos(sections, section);
      if pos < 0 {
        ViewLacks(sections, section);
        return -1;
      }
      ViewAt(sections, pos);
      var items := SectionSet(sections[pos].value, option, value);
      ViewReplace(sections, pos, items);
      sections := sections[pos := Named(section, items)];
      rv := 0;
    }

    /** Sets an option of a section that is made if need be. */
    method Set2(section: string, option: string, value: string) returns (rv: int)
      requires Valid()
      modifies this
      ensures Valid() && rv == 0
      ensures Map() == old(Map())[section := Get(old(Map()), section)[option := value]]
    {
      var pos := EnsureSection(section);
      ViewAt(sections, pos);
      var items := SectionSet(sections[pos].value, option, value);
      ViewReplace(sections, pos, items);
      sections := sections[pos := Named(section, items)];
      rv := 0;
    }

    /** A copy with the same sections and options, in the same order. */
    method Dup() returns (copy: Conf)
      requires Valid()
      ensures fresh(copy) && copy.Valid() && copy.sections == sections && copy.Map() == Map()
    {
      copy := new Conf();
      for i := 0 to |sections|
        invariant copy.Valid() && copy.sections == sections[..i] && fresh(copy)
      {
        NotAmongFirst(sections, i);
        ViewLacks(copy.sections, sections[i].name);
        var ci := copy.AddSection(sections[i].name);
        var items := CopyItems(sections[i].value);
        ViewReplace(copy.sections, ci, items);
        copy.sections := copy.sections[ci := Named(sections[i].name, items)];
        assert sections[..i + 1] == sections[..i] + [sections[i]];
      }
      assert sections[..|sections|] == sections;
    }

    // One step of DupSection, for a section that exists: item i of it goes to dst.
    method DupItem(pos: nat, i: nat, dst: string)
      requires Valid() && pos < |sections| && i < |sections[pos].value| && dst in Map()
      modifies this
      ensures Valid() && pos < |sections| && sections[pos].name == old(sections)[pos].name
      ensures old(sections)[pos].name == dst ==> sections == old(sections)
      ensures old(sections)[pos].name != dst ==> sections[pos] == old(sections)[pos]
      ensures var item := old(sections)[pos].value[i];
        Map() == old(Map())[dst := old(Map())[dst][item.name := item.value]]
    {
      ghost var was := sections;
      var item := sections[pos].value[i];
      var _ := Set(dst, item.name, item.value);
      if was[pos].name == dst {
        SetSame(was, sections, pos, i);
      }
    }

    method DupItems(pos: nat, src: string, dst: string, ghost was: Contents)
      requires Valid() && pos < |sections| && sections[pos].name == src && dst in Map()
      requires Dupping(Map(), was, src, dst, sections[pos].value, 0)
      modifies this
      ensures Valid() && Dupping(Map(), was, src, dst, old(sections)[pos].value, |old(sections)[pos].value|)
    {
      ghost var items := sections[pos].value;
      var i := 0;
      while i < |sections[pos].value|
        invariant Valid() && pos < |sections| && sections[pos] == Named(src, items) && dst in Map()
        invariant 0 <= i <= |items| && Dupping(Map(), was, src, dst, items, i)
        decreases |items| - i
      {
        ghost var m := Map();
        DupItem(pos, i, dst);
        DupStep(m, Map(), was, src, dst, items, i);
        i := i + 1;
      }
    }

    /** Puts the options of one section into another of the same store. */
    method DupSection(src: string, dst: string) returns (rv: int)
      requires Valid()
      modifies this
      ensures Valid() && rv == 0
      ensures src !in old(Map()) ==> sections == old(sections)
      ensures src in old(Map()) ==> Map() == old(Map())[dst := Get(old(Map()), dst) + old(Map())[src]]
    {
      var pos := FindPos(sections, src);
      if pos < 0 {
        ViewLacks(sections, src);
        return 0;
      }
      ViewAt(sections, pos);
      ghost var was, items := Map(), sections[pos].value;
      var _ := EnsureSection(dst);
      DupStarts(was, src, dst, items);
      DupItems(pos, src, dst, was);
      DupEnds(Map(), was, src, dst, items);
      rv := 0;
    }

    /** Afterwards every section and option of both is here, with the other's value where both have one. */
    method Update(other: Conf) returns (rv: int)
      requires Valid() && other.Valid()
      modifies this
      ensures Valid() && rv == 0 && Map() == Merge(old(Map()), old(other.Map()))
    {
      if this == other {
        MergeSelf(Map());
        return 0;
      }
      ghost var was := Map();
      MergeNothing(was);
      assert View([]) == map[];
      for i := 0 to |other.sections|
        invariant Valid() && other.sections == old(other.sections) && Map() == Merge(was, View(other.sections[..i]))
      {
        var o := other.sections[i];
        NotAmongFirst(other.sections, i);
        ghost var v := View(other.sections[..i]);
        ViewLacks(other.sections[..i], o.name);
        ViewAppend(other.sections[..i], o);
        assert other.sections[..i + 1] == other.sections[..i] + [o];
        MergeStep(was, v, o.name, AsMap(o.value));
        SetAll(o.name, o.value);
      }
      assert other.sections[..|other.sections|] == other.sections;
      rv := 0;
    }

    // Sets all items in a section, which is made if need be.
    method SetAll(name: string, items: seq<Item>)
      requires Valid() && Unique(items)
      modifies this
      ensures Valid() && Map() == old(Map())[name := Get(old(Map()), name) + AsMap(items)]
    {
      var pos := EnsureSection(name);
      ViewAt(sections, pos);
      var now := SectionSetAll(sections[pos].value, items);
      ViewReplace(sections, pos, now);
      sections := sections[pos := Named(name, now)];
    }

    /** Puts a section of another store, or of this one, into a section. */
    method UpdateSection(ssecname: string, other: Conf, osecname: string) returns (rv: int)
      requires Valid() && other.Valid()
      modifies this
      ensures Valid() && rv == 0
      ensures osecname !in old(other.Map()) ==> sections == old(sections)
      ensures osecname in old(other.Map()) ==>
        Map() == old(Map())[ssecname := Get(old(Map()), ssecname) + old(other.Map())[osecname]]
    {
      if this == other && ssecname == osecname {
        if ssecname in Map() { SetSelf(Map(), ssecname); }
        return 0;
      }
      var pos := FindPos(other.sections, osecname);
      if pos < 0 {
        ViewLacks(other.sections, osecname);
        return 0;
      }
      ViewAt(other.sections, pos);
      SetAll(ssecname, other.sections[pos].value);
      rv := 0;
    }

    /** Removes an option; the last one takes its place. */
    method RemoveOption(section: string, option: string) returns (rv: int)
      requires Valid()
      modifies this
      ensures Valid() && (rv == 0 || rv == -1) && (rv == 0 <==> section in old(Map()) && option in old(Map())[section])
      ensures rv == 0 ==> Map() == old(Map())[section := old(Map())[section] - {option}]
      ensures rv == -1 ==> sections == old(sections)
    {
      var pos := FindPos(sections, section);
      if pos < 0 {
        ViewLacks(sections, section);
        return -1;
      }
      ViewAt(sections, pos);
      var items := sections[pos].value;
      var i := FindPos(items, option);
      HasInMap(items, option);
      if i < 0 {
        return -1;
      }
      MapRemove(items, i);
      items := SwapRemove(items, i);
      ViewReplace(sections, pos, items);
      sections := sections[pos := Named(section, items)];
      rv := 0;
    }

    /** Removes a section; the last one takes its place. */
    method RemoveSection(section: string) returns (rv: int)
      requires Valid()
      modifies this
      ensures Valid() && (rv == 0 || rv == -1) && (rv == 0 <==> section in old(Map()))
      ensures rv == 0 ==> Map() == old(Map()) - {section}
      ensures rv == -1 ==> sections == old(sections)
    {
      var pos := FindPos(sections, section);
      if pos < 0 {
        ViewLacks(sections, section);
        return -1;
      }
      ViewAt(sections, pos);
      ViewRemove(sections, pos);
      sections := SwapRemove(sections, pos);
      rv := 0;
    }
  }

  // Clears entry pos, moves the last one there unless it is the only one, and shortens the array.
  method SwapRemove<V>(s: seq<Named<V>>, pos: nat) returns (now: seq<Named<V>>)
    requires pos < |s|
    ensures now == SwapRemoved(s, pos)
  {
    now := s;
    if |s| > 1 {
      now := now[pos := now[|now| - 1]];
    }
    now := now[..|now| - 1];
  }
}
