/**
  The service tree in memory: children are linked through `next`, and
  russ_svcnode_add puts a new one in its place. svcnode.c and spath.c.
 */
module SvcNodes {
  import opened Bytes
  import opened Codec
  import opened SvcTree

  const SPATH_MAX := 65536

  function NamesOf(kids: seq<SvcNode>): seq<CStr> {
    seq(|kids|, i requires 0 <= i < |kids| => kids[i].name)
  }

  ghost function NodeAt(kids: seq<SvcNode>, i: nat): SvcNode? {
    if i < |kids| then kids[i] else null
  }

  // Where a new name goes.
  predicate Between(names: seq<CStr>, name: CStr, p: nat) {
    && p <= |names|
    && (forall k :: 0 <= k < p ==> Strcmp(names[k], name) < 0)
    && (forall k :: p <= k < |names| ==> Strcmp(name, names[k]) < 0)
  }

  lemma SortedWith(names: seq<CStr>, name: CStr, p: nat)
    requires SortedNames(names) && Between(names, name, p)
    ensures SortedNames(names[..p] + [name] + names[p..]) && name !in names
  {
    var now := names[..p] + [name] + names[p..];
    forall i, j | 0 <= i < j < |now| ensures Strcmp(now[i], now[j]) < 0 {
      if i != p && j != p {
        var a, b := if i < p then i else i - 1, if j < p then j else j - 1;
        assert now[i] == names[a] && now[j] == names[b];
      }
    }
    StrcmpZero(name, name);
  }

  // The search for the place stops at the first name that is not smaller.
  lemma PlaceFound(names: seq<CStr>, name: CStr, p: nat)
    requires SortedNames(names) && p <= |names| && forall k :: 0 <= k < p ==> Strcmp(names[k], name) < 0
    requires p < |names| ==> Strcmp(names[p], name) > 0
    ensures Between(names, name, p)
  {
    forall k | p <= k < |names| ensures Strcmp(name, names[k]) < 0 {
      StrcmpFlips(names[p], name);
      if k > p { StrcmpTransitive(name, names[p], names[k]); }
    }
  }

  function FoundBelow(t: Tree, p: CStr): Option<seq<nat>> {
    match Pick(t.kids, First(p), 0)
    case None => None
    case Some(i) =>
      var q := if Rest(p).None? then Some([]) else Find(t.kids[i], Rest(p).value);
      if q.None? then None else Some([i] + q.value)
  }

  function MarkedBelow(t: Tree, p: CStr, m: MatchBuf, cap: int): MatchBuf {
    match Pick(t.kids, First(p), 0)
    case None => m.(shown := false)
    case Some(i) =>
      var m1 := Marked(m, p[..SLen(p)], cap);
      if Rest(p).None? then m1 else MatchBelow(t.kids[i], Rest(p).value, m1, cap)
  }

  lemma FindFrom(t: Tree, path: CStr, m: MatchBuf, cap: int)
    requires !t.virtual && Unslashed(path) != []
    ensures Find(t, path) == FoundBelow(t, Unslashed(path))
    ensures MatchBelow(t, path, m, cap) == MarkedBelow(t, Unslashed(path), m, cap)
  {
    var p := Unslashed(path);
    var r := Pick(t.kids, First(p), 0);
    if r.Some? && Rest(p).None? { assert [r.value] + [] == [r.value]; }
  }

  lemma NamesInserted(was: seq<SvcNode>, p: nat, node: SvcNode)
    requires p <= |was|
    ensures NamesOf(was[..p] + [node] + was[p..]) == NamesOf(was)[..p] + [node.name] + NamesOf(was)[p..]
  {
  }

  // ----- the tree that linked nodes form -----

  type Links = map<SvcNode, seq<SvcNode>>

  ghost function KidsOf(all: set<SvcNode>): Links
    reads all
  {
    map k | k in all :: k.kids
  }

  // Virtual, and a wildcard.
  ghost function MarksOf(all: set<SvcNode>): map<SvcNode, (bool, bool)>
    reads all
  {
    map k | k in all :: (k.virtual, k.wildcard)
  }

  // The tree below a node.
  ghost predicate Shape(m: Links, marks: map<SvcNode, (bool, bool)>, x: SvcNode, t: Tree)
    decreases t
  {
    && x in m && x in marks && x.name == t.name && marks[x] == (t.virtual, t.wildcard)
    && |m[x]| == |t.kids| && forall i :: 0 <= i < |t.kids| ==> Shape(m, marks, m[x][i], t.kids[i])
  }

  // No node is linked twice.
  ghost predicate Unshared(m: Links) {
    forall a, b, i, j ::
      a in m && b in m && 0 <= i < |m[a]| && 0 <= j < |m[b]| && m[a][i] == m[b][j] ==> a == b && i == j
  }

  // Every node is linked to its children, which are among the nodes.
  ghost predicate AllLinked(all: set<SvcNode>)
    reads all
  {
    && (forall k, i :: k in all && 0 <= i < |k.kids| ==> k.kids[i] in all && k.kids[i] != k)
    && (forall k :: k in all ==> k.Linked())
  }

  // The nodes are linked, and form this tree.
  ghost predicate Rooted(root: SvcNode, t: Tree, all: set<SvcNode>)
    reads all
  {
    && AllLinked(all) && Unshared(KidsOf(all)) && Shape(KidsOf(all), MarksOf(all), root, t)
  }

  // The tree with a leaf as child p of node n.
  ghost function Grown(m: Links, x: SvcNode, t: Tree, n: SvcNode, p: nat, leaf: Tree): Tree
    decreases t
  {
    var kids := seq(|t.kids|, i requires 0 <= i < |t.kids| =>
      if x in m && i < |m[x]| then Grown(m, m[x][i], t.kids[i], n, p, leaf) else t.kids[i]);
    t.(kids := if x == n && p <= |kids| then kids[..p] + [leaf] + kids[p..] else kids)
  }

  // Children are among the nodes, and none is its own.
  ghost predicate Closed(m: Links) {
    forall k, i :: k in m && 0 <= i < |m[k]| ==> m[k][i] in m && m[k][i] != k
  }

  lemma UnsharedGrows(m: Links, n: SvcNode, p: nat, node: SvcNode)
    requires Unshared(m) && n in m && p <= |m[n]| && node !in m
    requires Closed(m)
    ensures Unshared(m[n := m[n][..p] + [node] + m[n][p..]][node := []])
  {
    var m' := m[n := m[n][..p] + [node] + m[n][p..]][node := []];
    forall a, b, i, j | a in m' && b in m' && 0 <= i < |m'[a]| && 0 <= j < |m'[b]| && m'[a][i] == m'[b][j]
      ensures a == b && i == j
    {
      assert m'[a][i] == if a == n then (if i < p then m[n][i] else if i == p then node else m[n][i - 1]) else m[a][i];
      assert m'[b][j] == if b == n then (if j < p then m[n][j] else if j == p then node else m[n][j - 1]) else m[b][j];
    }
  }

  lemma KidsApart(m: Links, a: SvcNode, b: SvcNode)
    requires Unshared(m) && a in m && b in m && a != b
    ensures forall i :: 0 <= i < |m[a]| ==> m[a][i] !in m[b]
  {
  }

  lemma GrownNode(m: Links, x: SvcNode, t: Tree, n: SvcNode, p: nat, leaf: Tree)
    requires x in m && |m[x]| == |t.kids| && (x == n ==> p <= |m[n]|)
    ensures var g := Grown(m, x, t, n, p, leaf);
      && (g.name, g.virtual, g.wildcard) == (t.name, t.virtual, t.wildcard)
      && |g.kids| == |t.kids| + (if x == n then 1 else 0) && (x == n ==> g.kids[p] == leaf)
  {
  }

  // Where child k of a node is after that.
  function Moved(at: bool, p: nat, k: nat): nat { if at && p <= k then k + 1 else k }

  lemma GrownKid(m: Links, x: SvcNode, t: Tree, n: SvcNode, p: nat, leaf: Tree, k: nat)
    requires x in m && |m[x]| == |t.kids| && (x == n ==> p <= |m[n]|) && k < |t.kids|
    ensures var g := Grown(m, x, t, n, p, leaf);
      Moved(x == n, p, k) < |g.kids| && g.kids[Moved(x == n, p, k)] == Grown(m, m[x][k], t.kids[k], n, p, leaf)
  {
    var kids := seq(|t.kids|, i requires 0 <= i < |t.kids| =>
      if x in m && i < |m[x]| then Grown(m, m[x][i], t.kids[i], n, p, leaf) else t.kids[i]);
    assert kids[k] == Grown(m, m[x][k], t.kids[k], n, p, leaf);
    if x == n && p <= k { assert (kids[..p] + [leaf] + kids[p..])[k + 1] == kids[k]; }
  }

  lemma ShapeMade(m: Links, marks: map<SvcNode, (bool, bool)>, x: SvcNode, t: Tree)
    requires x in m && x in marks && x.name == t.name && marks[x] == (t.virtual, t.wildcard)
    requires |m[x]| == |t.kids| && forall i :: 0 <= i < |t.kids| ==> Shape(m, marks, m[x][i], t.kids[i])
    ensures Shape(m, marks, x, t)
  {
  }

  lemma ShapeParts(m: Links, marks: map<SvcNode, (bool, bool)>, x: SvcNode, t: Tree)
    requires Shape(m, marks, x, t)
    ensures x in m && x in marks && x.name == t.name && marks[x] == (t.virtual, t.wildcard)
    ensures |m[x]| == |t.kids| && forall i :: 0 <= i < |t.kids| ==> Shape(m, marks, m[x][i], t.kids[i])
  {
  }

  lemma {:induction false} ShapeGrows(m: Links, marks: map<SvcNode, (bool, bool)>, x: SvcNode, t: Tree, n: SvcNode,
                                      p: nat, node: SvcNode)
    requires Shape(m, marks, x, t) && n in m && p <= |m[n]| && node !in m
    ensures var leaf := Tree(node.name, false, false, []);
      Shape(m[n := m[n][..p] + [node] + m[n][p..]][node := []], marks[node := (false, false)], x,
            Grown(m, x, t, n, p, leaf))
    decreases t
  {
    hide Shape, Grown;
    var leaf := Tree(node.name, false, false, []);
    var m', marks' := m[n := m[n][..p] + [node] + m[n][p..]][node := []], marks[node := (false, false)];
    var g := Grown(m, x, t, n, p, leaf);
    ShapeParts(m, marks, x, t);
    GrownNode(m, x, t, n, p, leaf);
    ShapeMade(m', marks', node, leaf);
    forall i | 0 <= i < |g.kids| ensures Shape(m', marks', m'[x][i], g.kids[i]) {
      var k := if x != n || i < p then i else i - 1;
      if x == n && i == p {
        assert m'[x][i] == node;
      } else {
        GrownKid(m, x, t, n, p, leaf, k);
        assert m'[x][i] == m[x][k];
        ShapeGrows(m, marks, m[x][k], t.kids[k], n, p, node);
      }
    }
    ShapeMade(m', marks', x, g);
  }

  // Every sibling list is sorted.
  ghost predicate AllSorted(all: set<SvcNode>)
    reads all
  {
    forall k :: k in all ==> SortedNames(NamesOf(k.kids))
  }

  class SvcNode {
    const name: CStr
    var virtual: bool
    var wildcard: bool
    var autoanswer: bool
    var next: SvcNode?
    var children: SvcNode?
    ghost var kids: seq<SvcNode>

    constructor (name: CStr)
      ensures this.name == name && !virtual && !wildcard && autoanswer && next == null && kids == [] && Linked()
      ensures Rooted(this, Tree(name, false, false, []), {this}) && AllSorted({this})
    {
      this.name := name;
      virtual, wildcard, autoanswer := false, false, true;
      next, children, kids := null, null, [];
    }

    // The children are linked in order, each once.
    ghost predicate Linked()
      reads this, kids
    {
      && children == NodeAt(kids, 0)
      && (forall i :: 0 <= i < |kids| ==> kids[i].next == NodeAt(kids, i + 1))
      && (forall i, j :: 0 <= i < j < |kids| ==> kids[i] != kids[j])
    }

    // The siblings before and after the place of a name, unless it is there already.
    method FindPlace(name: CStr) returns (found: bool, last: SvcNode?, curr: SvcNode?, ghost p: nat)
      requires Linked() && SortedNames(NamesOf(kids))
      ensures p <= |kids| && curr == NodeAt(kids, p) && last == (if p == 0 then null else kids[p - 1])
      ensures found ==> name in NamesOf(kids)
      ensures !found ==> Between(NamesOf(kids), name, p)
    {
      ghost var names := NamesOf(kids);
      last, curr, p, found := null, children, 0, false;
      while curr != null
        invariant p <= |kids| && curr == NodeAt(kids, p) && last == (if p == 0 then null else kids[p - 1])
        invariant forall k :: 0 <= k < p ==> Strcmp(names[k], name) < 0
        decreases |kids| - p
      {
        var cmp := Strcmp(curr.name, name);
        if cmp == 0 {
          StrcmpZero(curr.name, name);
          assert names[p] == name;
          found := true;
          return;
        } else if cmp > 0 {
          break;
        }
        last := curr;
        curr := curr.next;
        p := p + 1;
      }
      PlaceFound(names, name, p);
    }

    // Links a node in after `last`, or first.
    method LinkIn(node: SvcNode, last: SvcNode?, curr: SvcNode?, ghost p: nat)
      requires Linked() && p <= |kids| && curr == NodeAt(kids, p) && last == (if p == 0 then null else kids[p - 1])
      requires this !in kids && node !in kids && node != this
      modifies this`children, this`kids, kids, node`next
      ensures Linked() && kids == old(kids)[..p] + [node] + old(kids)[p..]
      ensures forall k :: k in old(kids) ==>
        k.virtual == old(k.virtual) && k.wildcard == old(k.wildcard) && k.autoanswer == old(k.autoanswer)
      ensures forall k :: k in old(kids) ==> k.children == old(k.children) && k.kids == old(k.kids)
    {
      ghost var was := kids;
      if last == null {
        node.next := children;
        children := node;
      } else {
        last.next := node;
        node.next := curr;
      }
      kids := was[..p] + [node] + was[p..];
      LinkedIn(was, p, node);
    }

    /**
      Adds a child in its place. Siblings stay sorted by strcmp, each name
      once: a name that is there already is refused.
     */
    method Add(name: CStr) returns (node: SvcNode?, ghost p: nat)
      requires Linked() && SortedNames(NamesOf(kids)) && this !in kids
      modifies this`children, this`kids, kids
      ensures Linked() && SortedNames(NamesOf(kids)) && this !in kids
      ensures node == null <==> name in NamesOf(old(kids))
      ensures node == null ==> kids == old(kids) && children == old(children) && unchanged(kids)
      ensures node != null ==> fresh(node) && node.name == name && !node.wildcard && !node.virtual
      ensures node != null ==> node.kids == [] && node.Linked()
      ensures node != null ==> p <= |old(kids)| && kids == old(kids)[..p] + [node] + old(kids)[p..]
      ensures forall k :: k in old(kids) ==>
        k.virtual == old(k.virtual) && k.wildcard == old(k.wildcard) && k.autoanswer == old(k.autoanswer)
      ensures forall k :: k in old(kids) ==> k.children == old(k.children) && k.kids == old(k.kids)
    {
      ghost var was, names := kids, NamesOf(kids);
      var found, last, curr;
      found, last, curr, p := FindPlace(name);
      if found {
        return null, p;
      }
      SortedWith(names, name, p);
      node := new SvcNode(name);
      LinkIn(node, last, curr, p);
      NamesInserted(was, p, node);
    }

    lemma LinkedIn(was: seq<SvcNode>, p: nat, node: SvcNode)
      requires p <= |was| && kids == was[..p] + [node] + was[p..] && node !in was
      requires children == (if p == 0 then node else NodeAt(was, 0)) && node.next == NodeAt(was, p)
      requires forall i :: 0 <= i < |was| ==> was[i].next == if i + 1 == p then node else NodeAt(was, i + 1)
      requires forall i, j :: 0 <= i < j < |was| ==> was[i] != was[j]
      ensures Linked()
    {
      forall i | 0 <= i < |kids| ensures kids[i].next == NodeAt(kids, i + 1) {
        if i > p { assert kids[i] == was[i - 1]; }
      }
    }

    /**
      Adds a child to a node of a tree. The nodes then form the same tree with a
      leaf of that name in its place, and all siblings stay sorted; a name that
      is there already changes nothing.
     */
    method AddIn(name: CStr, ghost root: SvcNode, ghost t: Tree, ghost all: set<SvcNode>)
      returns (node: SvcNode?, ghost p: nat)
      requires Rooted(root, t, all) && AllSorted(all) && this in all
      modifies this`children, this`kids, kids
      ensures node == null <==> name in NamesOf(old(kids))
      ensures node == null ==> Rooted(root, t, all) && AllSorted(all)
      ensures node != null ==> fresh(node) && AllSorted(all + {node})
      ensures node != null ==>
        Rooted(root, Grown(old(KidsOf(all)), root, t, this, p, Tree(name, false, false, [])), all + {node})
    {
      hide Shape, Unshared, SortedNames, Grown, NamesOf, KidsOf, MarksOf, Rooted, AllLinked, AllSorted, Closed,
           OthersKept;
      ghost var m, marks := KidsOf(all), MarksOf(all);
      Opened(root, t, all);
      node, p := Add(name);
      assert forall k :: k in all && k != this ==> k.kids == m[k] && k.children == old(k.children);
      forall k | k in all && k != this ensures k.Linked() {
        KidsApart(m, k, this);
        OneStill(k);
      }
      OthersAre(all, m, marks);
      if node == null {
        RootedStill(root, t, all, m, marks);
      } else {
        LeafLinked(all, m, marks, p, node);
        KidsGrow(all, m, node);
        MarksGrow(all, marks, node);
        RootedGrows(root, t, all, m, marks, p, node);
      }
    }

    lemma Opened(root: SvcNode, t: Tree, all: set<SvcNode>)
      requires Rooted(root, t, all) && AllSorted(all) && this in all
      ensures Linked() && SortedNames(NamesOf(kids)) && this !in kids && KidsOf(all).Keys == MarksOf(all).Keys == all
      ensures forall k :: k in all ==> k.Linked() && KidsOf(all)[k] == k.kids && SortedNames(NamesOf(k.kids))
      ensures forall k :: k in all ==> MarksOf(all)[k] == (k.virtual, k.wildcard)
      ensures Closed(KidsOf(all)) && Unshared(KidsOf(all)) && Shape(KidsOf(all), MarksOf(all), root, t)
    {
    }

    // The nodes but this one have the children and the marks that they had, linked and sorted.
    ghost predicate OthersKept(all: set<SvcNode>, m: Links, marks: map<SvcNode, (bool, bool)>)
      reads all
    {
      && m.Keys == marks.Keys == all
      && (forall k, i :: k in all && k != this && 0 <= i < |k.kids| ==> k.kids[i] in all && k.kids[i] != k)
      && (forall k :: k in all && k != this ==> k.kids == m[k] && k.Linked() && SortedNames(NamesOf(k.kids)))
      && (forall k :: k in all ==> (k.virtual, k.wildcard) == marks[k])
    }

    // A node that shares no child with this one stays linked.
    twostate lemma OneStill(k: SvcNode)
      requires old(k.Linked()) && k.kids == old(k.kids) && k.children == old(k.children)
      requires forall i :: 0 <= i < |k.kids| ==> k.kids[i].next == old(k.kids[i].next)
      ensures k.Linked()
    {
    }

    lemma OthersAre(all: set<SvcNode>, m: Links, marks: map<SvcNode, (bool, bool)>)
      requires m.Keys == marks.Keys == all && Closed(m)
      requires forall k :: k in all && k != this ==> k.kids == m[k] && k.Linked()
      requires forall k :: k in all ==> (k.virtual, k.wildcard) == marks[k] && SortedNames(NamesOf(m[k]))
      ensures OthersKept(all, m, marks)
    {
      hide SortedNames, NamesOf;
    }

    lemma RootedStill(root: SvcNode, t: Tree, all: set<SvcNode>, m: Links, marks: map<SvcNode, (bool, bool)>)
      requires OthersKept(all, m, marks) && this in all && kids == m[this] && Linked() && SortedNames(NamesOf(kids))
      requires Closed(m) && Unshared(m) && Shape(m, marks, root, t)
      ensures Rooted(root, t, all) && AllSorted(all)
    {
      hide Shape, Unshared, SortedNames, NamesOf;
      assert KidsOf(all) == m && MarksOf(all) == marks;
    }

    lemma LeafLinked(all: set<SvcNode>, m: Links, marks: map<SvcNode, (bool, bool)>, p: nat, node: SvcNode)
      requires this in all && node !in all && OthersKept(all, m, marks) && p <= |m[this]|
      requires kids == m[this][..p] + [node] + m[this][p..] && Closed(m)
      requires Linked() && SortedNames(NamesOf(kids)) && node.kids == [] && node.Linked()
      ensures AllLinked(all + {node}) && AllSorted(all + {node})
    {
      hide SortedNames;
      var now := all + {node};
      assert SortedNames(NamesOf(node.kids)) by { NoNames(node.kids); }
      forall i | 0 <= i < |kids| ensures kids[i] in now && kids[i] != this {
        assert kids[i] == if i < p then m[this][i] else if i == p then node else m[this][i - 1];
      }
    }

    lemma NoNames(none: seq<SvcNode>)
      requires none == []
      ensures SortedNames(NamesOf(none))
    {
    }

    lemma KidsGrow(all: set<SvcNode>, m: Links, node: SvcNode)
      requires m.Keys == all && this in all && node !in all && node.kids == []
      requires forall k :: k in all && k != this ==> k.kids == m[k]
      ensures KidsOf(all + {node}) == m[this := kids][node := []]
    {
    }

    lemma MarksGrow(all: set<SvcNode>, marks: map<SvcNode, (bool, bool)>, node: SvcNode)
      requires marks.Keys == all && node !in all && !node.virtual && !node.wildcard
      requires forall k :: k in all ==> (k.virtual, k.wildcard) == marks[k]
      ensures MarksOf(all + {node}) == marks[node := (false, false)]
    {
    }

    lemma RootedGrows(root: SvcNode, t: Tree, all: set<SvcNode>, m: Links, marks: map<SvcNode, (bool, bool)>, p: nat,
                      node: SvcNode)
      requires this in m && node !in m && p <= |m[this]| && kids == m[this][..p] + [node] + m[this][p..]
      requires KidsOf(all + {node}) == m[this := kids][node := []]
      requires MarksOf(all + {node}) == marks[node := (false, false)]
      requires AllLinked(all + {node}) && Closed(m) && Unshared(m) && Shape(m, marks, root, t)
      ensures Rooted(root, Grown(m, root, t, this, p, Tree(node.name, false, false, [])), all + {node})
    {
      hide Shape, Unshared, Grown, KidsOf, MarksOf, AllLinked, Closed;
      UnsharedGrows(m, this, p, node);
      ShapeGrows(m, marks, root, t, this, p, node);
    }

    // The tree below this node; `all` holds its nodes.
    ghost predicate Is(t: Tree, all: set<SvcNode>)
      reads this, all
      decreases t
    {
      && this in all && name == t.name && virtual == t.virtual && wildcard == t.wildcard
      && (forall i :: 0 <= i < |kids| ==> kids[i] in all) && Linked()
      && |kids| == |t.kids| && forall i :: 0 <= i < |kids| ==> kids[i].Is(t.kids[i], all)
    }

    /** The nodes of a tree are as the search needs them, in whatever order children were added. */
    lemma {:induction false} RootedIs(t: Tree, all: set<SvcNode>)
      requires Rooted(this, t, all)
      ensures Is(t, all)
      decreases t
    {
      forall i | 0 <= i < |kids| ensures kids[i].Is(t.kids[i], all) {
        kids[i].RootedIs(t.kids[i], all);
      }
    }

    /** Linked nodes whose siblings are all sorted, as `Add` keeps them, are an ordered tree. */
    lemma {:induction false} SortedIsOrdered(t: Tree, all: set<SvcNode>)
      requires Is(t, all) && AllSorted(all)
      ensures Ordered(t)
      decreases t
    {
      assert NamesOf(kids) == Names(t.kids);
      forall i | 0 <= i < |t.kids| ensures Ordered(t.kids[i]) {
        kids[i].SortedIsOrdered(t.kids[i], all);
      }
    }

    // The node at a position.
    ghost function Below(q: seq<nat>, all: set<SvcNode>): SvcNode?
      reads this, all
      decreases |q|
    {
      if q == [] then this
      else if q[0] < |kids| && kids[q[0]] in all then kids[q[0]].Below(q[1..], all)
      else null
    }

    // The node that a search says, at a position or nowhere.
    ghost function Named(at: Option<seq<nat>>, all: set<SvcNode>): SvcNode?
      reads this, all
    {
      if at.None? then null else Below(at.value, all)
    }

    /**
      Among sorted linked nodes the search gives none exactly when the full scan
      finds none or goes through a hidden wildcard, and otherwise the node that
      the full scan finds; hence that node if wildcards come first.
     */
    lemma SearchOfLinked(t: Tree, path: CStr, all: set<SvcNode>)
      requires Is(t, all) && AllSorted(all)
      ensures Named(Find(t, path), all)
        == if HiddenOnTheWay(t, path) then null else Named(FindAll(t, path), all)
      ensures WildcardsFirst(t) ==> Named(Find(t, path), all) == Named(FindAll(t, path), all)
    {
      SortedIsOrdered(t, all);
      FindLosesHidden(t, path);
      if WildcardsFirst(t) {
        ShortCircuitIsFullScan(t, path);
      }
    }

    // The loop over the children.
    method PickChild(path: CStr, nlen: nat, ghost t: Tree, ghost all: set<SvcNode>) returns (node: SvcNode?)
      requires Is(t, all) && nlen <= |path|
      ensures var i := Pick(t.kids, path[..nlen], 0);
        && node == (if i.Some? then kids[i.value] else null)
        && (i.Some? ==> kids[i.value] in all && kids[i.value].Is(t.kids[i.value], all))
    {
      ghost var comp, k := path[..nlen], 0;
      node := children;
      while node != null
        invariant 0 <= k <= |kids| && node == NodeAt(kids, k) && Pick(t.kids, comp, 0) == Pick(t.kids, comp, k)
        decreases |kids| - k
      {
        assert kids[k].Is(t.kids[k], all);
        var cmp := Strncmp(node.name, path, nlen);
        ComparePrefix(node.name, path, nlen);
        FullMatch(node.name, comp);
        if !node.wildcard && cmp > 0 {
          return null;
        } else if node.wildcard || (cmp == 0 && |node.name| == nlen) {
          return node;
        }
        node := node.next;
        k := k + 1;
      }
    }

    /**
      The search, on the linked nodes: it gives the node that Find says, and
      none exactly if Find says none, and leaves the matched path.
     */
    method FindNode(path: CStr, m: MatchBuf, cap: int, ghost t: Tree, ghost all: set<SvcNode>)
      returns (node: SvcNode?, mpath: MatchBuf)
      requires Is(t, all)
      ensures node == Named(Find(t, path), all) && (node == null <==> Find(t, path).None?)
      ensures mpath == MatchBelow(t, path, m, cap)
      ensures AllSorted(all) ==> node == if HiddenOnTheWay(t, path) then null else Named(FindAll(t, path), all)
      decreases |path|, 1
    {
      if AllSorted(all) {
        SearchOfLinked(t, path, all);
      }
      var p := if path != [] && path[0] == SLASH then path[1..] else path;
      if virtual || p == [] {
        return this, m;
      }
      node, mpath := FindBelow(p, m, cap, t, all);
      FindFrom(t, path, m, cap);
    }

    // The search among the children.
    method FindBelow(p: CStr, m: MatchBuf, cap: int, ghost t: Tree, ghost all: set<SvcNode>)
      returns (node: SvcNode?, mpath: MatchBuf)
      requires Is(t, all) && p != []
      ensures node == Named(FoundBelow(t, p), all) && (node == null <==> FoundBelow(t, p).None?)
      ensures mpath == MarkedBelow(t, p, m, cap)
      decreases |p|, 0
    {
      var nlen, slen := Lengths(p);
      mpath := m.(shown := false);
      node := PickChild(p, nlen, t, all);
      if node == null {
        return;
      }
      ghost var k, q := Pick(t.kids, First(p), 0).value, Some([]);
      if 1 + slen + 1 < cap {
        mpath := MatchBuf(true, mpath.tail + p[..slen]);
      }
      if slen < |p| {
        node, mpath := node.FindNode(p[slen + 1..], mpath, cap, t.kids[k], all);
        q := Find(t.kids[k], p[slen + 1..]);
      }
      assert FoundBelow(t, p) == if q.None? then None else Some([k] + q.value);
      if q.Some? {
        BelowKid(k, q.value, all);
      }
    }

    lemma BelowKid(k: nat, q: seq<nat>, all: set<SvcNode>)
      requires k < |kids| && kids[k] in all
      ensures Below([k] + q, all) == kids[k].Below(q, all)
    {
      assert ([k] + q)[1..] == q;
    }
  }

  // Only the first n characters of the second string count.
  lemma {:induction false} ComparePrefix(a: CStr, b: CStr, n: nat)
    requires n <= |b|
    ensures Strncmp(a, b, n) == Strncmp(a, b[..n], n)
  {
    if n > 0 && a != [] && a[0] == b[0] {
      assert b[..n][1..] == b[1..][..n - 1];
      ComparePrefix(a[1..], b[1..], n - 1);
    }
  }

  // The lengths of the first component, without and with its options.
  method Lengths(p: CStr) returns (nlen: nat, slen: nat)
    ensures nlen == NLen(p) && slen == SLen(p)
    ensures Rest(p) == if slen == |p| then None else Some(p[slen + 1..])
  {
    slen := 0;
    while slen < |p| && p[slen] != SLASH
      invariant slen <= |p| && SLen(p) == slen + SLen(p[slen..])
    {
      assert p[slen..][1..] == p[slen + 1..];
      slen := slen + 1;
    }
    nlen := 0;
    while nlen < slen && p[nlen] != QUERY
      invariant nlen <= slen && NLen(p) == nlen + NLen(p[nlen..])
    {
      SLenBeyond(p, nlen);
      assert p[nlen..][1..] == p[nlen + 1..];
      nlen := nlen + 1;
    }
    if nlen == slen && slen < |p| { SlashAt(p); }
  }

  lemma {:induction false} SLenBeyond(p: CStr, k: nat)
    requires k < SLen(p)
    ensures p[k] != SLASH
  {
    if k > 0 {
      SLenBeyond(p[1..], k - 1);
    }
  }

  // To the end of a component.
  method SkipOptions(spath: CStr, from: nat) returns (src: nat)
    requires from <= |spath|
    ensures from <= src <= |spath| && (src < |spath| ==> spath[src] == SLASH)
    ensures AfterOptions(spath[from..]) == if src == |spath| then [] else Prepend(SLASH, Stripped(spath[src + 1..]))
  {
    src := from;
    while src < |spath| && spath[src] != SLASH
      invariant from <= src <= |spath| && AfterOptions(spath[from..]) == AfterOptions(spath[src..])
    {
      assert spath[src..][1..] == spath[src + 1..];
      src := src + 1;
    }
    if src < |spath| { assert spath[src..][1..] == spath[src + 1..]; }
  }

  lemma StrippedAt(spath: CStr, src: nat)
    requires src < |spath|
    ensures Stripped(spath[src..]) == if spath[src] == QUERY then AfterOptions(spath[src + 1..])
      else Prepend(spath[src], Stripped(spath[src + 1..]))
  {
    assert spath[src..][1..] == spath[src + 1..];
  }

  lemma NothingStripped()
    ensures Stripped([]) == []
  {
  }

  lemma OneMore(dst: seq<byte>, c: byte, rest: CStr)
    requires c != 0
    ensures dst + Prepend(c, rest) == dst + [c] + rest
  {
  }

  /** Strips the options of every component; a path over the limit is refused. */
  method StripOptions(spath: CStr) returns (r: Option<CStr>)
    ensures r == if |spath| > SPATH_MAX then None else Some(Stripped(spath))
  {
    if |spath| > SPATH_MAX {
      return None;
    }
    hide Stripped, AfterOptions, Prepend;
    var dst: seq<byte> := [];
    var src := 0;
    NothingStripped();
    assert spath[0..] == spath && [] + Stripped(spath) == Stripped(spath);
    while src < |spath|
      invariant 0 <= src <= |spath| && Stripped(spath) == dst + Stripped(spath[src..])
    {
      StrippedAt(spath, src);
      if spath[src] == QUERY {
        src := SkipOptions(spath, src + 1);
        if src == |spath| {
          break;
        }
      }
      OneMore(dst, spath[src], Stripped(spath[src + 1..]));
      dst := dst + [spath[src]];
      src := src + 1;
    }
    assert spath[|spath|..] == [] && dst + [] == dst;
    r := Some(dst);
  }
}
