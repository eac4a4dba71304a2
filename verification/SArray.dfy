/** NULL-terminated string arrays: sarray0.c. */
module SArray {
  import opened Bytes

  // The strings before the NULL.
  predicate Holds(a: seq<Option<string>>, v: seq<string>) {
    |v| < |a| && a[|v|] == None && forall i :: 0 <= i < |v| ==> a[i] == Some(v[i])
  }

  // russ_sarray0_find_prefix: the first that starts so.
  function FindPrefix(v: seq<string>, prefix: string): (r: int)
    ensures r >= 0 ==> r < |v| && prefix <= v[r] && forall i :: 0 <= i < r ==> !(prefix <= v[i])
    ensures r < 0 ==> r == -1 && forall i :: 0 <= i < |v| ==> !(prefix <= v[i])
  {
    if v == [] then -1
    else if prefix <= v[0] then 0
    else
      var r := FindPrefix(v[1..], prefix);
      assert forall i :: 1 <= i < |v| ==> v[i] == v[1..][i - 1];
      if r < 0 then -1 else r + 1
  }

  function Suffix(v: seq<string>, prefix: string): Option<string> {
    var i := FindPrefix(v, prefix);
    if i < 0 then None else Some(v[i][|prefix|..])
  }

  /** russ_sarray0_get_suffix */
  method GetSuffix(arr: array<Option<string>>, ghost v: seq<string>, prefix: string) returns (r: Option<string>)
    requires Holds(arr[..], v)
    ensures r == Suffix(v, prefix)
  {
    var i := 0;
    assert v[0..] == v;
    while arr[i].Some?
      invariant 0 <= i <= |v| && forall k :: 0 <= k < i ==> !(prefix <= v[k])
      decreases |v| - i
    {
      if prefix <= arr[i].value {
        return Some(arr[i].value[|prefix|..]);
      }
      i := i + 1;
    }
    r := None;
  }

  // realloc
  method Realloc(arr: array<Option<string>>, n: nat, size: nat) returns (a: array<Option<string>>)
    requires n <= arr.Length && n <= size
    ensures fresh(a) && a.Length == size && a[..n] == arr[..n]
  {
    a := new Option<string>[size](_ => None);
    forall i | 0 <= i < n {
      a[i] := arr[i];
    }
  }

  // Moves the items from `index` on, and the NULL, up by `gap`.
  method MakeRoom(a: array<Option<string>>, n: nat, index: nat, gap: nat)
    requires index <= n && a.Length == n + gap + 1
    modifies a
    ensures forall k :: 0 <= k < index ==> a[k] == old(a[..])[k]
    ensures forall k :: index + gap <= k < a.Length ==> a[k] == old(a[..])[k - gap]
  {
    ghost var was := a[..];
    var i, j := n + gap, n;
    while j >= index
      invariant index - 1 <= j <= n && i == j + gap
      invariant forall k :: 0 <= k <= j ==> a[k] == was[k]
      invariant forall k :: i < k < a.Length ==> a[k] == was[k - gap]
    {
      a[i] := a[j];
      i, j := i - 1, j - 1;
    }
  }

  method Fill(a: array<Option<string>>, index: nat, news: seq<string>)
    requires index + |news| <= a.Length
    modifies a
    ensures forall k :: 0 <= k < index || index + |news| <= k < a.Length ==> a[k] == old(a[..])[k]
    ensures forall k :: index <= k < index + |news| ==> a[k] == Some(news[k - index])
  {
    ghost var was := a[..];
    for i := 0 to |news|
      invariant forall k :: 0 <= k < index || index + |news| <= k < a.Length ==> a[k] == was[k]
      invariant forall k :: index <= k < index + i ==> a[k] == Some(news[k - index])
    {
      a[index + i] := Some(news[i]);
    }
  }

  lemma InsertedHolds(was: seq<Option<string>>, now: seq<Option<string>>, v: seq<string>, index: nat, news: seq<string>)
    requires Holds(was, v) && index <= |v| && |now| == |v| + |news| + 1
    requires forall k :: 0 <= k < index ==> now[k] == was[k]
    requires forall k :: index + |news| <= k < |now| ==> now[k] == was[k - |news|]
    requires forall k :: index <= k < index + |news| ==> now[k] == Some(news[k - index])
    ensures Holds(now, v[..index] + news + v[index..])
  {
  }

  /**
    Inserts at a position, moving what is there to make room. A position
    beyond the end is refused.
   */
  method Insert(arr: array<Option<string>>, ghost v: seq<string>, index: int, news: seq<string>)
    returns (rv: int, a: array<Option<string>>)
    requires Holds(arr[..], v)
    ensures rv == (if 0 <= index <= |v| then 0 else -1)
    ensures rv == 0 ==> Holds(a[..], v[..index] + news + v[index..])
    ensures rv == -1 ==> a == arr
  {
    var n := 0;
    while arr[n].Some?
      invariant 0 <= n <= |v|
      decreases |v| - n
    {
      n := n + 1;
    }
    if index < 0 || index > n {
      return -1, arr;
    }
    a := Realloc(arr, n + 1, n + |news| + 1);
    ghost var was := arr[..];
    assert forall k :: 0 <= k <= n ==> a[k] == a[..n + 1][k] == was[..n + 1][k] == was[k];
    MakeRoom(a, n, index, |news|);
    Fill(a, index, news);
    InsertedHolds(was, a[..], v, index, news);
    rv := 0;
  }

  lemma RemovedHolds(was: seq<Option<string>>, now: seq<Option<string>>, v: seq<string>, k: nat)
    requires Holds(was, v) && k < |v| && |now| == |was|
    requires forall l :: 0 <= l < k ==> now[l] == was[l]
    requires forall l :: k <= l < |v| ==> now[l] == was[l + 1]
    ensures Holds(now, v[..k] + v[k + 1..])
  {
    var w := v[..k] + v[k + 1..];
    forall l | 0 <= l < |v| ensures now[l] == if l < |w| then Some(w[l]) else None {
    }
  }

  /** Removes in place: what is above moves down; a position beyond the end is refused. */
  method Remove(arr: array<Option<string>>, ghost v: seq<string>, index: int) returns (rv: int)
    requires Holds(arr[..], v)
    modifies arr
    ensures rv == (if index <= |v| then 0 else -1)
    ensures index < |v| ==> var k := if index < 0 then 0 else index; v == [] || Holds(arr[..], v[..k] + v[k + 1..])
    ensures index >= |v| ==> arr[..] == old(arr[..])
  {
    ghost var was := arr[..];
    var i := 0;
    while i < index
      invariant 0 <= i <= |v| && (if index >= 0 then i <= index else i == 0)
      modifies {}
    {
      if arr[i].None? {
        return -1;
      }
      i := i + 1;
    }
    ghost var k := i;
    while arr[i].Some?
      invariant k <= i <= |v|
      invariant forall l :: 0 <= l < k || i <= l < arr.Length ==> arr[l] == was[l]
      invariant forall l :: k <= l < i ==> arr[l] == was[l + 1]
      decreases |v| - i
    {
      arr[i] := arr[i + 1];
      i := i + 1;
    }
    if k < |v| {
      RemovedHolds(was, arr[..], v, k);
    } else {
      assert arr[..] == was;
    }
    rv := 0;
  }
}
