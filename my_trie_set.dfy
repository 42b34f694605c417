/**
 * The trie of lab15/MyTrieSet.java, of which only `add` (and the stub
 * `contains`) has behaviour.
 *
 * Java's `Node` objects live in an arena: `nodes[i]` is the node with
 * reference `i`, and a child link is the index of the child. A fresh
 * `new Node(false)` is appended at the end of the arena, so sharing and
 * in-place update behave as they do with references. The ghost `labels`
 * give, for every node, the word that leads to it from the root; they are
 * the witness that the arena is a tree.
 */
module TrieSetModel {
  import opened Wrappers

  /** `MyTrieSet.Node`: whether a key ends here, and the child reached by
      each character (the Java field `map`). */
  datatype Node = Node(isKey: bool, children: map<char, nat>)

  /** Index of the node `root` refers to. */
  const Root: nat := 0

  /** Every child link names a node of the arena. */
  ghost predicate InArena(nodes: seq<Node>)
  {
    forall j, c :: 0 <= j < |nodes| && c in nodes[j].children ==> nodes[j].children[c] < |nodes|
  }

  /** The node reached from node `n` by following the characters of `w`,
      or None when some character has no child. */
  function FollowFrom(nodes: seq<Node>, n: nat, w: string): (r: Option<nat>)
    ensures r.Some? ==> r.value < |nodes|
    ensures w == [] ==> r == (if n < |nodes| then Some(n) else None)
    decreases |w|
  {
    if n >= |nodes| then None
    else if w == [] then Some(n)
    else if w[0] in nodes[n].children then FollowFrom(nodes, nodes[n].children[w[0]], w[1..])
    else None
  }

  /** Following `w` from node `n` ends on a node marked as a key. */
  predicate MarkedFrom(nodes: seq<Node>, n: nat, w: string)
  {
    var r := FollowFrom(nodes, n, w);
    r.Some? && nodes[r.value].isKey
  }

  /** `w` is a key of the trie. */
  predicate Member(nodes: seq<Node>, w: string)
  {
    MarkedFrom(nodes, Root, w)
  }

  /** `curr.map.put(c, new Node(false))`: a fresh non-key node with no
      children, appended to the arena and linked from `p` under `c`. */
  function Extend(nodes: seq<Node>, p: nat, c: char): (r: seq<Node>)
    requires p < |nodes|
    ensures |r| == |nodes| + 1 && r[|nodes|] == Node(false, map[])
    ensures InArena(nodes) ==> InArena(r)
  {
    nodes[p := nodes[p].(children := nodes[p].children[c := |nodes|])] + [Node(false, map[])]
  }

  /** `curr.isKey = true`. */
  function Mark(nodes: seq<Node>, j: nat): (r: seq<Node>)
    requires j < |nodes|
    ensures |r| == |nodes| && r[j].isKey
    ensures InArena(nodes) ==> InArena(r)
  {
    nodes[j := nodes[j].(isKey := true)]
  }

  /** The arena after the loop of `add` has handled `key[i..]` from node
      `curr`, creating each missing child, and has then marked the node it
      ended on. */
  function Descend(nodes: seq<Node>, curr: nat, key: string, i: nat): (r: seq<Node>)
    requires InArena(nodes) && curr < |nodes| && i <= |key|
    ensures InArena(r) && |nodes| <= |r|
    decreases |key| - i
  {
    if i == |key| then Mark(nodes, curr)
    else if key[i] in nodes[curr].children then Descend(nodes, nodes[curr].children[key[i]], key, i + 1)
    else Descend(Extend(nodes, curr, key[i]), |nodes|, key, i + 1)
  }

  /** The arena after `add(key)`: an empty key changes nothing. */
  function Insert(nodes: seq<Node>, key: string): seq<Node>
    requires InArena(nodes) && Root < |nodes|
  {
    if |key| < 1 then nodes else Descend(nodes, Root, key, 0)
  }

  /** `labels[j]` is the word leading from the root to node `j`, and every
      node is reached by its own label: the arena is a tree rooted at Root. */
  ghost predicate IsTree(nodes: seq<Node>, labels: seq<string>)
  {
    |labels| == |nodes| && Root < |nodes| && labels[Root] == [] && InArena(nodes) &&
    (forall j, c :: 0 <= j < |nodes| && c in nodes[j].children ==>
       labels[nodes[j].children[c]] == labels[j] + [c]) &&
    (forall j :: 0 <= j < |nodes| ==> FollowFrom(nodes, Root, labels[j]) == Some(j))
  }

  /** `later` keeps every node of `earlier`, every child link of it (no
      child is replaced) and every key mark. */
  ghost predicate Preserves(earlier: seq<Node>, later: seq<Node>)
  {
    |earlier| <= |later| &&
    (forall j :: 0 <= j < |earlier| && earlier[j].isKey ==> later[j].isKey) &&
    (forall j, c :: 0 <= j < |earlier| && c in earlier[j].children ==>
       c in later[j].children && later[j].children[c] == earlier[j].children[c])
  }

  lemma PreservesTransitive(a: seq<Node>, b: seq<Node>, c: seq<Node>)
    requires Preserves(a, b) && Preserves(b, c)
    ensures Preserves(a, c)
  {
  }

  /** Walking `u + v` is walking `u`, then `v` from where `u` ended. */
  lemma {:induction false} FollowConcat(nodes: seq<Node>, n: nat, u: string, v: string)
    ensures FollowFrom(nodes, n, u + v) ==
      match FollowFrom(nodes, n, u)
      case None => None
      case Some(m) => FollowFrom(nodes, m, v)
    decreases |u|
  {
    if n < |nodes| && u != [] {
      assert (u + v)[0] == u[0] && (u + v)[1..] == u[1..] + v;
      if u[0] in nodes[n].children {
        FollowConcat(nodes, nodes[n].children[u[0]], u[1..], v);
      }
    } else if u == [] {
      assert u + v == v;
    }
  }

  /** In a tree, the node a walk from `n` reaches is labelled by `n`'s label
      followed by the walked word. */
  lemma {:induction false} FollowLabel(nodes: seq<Node>, labels: seq<string>, n: nat, w: string)
    requires IsTree(nodes, labels) && n < |nodes| && FollowFrom(nodes, n, w).Some?
    ensures labels[FollowFrom(nodes, n, w).value] == labels[n] + w
    decreases |w|
  {
    if w != [] {
      var child := nodes[n].children[w[0]];
      FollowLabel(nodes, labels, child, w[1..]);
      assert labels[n] + w == (labels[n] + [w[0]]) + w[1..];
    }
  }

  /** A walk that succeeds keeps succeeding, to the same node, once
      preserving updates add nodes and links. */
  lemma {:induction false} FollowPreserved(nodes: seq<Node>, later: seq<Node>, n: nat, w: string)
    requires Preserves(nodes, later) && FollowFrom(nodes, n, w).Some?
    ensures FollowFrom(later, n, w) == FollowFrom(nodes, n, w)
    decreases |w|
  {
    if w != [] {
      FollowPreserved(nodes, later, nodes[n].children[w[0]], w[1..]);
    }
  }

  /** In a tree, the keys are exactly the labels of the marked nodes. */
  lemma KeysAreLabels(nodes: seq<Node>, labels: seq<string>, w: string)
    requires IsTree(nodes, labels)
    ensures Member(nodes, w) <==> exists j :: 0 <= j < |nodes| && nodes[j].isKey && labels[j] == w
  {
    if Member(nodes, w) {
      FollowLabel(nodes, labels, Root, w);
      assert labels[Root] + w == w;
    }
  }

  /** Adding a fresh child keeps the arena a tree; the new node is labelled
      by its parent's label and the character. */
  lemma ExtendTree(nodes: seq<Node>, labels: seq<string>, p: nat, c: char)
    requires IsTree(nodes, labels) && p < |nodes| && c !in nodes[p].children
    ensures Preserves(nodes, Extend(nodes, p, c))
    ensures IsTree(Extend(nodes, p, c), labels + [labels[p] + [c]])
  {
    var later := Extend(nodes, p, c);
    var labels' := labels + [labels[p] + [c]];
    assert Preserves(nodes, later);
    forall j | 0 <= j < |later|
      ensures FollowFrom(later, Root, labels'[j]) == Some(j)
    {
      if j < |nodes| {
        FollowPreserved(nodes, later, Root, labels[j]);
      } else {
        FollowPreserved(nodes, later, Root, labels[p]);
        FollowConcat(later, Root, labels[p], [c]);
      }
    }
  }

  /** Marking a node keeps the arena a tree and makes its label a key;
      nothing else becomes a key. */
  lemma MarkKeys(nodes: seq<Node>, labels: seq<string>, j: nat)
    requires IsTree(nodes, labels) && j < |nodes|
    ensures Preserves(nodes, Mark(nodes, j))
    ensures IsTree(Mark(nodes, j), labels)
    ensures forall w :: Member(Mark(nodes, j), w) <==> Member(nodes, w) || w == labels[j]
  {
    var later := Mark(nodes, j);
    assert Preserves(nodes, later);
    forall k | 0 <= k < |later|
      ensures FollowFrom(later, Root, labels[k]) == Some(k)
    {
      FollowPreserved(nodes, later, Root, labels[k]);
    }
    forall w
      ensures Member(later, w) <==> Member(nodes, w) || w == labels[j]
    {
      KeysAreLabels(nodes, labels, w);
      KeysAreLabels(later, labels, w);
    }
  }

  /** Adding a fresh non-key child changes no key. */
  lemma ExtendKeys(nodes: seq<Node>, labels: seq<string>, p: nat, c: char)
    requires IsTree(nodes, labels) && p < |nodes| && c !in nodes[p].children
    ensures forall w :: Member(Extend(nodes, p, c), w) <==> Member(nodes, w)
  {
    var later := Extend(nodes, p, c);
    var labels' := labels + [labels[p] + [c]];
    ExtendTree(nodes, labels, p, c);
    forall w
      ensures Member(later, w) <==> Member(nodes, w)
    {
      KeysAreLabels(nodes, labels, w);
      KeysAreLabels(later, labels', w);
    }
  }

  /** The add loop reuses every existing node and link and unmarks nothing. */
  lemma {:induction false} DescendPreserves(nodes: seq<Node>, curr: nat, key: string, i: nat)
    requires InArena(nodes) && curr < |nodes| && i <= |key|
    ensures Preserves(nodes, Descend(nodes, curr, key, i))
    decreases |key| - i
  {
    if i == |key| {
      assert Preserves(nodes, Mark(nodes, curr));
    } else if key[i] in nodes[curr].children {
      DescendPreserves(nodes, nodes[curr].children[key[i]], key, i + 1);
    } else {
      var later := Extend(nodes, curr, key[i]);
      assert Preserves(nodes, later);
      DescendPreserves(later, |nodes|, key, i + 1);
      PreservesTransitive(nodes, later, Descend(later, |nodes|, key, i + 1));
    }
  }

  /** After the add loop, walking the rest of the key from where it started
      ends on a key node. */
  lemma {:induction false} DescendReaches(nodes: seq<Node>, curr: nat, key: string, i: nat)
    requires InArena(nodes) && curr < |nodes| && i <= |key|
    ensures MarkedFrom(Descend(nodes, curr, key, i), curr, key[i..])
    decreases |key| - i
  {
    if i < |key| {
      var c := key[i];
      var base := if c in nodes[curr].children then nodes else Extend(nodes, curr, c);
      var next := if c in nodes[curr].children then nodes[curr].children[c] else |nodes|;
      DescendReaches(base, next, key, i + 1);
      DescendPreserves(base, next, key, i + 1);
      assert key[i..][0] == c && key[i..][1..] == key[i + 1..];
    }
  }

  /** When the rest of the key already leads to a key node, the add loop
      changes nothing. */
  lemma {:induction false} DescendExisting(nodes: seq<Node>, curr: nat, key: string, i: nat)
    requires InArena(nodes) && curr < |nodes| && i <= |key|
    requires MarkedFrom(nodes, curr, key[i..])
    ensures Descend(nodes, curr, key, i) == nodes
    decreases |key| - i
  {
    if i == |key| {
      assert Mark(nodes, curr) == nodes;
    } else {
      assert key[i..][0] == key[i] && key[i..][1..] == key[i + 1..];
      DescendExisting(nodes, nodes[curr].children[key[i]], key, i + 1);
    }
  }

  /** The add loop, started on the node labelled `key[..i]`, adds exactly
      `key` to the keys. */
  lemma {:induction false} DescendKeys(nodes: seq<Node>, labels: seq<string>, curr: nat, key: string, i: nat)
    requires IsTree(nodes, labels) && curr < |nodes| && i <= |key| && labels[curr] == key[..i]
    ensures forall w :: Member(Descend(nodes, curr, key, i), w) <==> Member(nodes, w) || w == key
    decreases |key| - i
  {
    if i == |key| {
      assert key[..i] == key;
      MarkKeys(nodes, labels, curr);
    } else {
      var c := key[i];
      assert key[..i + 1] == key[..i] + [c];
      if c in nodes[curr].children {
        DescendKeys(nodes, labels, nodes[curr].children[c], key, i + 1);
      } else {
        var later := Extend(nodes, curr, c);
        ExtendTree(nodes, labels, curr, c);
        ExtendKeys(nodes, labels, curr, c);
        DescendKeys(later, labels + [labels[curr] + [c]], |nodes|, key, i + 1);
      }
    }
  }

  /** The add loop leaves every node off the key's path as it was, and
      changes the mark only of the node the key leads to. */
  lemma {:induction false} DescendTouchesOnlyPath(nodes: seq<Node>, labels: seq<string>, curr: nat, key: string, i: nat)
    requires IsTree(nodes, labels) && curr < |nodes| && i <= |key| && labels[curr] == key[..i]
    ensures forall j :: 0 <= j < |nodes| && !(labels[j] <= key) ==> Descend(nodes, curr, key, i)[j] == nodes[j]
    ensures forall j :: 0 <= j < |nodes| && labels[j] != key ==> Descend(nodes, curr, key, i)[j].isKey == nodes[j].isKey
    decreases |key| - i
  {
    if i == |key| {
      assert key[..i] == key;
    } else {
      var c := key[i];
      assert key[..i + 1] == key[..i] + [c];
      assert key[..i] <= key;
      if c in nodes[curr].children {
        DescendTouchesOnlyPath(nodes, labels, nodes[curr].children[c], key, i + 1);
      } else {
        ExtendTree(nodes, labels, curr, c);
        DescendTouchesOnlyPath(Extend(nodes, curr, c), labels + [labels[curr] + [c]], |nodes|, key, i + 1);
      }
    }
  }

  /** After `add(key)` with a non-empty key, the key is in the trie. */
  lemma InsertMarksKey(nodes: seq<Node>, key: string)
    requires InArena(nodes) && Root < |nodes| && |key| >= 1
    ensures Member(Insert(nodes, key), key)
  {
    DescendReaches(nodes, Root, key, 0);
    assert key[0..] == key;
  }

  /** `add` keeps every node, link and key mark it finds. */
  lemma InsertPreserves(nodes: seq<Node>, key: string)
    requires InArena(nodes) && Root < |nodes|
    ensures Preserves(nodes, Insert(nodes, key))
  {
    if |key| >= 1 {
      DescendPreserves(nodes, Root, key, 0);
    }
  }

  /** The keys after `add(key)` are the keys before plus `key`, unless `key`
      is empty. */
  lemma InsertKeys(nodes: seq<Node>, labels: seq<string>, key: string)
    requires IsTree(nodes, labels)
    ensures forall w :: Member(Insert(nodes, key), w) <==> Member(nodes, w) || (|key| >= 1 && w == key)
  {
    if |key| >= 1 {
      assert key[..0] == [];
      DescendKeys(nodes, labels, Root, key, 0);
    }
  }

  /** `add` changes only nodes on the key's path, and of those it marks only
      the last. */
  lemma InsertTouchesOnlyPath(nodes: seq<Node>, labels: seq<string>, key: string)
    requires IsTree(nodes, labels)
    ensures forall j :: 0 <= j < |nodes| && !(labels[j] <= key) ==> Insert(nodes, key)[j] == nodes[j]
    ensures forall j :: 0 <= j < |nodes| && labels[j] != key ==> Insert(nodes, key)[j].isKey == nodes[j].isKey
  {
    if |key| >= 1 {
      assert key[..0] == [];
      DescendTouchesOnlyPath(nodes, labels, Root, key, 0);
    }
  }

  /** Adding the same key twice leaves the trie as adding it once. */
  lemma InsertIdempotent(nodes: seq<Node>, key: string)
    requires InArena(nodes) && Root < |nodes|
    ensures Insert(Insert(nodes, key), key) == Insert(nodes, key)
  {
    if |key| >= 1 {
      var once := Insert(nodes, key);
      InsertMarksKey(nodes, key);
      assert key[0..] == key;
      DescendExisting(once, Root, key, 0);
    }
  }

  class MyTrieSet {
    var nodes: seq<Node>
    ghost var labels: seq<string>

    ghost predicate Valid()
      reads this
    {
      IsTree(nodes, labels)
    }

    /** The source never assigns `root`; the model starts from an empty,
        non-key root node. */
    constructor ()
      ensures Valid() && nodes == [Node(false, map[])]
      ensures forall w :: !Member(nodes, w)
    {
      nodes := [Node(false, map[])];
      labels := [[]];
    }

    /** contains as written: false for every key. */
    method Contains(key: string) returns (r: bool)
      ensures !r
    {
      r := false;
    }

    /** add: walks from the root along `key`, creating each missing child as a
        non-key node and reusing each existing one, then marks the last node
        as a key. An empty key changes nothing. */
    method Add(key: string)
      requires Valid()
      modifies this
      ensures Valid()
      ensures nodes == Insert(old(nodes), key)
      ensures |key| < 1 ==> nodes == old(nodes)
      ensures |key| >= 1 ==> Member(nodes, key)
      ensures forall w :: Member(nodes, w) <==> Member(old(nodes), w) || (|key| >= 1 && w == key)
      ensures Preserves(old(nodes), nodes)
    {
      ghost var labels0 := labels;
      InsertKeys(nodes, labels, key);
      InsertPreserves(nodes, key);
      if |key| < 1 {
        return;
      }
      InsertMarksKey(nodes, key);
      var curr: nat := Root;
      var i := 0;
      while i < |key|
        invariant 0 <= i <= |key| && curr < |nodes|
        invariant IsTree(nodes, labels) && labels[curr] == key[..i]
        invariant Descend(nodes, curr, key, i) == Descend(old(nodes), Root, key, 0)
        decreases |key| - i
      {
        var c := key[i];
        if c !in nodes[curr].children {
          ExtendTree(nodes, labels, curr, c);
          labels := labels + [labels[curr] + [c]];
          nodes := nodes[curr := nodes[curr].(children := nodes[curr].children[c := |nodes|])] + [Node(false, map[])];
        }
        assert key[..i + 1] == key[..i] + [c];
        curr := nodes[curr].children[c];
        i := i + 1;
      }
      MarkKeys(nodes, labels, curr);
      nodes := nodes[curr := nodes[curr].(isKey := true)];
    }

    /** contains as its interface describes it: whether `key` was added. */
    method ContainsIntended(key: string) returns (r: bool)
      requires Valid()
      ensures r == Member(nodes, key)
    {
      var curr: nat := Root;
      var i := 0;
      while i < |key|
        invariant 0 <= i <= |key| && curr < |nodes|
        invariant FollowFrom(nodes, curr, key[i..]) == FollowFrom(nodes, Root, key)
      {
        var c := key[i];
        assert key[i..][0] == c && key[i..][1..] == key[i + 1..];
        if c !in nodes[curr].children {
          return false;
        }
        curr := nodes[curr].children[c];
        i := i + 1;
      }
      r := nodes[curr].isKey;
    }
  }

  /** `contains` reports false for a key that `add` has just stored. */
  method ContainsMissesAddedKey() returns (stored: bool, r: bool)
    ensures stored && !r
  {
    var t := new MyTrieSet();
    t.Add("a");
    stored := t.ContainsIntended("a");
    r := t.Contains("a");
  }
}
