/**
 * The scene graph as the editor sees it: a forest of design nodes (the top level of the
 * scene, pages among them), looked up by id, walked in pre-order by `traverse`, and pruned
 * by `destroy`. The scene's storage belongs to the editor's base class, which is not part of
 * this model; only the contracts the editor relies on are stated here.
 */
module Scene {
  import opened Wrappers

  /** One design node. The type tag is a string because the TypeScript code compares it as one
      ('Document', 'Page', 'Rectangle', ...). A missing `name` is `None`. */
  datatype Node = Node(id: string, kind: string, name: Option<string>, children: seq<Node>)

  /** `node.traverse(visit)`: the node itself first, then each child's walk, in child order. */
  function Preorder(n: Node): (r: seq<Node>)
    ensures |r| >= 1 && r[0] == n
    decreases n, 1
  {
    [n] + PreorderAll(n.children)
  }

  /** The pre-order walks of `ns`, one after the other (the scene's `getNodes()`). */
  function PreorderAll(ns: seq<Node>): seq<Node>
    decreases ns, 0
  {
    if ns == [] then [] else Preorder(ns[0]) + PreorderAll(ns[1..])
  }

  /** Number of nodes in the subtree rooted at `n`, counted independently of any walk. */
  function Size(n: Node): nat
    decreases n, 1
  {
    1 + SizeAll(n.children)
  }

  function SizeAll(ns: seq<Node>): nat
    decreases ns, 0
  {
    if ns == [] then 0 else Size(ns[0]) + SizeAll(ns[1..])
  }

  /** The ids of a sequence of nodes, in order. */
  function Ids(s: seq<Node>): (r: seq<string>)
    ensures |r| == |s|
    ensures forall k :: 0 <= k < |s| ==> r[k] == s[k].id
  {
    if s == [] then [] else [s[0].id] + Ids(s[1..])
  }

  /** Every id reachable in the forest `ns`, in pre-order. */
  function SceneIds(ns: seq<Node>): seq<string>
  {
    Ids(PreorderAll(ns))
  }

  /** No two reachable nodes share an id. */
  predicate Distinct(s: seq<string>)
  {
    forall x | x in multiset(s) :: multiset(s)[x] == 1
  }

  /** The id index is sound: ids are unique and never empty (generated ids). */
  predicate WellFormed(ns: seq<Node>)
  {
    Distinct(SceneIds(ns)) && "" !in SceneIds(ns)
  }

  /** First node of `s` carrying `id`. */
  function FindIn(s: seq<Node>, id: string): Option<Node>
  {
    if s == [] then None
    else if s[0].id == id then Some(s[0])
    else FindIn(s[1..], id)
  }

  /** `scene.getNodeById(id) ?? null`. */
  function Find(ns: seq<Node>, id: string): Option<Node>
  {
    FindIn(PreorderAll(ns), id)
  }

  /** `destroy`: every node carrying `id` is detached from its parent, its subtree with it. */
  function Remove(ns: seq<Node>, id: string): seq<Node>
    decreases ns
  {
    if ns == [] then []
    else if ns[0].id == id then Remove(ns[1..], id)
    else [ns[0].(children := Remove(ns[0].children, id))] + Remove(ns[1..], id)
  }

  /** Destroying every node whose id is in `ds`, each with its subtree: what a series of
      `destroy` calls leaves behind, whatever their order (`RemoveSetInsert`). */
  function RemoveSet(ns: seq<Node>, ds: set<string>): seq<Node>
    decreases ns
  {
    if ns == [] then []
    else if ns[0].id in ds then RemoveSet(ns[1..], ds)
    else [ns[0].(children := RemoveSet(ns[0].children, ds))] + RemoveSet(ns[1..], ds)
  }

  /** The ids `RemoveSet` takes away: the whole walk of every outermost node with an id in `ds`. */
  function DoomedIds(ns: seq<Node>, ds: set<string>): seq<string>
    decreases ns
  {
    if ns == [] then []
    else if ns[0].id in ds then Ids(Preorder(ns[0])) + DoomedIds(ns[1..], ds)
    else DoomedIds(ns[0].children, ds) + DoomedIds(ns[1..], ds)
  }

  /** `x` lies in no subtree rooted at a node whose id is in `ds`. */
  predicate NotUnder(ns: seq<Node>, ds: set<string>, x: string)
  {
    forall n | n in PreorderAll(ns) && n.id in ds :: x !in Ids(Preorder(n))
  }

  // ---------------------------------------------------------------------------------------
  // Lemmas

  lemma {:induction false} IdsAppend(a: seq<Node>, b: seq<Node>)
    ensures Ids(a + b) == Ids(a) + Ids(b)
  {
    if a == [] {
      assert a + b == b;
    } else {
      assert (a + b)[1..] == a[1..] + b;
      IdsAppend(a[1..], b);
    }
  }

  lemma {:induction false} PreorderAllAppend(a: seq<Node>, b: seq<Node>)
    ensures PreorderAll(a + b) == PreorderAll(a) + PreorderAll(b)
    decreases a
  {
    if a == [] {
      assert a + b == b;
    } else {
      assert (a + b)[0] == a[0];
      assert (a + b)[1..] == a[1..] + b;
      PreorderAllAppend(a[1..], b);
    }
  }

  /** A walk visits exactly as many nodes as the subtree holds: deleting a node with N
      descendants touches N + 1 nodes. */
  lemma {:induction false} PreorderSize(n: Node)
    ensures |Preorder(n)| == Size(n)
    decreases n, 1
  {
    PreorderAllSize(n.children);
  }

  lemma {:induction false} PreorderAllSize(ns: seq<Node>)
    ensures |PreorderAll(ns)| == SizeAll(ns)
    decreases ns, 0
  {
    if ns != [] {
      PreorderSize(ns[0]);
      PreorderAllSize(ns[1..]);
    }
  }

  /** Lookup succeeds exactly for the ids present, and returns a node of that id. */
  lemma {:induction false} FindInSpec(s: seq<Node>, id: string)
    ensures FindIn(s, id).Some? <==> id in Ids(s)
    ensures FindIn(s, id).Some? ==> FindIn(s, id).value.id == id && FindIn(s, id).value in s
  {
    if s != [] {
      FindInSpec(s[1..], id);
      assert Ids(s) == [s[0].id] + Ids(s[1..]);
    }
  }

  /** `getNodeById` resolves `id` iff some reachable node carries it. */
  lemma FindSpec(ns: seq<Node>, id: string)
    ensures Find(ns, id).Some? <==> id in SceneIds(ns)
    ensures Find(ns, id).Some? ==> Find(ns, id).value.id == id
  {
    FindInSpec(PreorderAll(ns), id);
  }

  /** In a well-formed scene the empty id never resolves. */
  lemma FindEmptyIdIsNone(ns: seq<Node>)
    requires WellFormed(ns)
    ensures Find(ns, "") == None
  {
    FindSpec(ns, "");
  }

  /** `destroy` only takes ids away (each as often as it occurred), and the destroyed id is gone. */
  lemma {:induction false} RemoveShrinks(ns: seq<Node>, id: string)
    ensures multiset(SceneIds(Remove(ns, id))) <= multiset(SceneIds(ns))
    ensures id !in SceneIds(Remove(ns, id))
    decreases ns
  {
    if ns == [] {
    } else if ns[0].id == id {
      RemoveShrinks(ns[1..], id);
      assert PreorderAll(ns) == Preorder(ns[0]) + PreorderAll(ns[1..]);
      IdsAppend(Preorder(ns[0]), PreorderAll(ns[1..]));
    } else {
      var head := ns[0].(children := Remove(ns[0].children, id));
      var rest := Remove(ns[1..], id);
      RemoveShrinks(ns[0].children, id);
      RemoveShrinks(ns[1..], id);
      PreorderAllAppend([head], rest);
      assert PreorderAll([head]) == Preorder(head) by {
        assert [head][1..] == [];
      }
      IdsAppend(Preorder(head), PreorderAll(rest));
      IdsAppend([head], PreorderAll(head.children));
      assert PreorderAll(ns) == Preorder(ns[0]) + PreorderAll(ns[1..]);
      IdsAppend(Preorder(ns[0]), PreorderAll(ns[1..]));
      IdsAppend([ns[0]], PreorderAll(ns[0].children));
    }
  }

  /** `destroy` keeps the id index sound. */
  lemma RemoveKeepsWellFormed(ns: seq<Node>, id: string)
    requires WellFormed(ns)
    ensures WellFormed(Remove(ns, id))
  {
    RemoveShrinks(ns, id);
    var before, after := multiset(SceneIds(ns)), multiset(SceneIds(Remove(ns, id)));
    assert before[""] == 0;
    forall x | x in after ensures after[x] == 1 {
      assert after[x] <= before[x];
    }
  }

  /** `destroy` never brings an id back. */
  lemma RemoveKeepsAbsent(ns: seq<Node>, id: string, other: string)
    requires other !in SceneIds(ns)
    ensures other !in SceneIds(Remove(ns, id))
  {
    RemoveShrinks(ns, id);
    assert multiset(SceneIds(ns))[other] == 0;
  }

  /** Appending a fresh childless node keeps the index sound and makes it resolvable. */
  lemma AppendLeaf(ns: seq<Node>, leaf: Node)
    requires WellFormed(ns)
    requires leaf.children == [] && leaf.id != "" && leaf.id !in SceneIds(ns)
    ensures WellFormed(ns + [leaf])
    ensures SceneIds(ns + [leaf]) == SceneIds(ns) + [leaf.id]
    ensures Find(ns + [leaf], leaf.id) == Some(leaf)
  {
    var walk := PreorderAll(ns + [leaf]);
    assert walk == PreorderAll(ns) + [leaf] by {
      PreorderAllAppend(ns, [leaf]);
      assert PreorderAll([leaf]) == [leaf] by {
        assert [leaf][1..] == [];
        assert PreorderAll(leaf.children) == [];
      }
    }
    assert SceneIds(ns + [leaf]) == SceneIds(ns) + [leaf.id] by {
      IdsAppend(PreorderAll(ns), [leaf]);
    }
    DistinctAppend(SceneIds(ns), leaf.id);
    FindAppendFresh(PreorderAll(ns), leaf);
  }

  lemma DistinctAppend(s: seq<string>, x: string)
    requires Distinct(s) && x !in s
    ensures Distinct(s + [x])
  {
    var m := multiset(s + [x]);
    assert m == multiset(s) + multiset{x};
    forall y | y in m ensures m[y] == 1 {
      if y == x {
        assert multiset(s)[y] == 0;
      }
    }
  }

  lemma {:induction false} FindAppendFresh(s: seq<Node>, leaf: Node)
    requires leaf.id !in Ids(s)
    ensures FindIn(s + [leaf], leaf.id) == Some(leaf)
  {
    if s == [] {
      assert s + [leaf] == [leaf];
    } else {
      assert (s + [leaf])[1..] == s[1..] + [leaf];
      assert Ids(s) == [s[0].id] + Ids(s[1..]);
      FindAppendFresh(s[1..], leaf);
    }
  }

  /** The ids of a non-empty forest: its first root, that root's descendants, then the rest. */
  lemma SceneIdsCons(ns: seq<Node>)
    requires ns != []
    ensures SceneIds(ns) == [ns[0].id] + SceneIds(ns[0].children) + SceneIds(ns[1..])
  {
    assert PreorderAll(ns) == [ns[0]] + PreorderAll(ns[0].children) + PreorderAll(ns[1..]);
    IdsAppend([ns[0]] + PreorderAll(ns[0].children), PreorderAll(ns[1..]));
    IdsAppend([ns[0]], PreorderAll(ns[0].children));
  }

  /** Destroying a set of ids splits the scene's ids exactly: every occurrence either survives
      or is taken away, none is both and none is invented. */
  lemma {:induction false} RemoveSetPartition(ns: seq<Node>, ds: set<string>)
    ensures multiset(SceneIds(ns)) == multiset(SceneIds(RemoveSet(ns, ds))) + multiset(DoomedIds(ns, ds))
    decreases ns
  {
    if ns != [] {
      SceneIdsCons(ns);
      RemoveSetPartition(ns[1..], ds);
      if ns[0].id in ds {
        assert Ids(Preorder(ns[0])) == SceneIds([ns[0]]) by {
          assert [ns[0]][1..] == [];
          assert PreorderAll([ns[0]]) == Preorder(ns[0]);
        }
        SceneIdsCons([ns[0]]);
        assert [ns[0]][1..] == [];
      } else {
        RemoveSetPartition(ns[0].children, ds);
        var head := ns[0].(children := RemoveSet(ns[0].children, ds));
        var r := [head] + RemoveSet(ns[1..], ds);
        assert r[0] == head && r[1..] == RemoveSet(ns[1..], ds);
        SceneIdsCons(r);
      }
    }
  }

  /** Every id of `ds` is gone after `RemoveSet`. */
  lemma {:induction false} RemoveSetDrops(ns: seq<Node>, ds: set<string>, x: string)
    requires x in ds
    ensures x !in SceneIds(RemoveSet(ns, ds))
    decreases ns
  {
    if ns != [] {
      RemoveSetDrops(ns[1..], ds, x);
      if ns[0].id !in ds {
        RemoveSetDrops(ns[0].children, ds, x);
        var head := ns[0].(children := RemoveSet(ns[0].children, ds));
        var r := [head] + RemoveSet(ns[1..], ds);
        assert r[0] == head && r[1..] == RemoveSet(ns[1..], ds);
        SceneIdsCons(r);
      }
    }
  }

  /** Only ids lying under a destroyed node are taken away. */
  lemma {:induction false} NotUnderSpared(ns: seq<Node>, ds: set<string>, x: string)
    requires NotUnder(ns, ds, x)
    ensures x !in DoomedIds(ns, ds)
    decreases ns
  {
    if ns != [] {
      assert PreorderAll(ns) == Preorder(ns[0]) + PreorderAll(ns[1..]);
      assert Preorder(ns[0]) == [ns[0]] + PreorderAll(ns[0].children);
      NotUnderSpared(ns[1..], ds, x);
      if ns[0].id !in ds {
        NotUnderSpared(ns[0].children, ds, x);
      }
    }
  }

  /** `RemoveSet` keeps exactly the ids outside the destroyed subtrees: nothing is added, no id
      of `ds` survives, and every id not under a destroyed node survives. */
  lemma RemoveSetSpec(ns: seq<Node>, ds: set<string>, x: string)
    ensures x in SceneIds(RemoveSet(ns, ds)) ==> x in SceneIds(ns) && x !in ds
    ensures x in SceneIds(ns) && NotUnder(ns, ds, x) ==> x in SceneIds(RemoveSet(ns, ds))
  {
    RemoveSetPartition(ns, ds);
    if x in ds {
      RemoveSetDrops(ns, ds, x);
    }
    if NotUnder(ns, ds, x) {
      NotUnderSpared(ns, ds, x);
    }
    assert x in SceneIds(ns) <==> x in multiset(SceneIds(ns));
  }

  /** With unique ids, an id survives iff it was present and is not taken away. */
  lemma RemoveSetUnique(ns: seq<Node>, ds: set<string>, x: string)
    requires Distinct(SceneIds(ns))
    ensures x in SceneIds(RemoveSet(ns, ds)) <==> x in SceneIds(ns) && x !in DoomedIds(ns, ds)
  {
    RemoveSetPartition(ns, ds);
    var before := multiset(SceneIds(ns));
    if x in before {
      assert before[x] == 1;
    }
  }

  /** Destroying no id changes nothing. */
  lemma {:induction false} RemoveSetEmpty(ns: seq<Node>)
    ensures RemoveSet(ns, {}) == ns
    decreases ns
  {
    if ns != [] {
      RemoveSetEmpty(ns[0].children);
      RemoveSetEmpty(ns[1..]);
      assert ns == [ns[0]] + ns[1..];
    }
  }

  /** One more `destroy` after destroying a set is destroying the larger set. */
  lemma {:induction false} RemoveSetInsert(ns: seq<Node>, ds: set<string>, d: string)
    ensures Remove(RemoveSet(ns, ds), d) == RemoveSet(ns, ds + {d})
    decreases ns
  {
    if ns != [] {
      RemoveSetInsert(ns[1..], ds, d);
      if ns[0].id !in ds {
        RemoveSetInsert(ns[0].children, ds, d);
        var head := ns[0].(children := RemoveSet(ns[0].children, ds));
        var r := [head] + RemoveSet(ns[1..], ds);
        assert r[0] == head && r[1..] == RemoveSet(ns[1..], ds);
      }
    }
  }

  /** `destroy` of one id is `RemoveSet` of that id alone. */
  lemma RemoveIsRemoveSet(ns: seq<Node>, id: string)
    ensures Remove(ns, id) == RemoveSet(ns, {id})
  {
    RemoveSetEmpty(ns);
    RemoveSetInsert(ns, {}, id);
    assert {} + {id} == {id};
  }

  /** With unique ids, `destroy` keeps exactly the ids outside the destroyed subtree. */
  lemma RemoveSpec(ns: seq<Node>, id: string, x: string)
    requires Distinct(SceneIds(ns))
    ensures x in SceneIds(Remove(ns, id)) <==> x in SceneIds(ns) && x !in DoomedIds(ns, {id})
  {
    RemoveIsRemoveSet(ns, id);
    RemoveSetUnique(ns, {id}, x);
  }
}
