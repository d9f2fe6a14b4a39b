/**
 * The editor object: the keydown shortcut handlers, node creation, the hover setter and the
 * state switches. The scene, the history and the event manager live in the editor's base
 * class, which is not part of this model; the editor's own fields below stand for them, and
 * `trace` records, in order, every call the editor makes into that base class.
 */
module EditorCore {
  import opened Wrappers
  import opened Scene
  import opened Shortcuts

  /** One change record, as the editor builds them (it never builds a Modify record). */
  datatype Change = Add(id: string, data: Node) | Delete(id: string)

  type Transaction = seq<Change>

  /** The interaction states the shortcuts switch between. */
  datatype EditorState = Default | CreateFrame | CreateRectangle

  /** The properties a caller passes to `createNode`. */
  type Props = map<string, string>

  /** A call from the editor into its base class or its event manager. */
  datatype Call =
    | ApplyTransaction(t: Transaction)
    | CommitHistory
    | UndoHistory
    | RedoHistory
    | ProcessUpdate
    | Destroy(id: string)
    | SetSelection(ids: seq<string>)
    | SetHover(node: Option<Node>)
    | ChangeState(target: EditorState)

  /** How a record acts on the scene: an added node joins the top level, a deleted id is
      destroyed with its subtree. */
  function ApplyChange(ns: seq<Node>, c: Change): seq<Node>
  {
    match c
    case Add(_, data) => ns + [data]
    case Delete(id) => Remove(ns, id)
  }

  /** The records of a transaction, applied in the order given. */
  function ApplyAll(ns: seq<Node>, t: Transaction): seq<Node>
    decreases t
  {
    if t == [] then ns else ApplyAll(ApplyChange(ns, t[0]), t[1..])
  }

  /** One Delete record per visited node, in visiting order. */
  function DeletesOf(walk: seq<Node>): (t: Transaction)
    ensures |t| == |walk|
  {
    if walk == [] then [] else [Delete(walk[0].id)] + DeletesOf(walk[1..])
  }

  /** One Destroy call per visited node, in visiting order. */
  function DestroyCalls(walk: seq<Node>): (calls: seq<Call>)
    ensures |calls| == |walk|
  {
    if walk == [] then [] else [Destroy(walk[0].id)] + DestroyCalls(walk[1..])
  }

  /** The selected ids resolved to nodes; ids that no longer resolve are dropped. */
  function Resolve(ns: seq<Node>, ids: seq<string>): (r: seq<Node>)
    ensures |r| <= |ids|
  {
    if ids == [] then []
    else match Find(ns, ids[0])
      case Some(n) => [n] + Resolve(ns, ids[1..])
      case None => Resolve(ns, ids[1..])
  }

  /** The element `createElement(type, {})` produces for a generated id. */
  function NewElement(kind: string, id: string): Node
  {
    Node(id, kind, None, [])
  }

  class Editor {
    var scene: seq<Node>
    var selection: seq<string>
    var hover: Option<Node>
    var state: EditorState
    var pending: Transaction
    var history: seq<Transaction>
    var trace: seq<Call>

    /** The id index stays sound. */
    ghost predicate Valid()
      reads this
    {
      WellFormed(scene)
    }

    /** The selected nodes as the event manager's getter returns them. */
    function SelectedNodes(): seq<Node>
      reads this
    {
      Resolve(scene, selection)
    }

    constructor (initial: seq<Node>)
      requires WellFormed(initial)
      ensures Valid()
      ensures scene == initial && selection == [] && hover == None && state == Default
      ensures pending == [] && history == [] && trace == []
    {
      scene := initial;
      selection := [];
      hover := None;
      state := Default;
      pending := [];
      history := [];
      trace := [];
    }

    // ---- base-class operations, with the minimal contracts the editor relies on ----

    /** Applies the records in order and holds the transaction as pending. */
    method ApplyTransactionCall(t: Transaction)
      modifies this
      ensures scene == ApplyAll(old(scene), t) && pending == t
      ensures selection == old(selection) && hover == old(hover) && state == old(state)
      ensures history == old(history) && trace == old(trace) + [ApplyTransaction(t)]
    {
      scene := ApplyAll(scene, t);
      pending := t;
      trace := trace + [ApplyTransaction(t)];
    }

    /** Appends the pending transaction to the committed history. */
    method CommitHistoryCall()
      modifies this
      ensures history == old(history) + [old(pending)]
      ensures scene == old(scene) && pending == old(pending) && selection == old(selection)
      ensures hover == old(hover) && state == old(state) && trace == old(trace) + [CommitHistory]
    {
      history := history + [pending];
      trace := trace + [CommitHistory];
    }

    /** Undo; its effect on the scene is the base class's and is only assumed to keep the
        index sound. */
    method UndoHistoryCall()
      requires Valid()
      modifies this
      ensures Valid() && trace == old(trace) + [UndoHistory]
    {
      trace := trace + [UndoHistory];
    }

    /** Redo; see `UndoHistoryCall`. */
    method RedoHistoryCall()
      requires Valid()
      modifies this
      ensures Valid() && trace == old(trace) + [RedoHistory]
    {
      trace := trace + [RedoHistory];
    }

    /** Notifies the renderer; changes nothing the editor reads. */
    method ProcessUpdateCall()
      modifies this`trace
      ensures trace == old(trace) + [ProcessUpdate]
    {
      trace := trace + [ProcessUpdate];
    }

    /** `node.destroy()`: detaches the node, and with it its subtree, from the scene. */
    method DestroyNode(id: string)
      modifies this`scene, this`trace
      ensures scene == Remove(old(scene), id)
      ensures trace == old(trace) + [Destroy(id)]
    {
      scene := Remove(scene, id);
      trace := trace + [Destroy(id)];
    }

    /** The event manager's `selectedNodes` setter. */
    method SetSelectedNodes(ids: seq<string>)
      modifies this`selection, this`trace
      ensures selection == ids && trace == old(trace) + [SetSelection(ids)]
    {
      selection := ids;
      trace := trace + [SetSelection(ids)];
    }

    // ---- the editor's own operations ----

    /** The `hoverNodeId` setter: the hover becomes the node the id resolves to, or none when
        it resolves to nothing (the empty id never resolves). */
    method SetHoverNodeId(id: string)
      requires Valid()
      modifies this`hover, this`trace
      ensures hover == Find(scene, id)
      ensures hover.Some? <==> id in SceneIds(scene)
      ensures hover.Some? ==> hover.value.id == id
      ensures id == "" ==> hover == None
      ensures trace == old(trace) + [SetHover(hover)]
    {
      FindSpec(scene, id);
      var node := Find(scene, id);
      hover := node;
      trace := trace + [SetHover(node)];
    }

    /** `createNode`: one Add record for a freshly generated element, applied and committed.
        The element is built from the type alone; `props` has no effect. */
    method CreateNode(kind: string, props: Props, freshId: string) returns (node: Option<Node>)
      requires Valid()
      requires freshId != "" && freshId !in SceneIds(scene)
      modifies this
      ensures Valid()
      ensures node == Some(NewElement(kind, freshId)) && node == Find(scene, freshId)
      ensures scene == old(scene) + [NewElement(kind, freshId)]
      ensures pending == [Add(freshId, NewElement(kind, freshId))]
      ensures history == old(history) + [[Add(freshId, NewElement(kind, freshId))]]
      ensures selection == old(selection) && hover == old(hover) && state == old(state)
      ensures trace == old(trace) + [ApplyTransaction([Add(freshId, NewElement(kind, freshId))]), CommitHistory]
    {
      var element := NewElement(kind, freshId);
      var elementId := element.id;
      AppendLeaf(scene, element);
      assert ApplyAll(scene, [Add(elementId, element)]) == scene + [element];
      ApplyTransactionCall([Add(elementId, element)]);
      node := Find(scene, elementId);
      CommitHistoryCall();
    }

    /** `createEmptyPage`: `createNode` for a Page. */
    method CreateEmptyPage(freshId: string) returns (node: Option<Node>)
      requires Valid()
      requires freshId != "" && freshId !in SceneIds(scene)
      modifies this
      ensures Valid()
      ensures node == Some(NewElement("Page", freshId)) && node == Find(scene, freshId)
      ensures scene == old(scene) + [NewElement("Page", freshId)]
      ensures pending == [Add(freshId, NewElement("Page", freshId))]
      ensures history == old(history) + [[Add(freshId, NewElement("Page", freshId))]]
      ensures selection == old(selection) && hover == old(hover) && state == old(state)
      ensures trace == old(trace) + [ApplyTransaction([Add(freshId, NewElement("Page", freshId))]), CommitHistory]
    {
      node := CreateNode("Page", map[], freshId);
    }

    /** `changeEditorState`: the editor mode switches to the named state. */
    method ChangeEditorState(target: EditorState)
      modifies this`state, this`trace
      ensures state == target && trace == old(trace) + [ChangeState(target)]
    {
      state := target;
      trace := trace + [ChangeState(target)];
    }

    /** `goToDefaultState`: its argument is ignored; the target is always Default. */
    method GoToDefaultState(id: string)
      modifies this`state, this`trace
      ensures state == Default && trace == old(trace) + [ChangeState(Default)]
    {
      ChangeEditorState(Default);
    }

    /** The 'Backspace' handler. Every selected node's subtree is walked in pre-order; each
        visited node gets a Delete record and is then destroyed. The records are applied as
        one transaction, the selection is emptied and the history is committed once. */
    method DeleteSelected()
      requires Valid()
      modifies this
      ensures Valid()
      ensures Deleted()
    {
      var selectedNodes := SelectedNodes();
      ghost var walked := PreorderAll(selectedNodes);
      var transactions := DeleteWalks(selectedNodes);
      DeleteOutcome(old(scene), walked);
      ApplyTransactionCall(transactions);
      SetSelectedNodes([]);
      CommitHistoryCall();
      ProcessUpdateCall();
    }

    /** The `forEach` over the selected nodes: each one's subtree is walked and deleted in
        turn, the records of all walks pushed onto one transaction. */
    method DeleteWalks(selectedNodes: seq<Node>) returns (transactions: Transaction)
      modifies this`scene, this`trace
      ensures transactions == DeletesOf(PreorderAll(selectedNodes))
      ensures scene == RemoveEach(old(scene), Ids(PreorderAll(selectedNodes)))
      ensures trace == old(trace) + DestroyCalls(PreorderAll(selectedNodes))
    {
      transactions := [];
      ghost var walked: seq<Node> := [];
      var i := 0;
      while i < |selectedNodes|
        invariant 0 <= i <= |selectedNodes|
        invariant walked == PreorderAll(selectedNodes[..i])
        invariant transactions == DeletesOf(walked)
        invariant trace == old(trace) + DestroyCalls(walked)
        invariant scene == RemoveEach(old(scene), Ids(walked))
      {
        var node := selectedNodes[i];
        ghost var visit := Preorder(node);
        transactions := TraverseDelete(node, transactions);
        WalkAppend(old(scene), walked, visit);
        PreorderAllStep(selectedNodes, i);
        walked := walked + visit;
        i := i + 1;
      }
      assert selectedNodes[..i] == selectedNodes;
    }

    /** `node.traverse(callback)` with the 'Backspace' callback: each visited node, in
        pre-order, gets a Delete record pushed and is then destroyed. */
    method TraverseDelete(node: Node, transactions: Transaction) returns (pushed: Transaction)
      modifies this`scene, this`trace
      ensures pushed == transactions + DeletesOf(Preorder(node))
      ensures scene == RemoveEach(old(scene), Ids(Preorder(node)))
      ensures trace == old(trace) + DestroyCalls(Preorder(node))
    {
      var visit := Preorder(node);
      pushed := transactions;
      var j := 0;
      while j < |visit|
        invariant 0 <= j <= |visit|
        invariant pushed == transactions + DeletesOf(visit[..j])
        invariant trace == old(trace) + DestroyCalls(visit[..j])
        invariant scene == RemoveEach(old(scene), Ids(visit[..j]))
      {
        var visited := visit[j];
        WalkAppend(old(scene), visit[..j], [visited]);
        assert visit[..j + 1] == visit[..j] + [visited];
        pushed := pushed + [Delete(visited.id)];
        DestroyNode(visited.id);
        j := j + 1;
      }
      assert visit[..j] == visit;
    }

    /** What the 'Backspace' handler leaves behind, given the state before it. */
    twostate predicate Deleted()
      reads this
    {
      var walked := PreorderAll(Resolve(old(scene), old(selection)));
      var t := DeletesOf(walked);
      && scene == ApplyAll(RemoveEach(old(scene), Ids(walked)), t)
      && scene == RemoveSet(old(scene), IdSet(Ids(walked)))
      && (forall id :: id in Ids(walked) ==> Find(scene, id) == None)
      && (forall x :: x in SceneIds(old(scene)) && NotUnder(old(scene), IdSet(Ids(walked)), x)
                      ==> Find(scene, x).Some?)
      && pending == t && history == old(history) + [t]
      && selection == [] && hover == old(hover) && state == old(state)
      && trace == old(trace) + DestroyCalls(walked)
                 + [ApplyTransaction(t), SetSelection([]), CommitHistory, ProcessUpdate]
    }

    /** The 'cmd+a' handler: the selection becomes every node of the scene, depth-first. */
    method SelectAll()
      requires Valid()
      modifies this`selection, this`trace
      ensures selection == SceneIds(scene) && Distinct(selection)
      ensures forall id :: id in selection <==> Find(scene, id).Some?
      ensures trace == old(trace) + [SetSelection(selection)]
    {
      forall id ensures id in SceneIds(scene) <==> Find(scene, id).Some? {
        FindSpec(scene, id);
      }
      SetSelectedNodes(SceneIds(scene));
    }

    /** What running the handler of `a` leaves behind. */
    twostate predicate Performed(a: Action)
      reads this
    {
      match a
      case EnterCreateFrame =>
        state == CreateFrame && Untouched() && trace == old(trace) + [ChangeState(CreateFrame)]
      case EnterCreateRectangle =>
        state == CreateRectangle && Untouched() && trace == old(trace) + [ChangeState(CreateRectangle)]
      case DeleteSelection =>
        Deleted()
      case SelectAll =>
        selection == SceneIds(scene) && scene == old(scene) && hover == old(hover)
        && state == old(state) && pending == old(pending) && history == old(history)
        && trace == old(trace) + [SetSelection(selection)]
      case Redo =>
        trace == old(trace) + [RedoHistory]
      case Undo =>
        trace == old(trace) + [UndoHistory]
    }

    /** Scene, selection, hover and history are as they were. */
    twostate predicate Untouched()
      reads this
    {
      scene == old(scene) && selection == old(selection) && hover == old(hover)
      && pending == old(pending) && history == old(history)
    }

    /** Runs one handler of the shortcut table. */
    method Run(a: Action)
      requires Valid()
      modifies this
      ensures Valid() && Performed(a)
    {
      match a {
        case EnterCreateFrame => ChangeEditorState(CreateFrame);
        case EnterCreateRectangle => ChangeEditorState(CreateRectangle);
        case DeleteSelection => DeleteSelected();
        case SelectAll => SelectAll();
        case Redo => RedoHistoryCall();
        case Undo => UndoHistoryCall();
      }
    }

    /** The keydown listener: the first matching entry's handler runs, once; when no entry
        matches the editor is left as it was. */
    method KeyDown(e: InputSnapshot)
      requires Valid()
      modifies this
      ensures Valid()
      ensures FirstMatch(Table, e).None? ==> unchanged(this)
      ensures FirstMatch(Table, e).Some? ==> Performed(FirstMatch(Table, e).value)
    {
      var fired := Dispatch(Table, e);
      if fired.Some? {
        Run(fired.value);
      }
    }
  }

  /** The scene after destroying each id in turn. */
  function RemoveEach(ns: seq<Node>, ids: seq<string>): seq<Node>
    decreases ids
  {
    if ids == [] then ns else RemoveEach(Remove(ns, ids[0]), ids[1..])
  }

  /** The ids of a sequence, as a set. */
  function IdSet(ids: seq<string>): set<string>
  {
    set x | x in ids
  }

  // ---------------------------------------------------------------------------------------
  // Lemmas

  /** Walks done one after the other: records, destroy calls and removals compose. */
  lemma WalkAppend(ns: seq<Node>, a: seq<Node>, b: seq<Node>)
    ensures DeletesOf(a + b) == DeletesOf(a) + DeletesOf(b)
    ensures DestroyCalls(a + b) == DestroyCalls(a) + DestroyCalls(b)
    ensures Ids(a + b) == Ids(a) + Ids(b)
    ensures RemoveEach(ns, Ids(a + b)) == RemoveEach(RemoveEach(ns, Ids(a)), Ids(b))
  {
    IdsAppend(a, b);
    DeletesOfAppend(a, b);
    DestroyCallsAppend(a, b);
    RemoveEachAppend(ns, Ids(a), Ids(b));
  }

  lemma {:induction false} DeletesOfAppend(a: seq<Node>, b: seq<Node>)
    ensures DeletesOf(a + b) == DeletesOf(a) + DeletesOf(b)
  {
    if a == [] {
      assert a + b == b;
    } else {
      assert (a + b)[1..] == a[1..] + b;
      DeletesOfAppend(a[1..], b);
    }
  }

  lemma {:induction false} DestroyCallsAppend(a: seq<Node>, b: seq<Node>)
    ensures DestroyCalls(a + b) == DestroyCalls(a) + DestroyCalls(b)
  {
    if a == [] {
      assert a + b == b;
    } else {
      assert (a + b)[1..] == a[1..] + b;
      DestroyCallsAppend(a[1..], b);
    }
  }

  /** After destroying each id of `ids` and applying the Delete records of a transaction,
      the index is still sound and none of `ids` resolves. */
  lemma DeletedIdsAbsent(ns: seq<Node>, ids: seq<string>, t: Transaction)
    requires WellFormed(ns) && AllDeletes(t)
    ensures WellFormed(ApplyAll(RemoveEach(ns, ids), t))
    ensures forall id :: id in ids ==> id !in SceneIds(ApplyAll(RemoveEach(ns, ids), t))
  {
    RemoveEachKeepsWellFormed(ns, ids);
    DeletesKeepWellFormed(RemoveEach(ns, ids), t);
    forall id | id in ids ensures id !in SceneIds(ApplyAll(RemoveEach(ns, ids), t)) {
      RemoveEachAbsent(ns, ids, id);
      DeletesKeepAbsent(RemoveEach(ns, ids), t, id);
    }
  }

  lemma {:induction false} RemoveEachKeepsWellFormed(ns: seq<Node>, ids: seq<string>)
    requires WellFormed(ns)
    ensures WellFormed(RemoveEach(ns, ids))
    decreases ids
  {
    if ids != [] {
      RemoveKeepsWellFormed(ns, ids[0]);
      RemoveEachKeepsWellFormed(Remove(ns, ids[0]), ids[1..]);
    }
  }

  /** Every destroyed id stays destroyed. */
  lemma {:induction false} RemoveEachAbsent(ns: seq<Node>, ids: seq<string>, id: string)
    requires id in ids || id !in SceneIds(ns)
    ensures id !in SceneIds(RemoveEach(ns, ids))
    decreases ids
  {
    if ids != [] {
      if id == ids[0] {
        RemoveShrinks(ns, id);
      } else if id !in SceneIds(ns) {
        RemoveKeepsAbsent(ns, ids[0], id);
      }
      RemoveEachAbsent(Remove(ns, ids[0]), ids[1..], id);
    }
  }

  lemma {:induction false} RemoveEachAppend(ns: seq<Node>, x: seq<string>, y: seq<string>)
    ensures RemoveEach(ns, x + y) == RemoveEach(RemoveEach(ns, x), y)
    decreases x
  {
    if x == [] {
      assert x + y == y;
    } else {
      assert (x + y)[1..] == x[1..] + y;
      RemoveEachAppend(Remove(ns, x[0]), x[1..], y);
    }
  }

  lemma PreorderAllStep(ns: seq<Node>, i: nat)
    requires i < |ns|
    ensures PreorderAll(ns[..i + 1]) == PreorderAll(ns[..i]) + Preorder(ns[i])
  {
    assert ns[..i + 1] == ns[..i] + [ns[i]];
    PreorderAllAppend(ns[..i], [ns[i]]);
    assert [ns[i]][1..] == [];
  }

  /** Only Delete records. */
  predicate AllDeletes(t: Transaction)
  {
    forall k :: 0 <= k < |t| ==> t[k].Delete?
  }

  /** A transaction of Delete records keeps the id index sound. */
  lemma {:induction false} DeletesKeepWellFormed(ns: seq<Node>, t: Transaction)
    requires WellFormed(ns) && AllDeletes(t)
    ensures WellFormed(ApplyAll(ns, t))
    decreases t
  {
    if t != [] {
      RemoveKeepsWellFormed(ns, t[0].id);
      DeletesKeepWellFormed(Remove(ns, t[0].id), t[1..]);
    }
  }

  /** A transaction of Delete records never brings an id back. */
  lemma {:induction false} DeletesKeepAbsent(ns: seq<Node>, t: Transaction, id: string)
    requires AllDeletes(t) && id !in SceneIds(ns)
    ensures id !in SceneIds(ApplyAll(ns, t))
    decreases t
  {
    if t != [] {
      RemoveKeepsAbsent(ns, t[0].id, id);
      DeletesKeepAbsent(Remove(ns, t[0].id), t[1..], id);
    }
  }

  /** Deleting the selection writes one record per node of each selected node's walk:
      a node with N descendants contributes N + 1 records. */
  lemma DeleteRecordCount(selected: seq<Node>)
    ensures |DeletesOf(PreorderAll(selected))| == SizeAll(selected)
    ensures AllDeletes(DeletesOf(PreorderAll(selected)))
  {
    PreorderAllSize(selected);
    DeletesOfAt(PreorderAll(selected));
  }

  /** The k-th record deletes the k-th visited node. */
  lemma {:induction false} DeletesOfAt(walk: seq<Node>)
    ensures forall k :: 0 <= k < |walk| ==> DeletesOf(walk)[k] == Delete(walk[k].id)
  {
    if walk != [] {
      DeletesOfAt(walk[1..]);
      var t := DeletesOf(walk);
      assert t == [Delete(walk[0].id)] + DeletesOf(walk[1..]);
      forall k | 0 <= k < |walk| ensures t[k] == Delete(walk[k].id) {
        if k > 0 {
          assert t[k] == DeletesOf(walk[1..])[k - 1];
          assert walk[k] == walk[1..][k - 1];
        }
      }
    }
  }

  /** The records of one selected node name the node itself first, then its descendants. */
  lemma DeleteRecordsStartAtNode(n: Node)
    ensures DeletesOf(PreorderAll([n])) == [Delete(n.id)] + DeletesOf(PreorderAll(n.children))
  {
    assert [n][1..] == [];
    assert PreorderAll([n]) == [n] + PreorderAll(n.children);
  }

  /** Applying the Delete records of a walk destroys the walked ids in walk order. */
  lemma {:induction false} ApplyDeletes(ns: seq<Node>, walk: seq<Node>)
    ensures ApplyAll(ns, DeletesOf(walk)) == RemoveEach(ns, Ids(walk))
    decreases walk
  {
    if walk != [] {
      assert DeletesOf(walk)[1..] == DeletesOf(walk[1..]);
      assert Ids(walk)[1..] == Ids(walk[1..]);
      ApplyDeletes(Remove(ns, walk[0].id), walk[1..]);
    }
  }

  /** Destroying ids one by one after a set of them is destroying the union. */
  lemma {:induction false} RemoveEachSet(ns: seq<Node>, ds: set<string>, ids: seq<string>)
    ensures RemoveEach(RemoveSet(ns, ds), ids) == RemoveSet(ns, ds + IdSet(ids))
    decreases ids
  {
    if ids == [] {
      assert ds + IdSet(ids) == ds;
    } else {
      RemoveSetInsert(ns, ds, ids[0]);
      RemoveEachSet(ns, ds + {ids[0]}, ids[1..]);
      assert ds + {ids[0]} + IdSet(ids[1..]) == ds + IdSet(ids);
    }
  }

  /** The 'Backspace' handler's scene is the old scene with the walked ids destroyed once each:
      the destroys during the walk and the later Delete records remove the same subtrees. */
  lemma DeleteLeavesRemoveSet(ns: seq<Node>, walk: seq<Node>)
    ensures ApplyAll(RemoveEach(ns, Ids(walk)), DeletesOf(walk)) == RemoveSet(ns, IdSet(Ids(walk)))
  {
    var ds := IdSet(Ids(walk));
    RemoveSetEmpty(ns);
    RemoveEachSet(ns, {}, Ids(walk));
    assert {} + ds == ds;
    ApplyDeletes(RemoveEach(ns, Ids(walk)), walk);
    RemoveEachSet(ns, ds, Ids(walk));
    assert ds + ds == ds;
  }

  /** Every node that lies under no destroyed node still resolves after `RemoveSet`. */
  lemma RemoveSetSpares(ns: seq<Node>, ds: set<string>)
    ensures forall x :: x in SceneIds(ns) && NotUnder(ns, ds, x) ==> Find(RemoveSet(ns, ds), x).Some?
  {
    forall x | x in SceneIds(ns) && NotUnder(ns, ds, x) ensures Find(RemoveSet(ns, ds), x).Some? {
      RemoveSetSpec(ns, ds, x);
      FindSpec(RemoveSet(ns, ds), x);
    }
  }

  /** What the 'Backspace' handler leaves of a sound scene, given the nodes its walks visit:
      the index stays sound, the walked subtrees are gone, and every node lying under no
      walked node still resolves. */
  lemma DeleteOutcome(ns: seq<Node>, walk: seq<Node>)
    requires WellFormed(ns)
    ensures WellFormed(ApplyAll(RemoveEach(ns, Ids(walk)), DeletesOf(walk)))
    ensures ApplyAll(RemoveEach(ns, Ids(walk)), DeletesOf(walk)) == RemoveSet(ns, IdSet(Ids(walk)))
    ensures forall id :: id in Ids(walk) ==> Find(ApplyAll(RemoveEach(ns, Ids(walk)), DeletesOf(walk)), id) == None
    ensures forall x :: x in SceneIds(ns) && NotUnder(ns, IdSet(Ids(walk)), x)
                        ==> Find(ApplyAll(RemoveEach(ns, Ids(walk)), DeletesOf(walk)), x).Some?
  {
    var after := ApplyAll(RemoveEach(ns, Ids(walk)), DeletesOf(walk));
    DeletesOfAt(walk);
    DeletedIdsAbsent(ns, Ids(walk), DeletesOf(walk));
    forall id | id in Ids(walk) ensures Find(after, id) == None {
      FindSpec(after, id);
    }
    DeleteLeavesRemoveSet(ns, walk);
    RemoveSetSpares(ns, IdSet(Ids(walk)));
  }

  /** The selection getter keeps exactly the selected ids that resolve, each as the node its id
      resolves to; it keeps them all iff every selected id resolves. */
  lemma {:induction false} ResolveSpec(ns: seq<Node>, ids: seq<string>)
    ensures forall n :: n in Resolve(ns, ids) ==> n.id in ids && Find(ns, n.id) == Some(n)
    ensures forall id :: id in ids && Find(ns, id).Some? ==> Find(ns, id).value in Resolve(ns, ids)
    ensures |Resolve(ns, ids)| == |ids| <==> forall id :: id in ids ==> id in SceneIds(ns)
    decreases ids
  {
    if ids != [] {
      ResolveSpec(ns, ids[1..]);
      FindSpec(ns, ids[0]);
      assert ids == [ids[0]] + ids[1..];
    }
  }

  /** The selection getter goes id by id, so the resolved nodes keep the selection's order. */
  lemma {:induction false} ResolveAppend(ns: seq<Node>, a: seq<string>, b: seq<string>)
    ensures Resolve(ns, a + b) == Resolve(ns, a) + Resolve(ns, b)
    decreases a
  {
    if a == [] {
      assert a + b == b;
    } else {
      assert (a + b)[0] == a[0] && (a + b)[1..] == a[1..] + b;
      ResolveAppend(ns, a[1..], b);
    }
  }
}
