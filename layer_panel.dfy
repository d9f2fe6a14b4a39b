/**
 * The selection and filtering rules of the layer panel: a click on a layer sets or toggles the
 * selection, a layer is shown selected or hovered by id, and the top-level layers of the
 * current page are filtered by a case-insensitive name search.
 */
module LayerPanel {
  import opened Wrappers
  import opened Scene

  /** What the panel reads from the editor store. */
  datatype PanelView = PanelView(currentPage: Option<Node>, selected: seq<Node>, hovered: Option<Node>)

  /** `nodes.some(n => n.id === id)`. */
  function SomeHasId(nodes: seq<Node>, id: string): bool
  {
    nodes != [] && (nodes[0].id == id || SomeHasId(nodes[1..], id))
  }

  /** `nodes.filter(n => n.id !== id)`. */
  function WithoutId(nodes: seq<Node>, id: string): (r: seq<Node>)
    ensures |r| <= |nodes|
  {
    if nodes == [] then []
    else if nodes[0].id == id then WithoutId(nodes[1..], id)
    else [nodes[0]] + WithoutId(nodes[1..], id)
  }

  /** The layer is drawn as selected. */
  predicate IsSelected(selected: seq<Node>, layer: Node)
  {
    SomeHasId(selected, layer.id)
  }

  /** The layer is drawn as hovered: `hoveredNode?.id === node.id`. */
  predicate IsHovered(hovered: Option<Node>, layer: Node)
  {
    hovered.Some? && hovered.value.id == layer.id
  }

  /** `handleSelectNode`: the selection handed to `selectNodes` after a click on `node`;
      `multi` is cmd or ctrl held. */
  function SelectOnClick(selected: seq<Node>, node: Node, multi: bool): seq<Node>
  {
    if multi then
      if SomeHasId(selected, node.id) then WithoutId(selected, node.id) else selected + [node]
    else [node]
  }

  /** A click on a layer, applied to the panel's view. */
  function SelectNode(v: PanelView, node: Node, multi: bool): (r: PanelView)
    ensures r.currentPage == v.currentPage && r.hovered == v.hovered
  {
    v.(selected := SelectOnClick(v.selected, node, multi))
  }

  /** `handleDeleteSelectedLayers`: the selection is cleared; no node is removed. */
  function DeleteSelectedLayers(v: PanelView): (r: PanelView)
    ensures r.selected == [] && r.currentPage == v.currentPage && r.hovered == v.hovered
  {
    v.(selected := [])
  }

  /** ASCII lower-casing of one character. */
  function LowerChar(c: char): char
  {
    if 'A' <= c <= 'Z' then (c as int + 32) as char else c
  }

  /** `s.toLowerCase()`, over ASCII. */
  function Lower(s: string): (r: string)
    ensures |r| == |s|
  {
    if s == [] then [] else [LowerChar(s[0])] + Lower(s[1..])
  }

  /** `s.includes(t)`: `t` occurs in `s` starting at some position. */
  function Includes(s: string, t: string): bool
  {
    t <= s || (s != [] && Includes(s[1..], t))
  }

  /** `layer.name || ''`. */
  function DisplayName(layer: Node): string
  {
    layer.name.GetOr("")
  }

  /** A layer passes the search. */
  predicate Matches(layer: Node, term: string)
  {
    Includes(Lower(DisplayName(layer)), Lower(term))
  }

  /** `currentPage?.children || []`. */
  function Layers(currentPage: Option<Node>): seq<Node>
  {
    match currentPage
    case Some(page) => page.children
    case None => []
  }

  /** `layers.filter(...)`: the layers whose name contains the term, ignoring case. */
  function FilterLayers(layers: seq<Node>, term: string): seq<Node>
  {
    if layers == [] then []
    else if Matches(layers[0], term) then [layers[0]] + FilterLayers(layers[1..], term)
    else FilterLayers(layers[1..], term)
  }

  /** The layers the panel lists. */
  function FilteredLayers(v: PanelView, term: string): seq<Node>
  {
    FilterLayers(Layers(v.currentPage), term)
  }

  // ---------------------------------------------------------------------------------------
  // Lemmas

  /** `some` by id: true iff some entry carries the id. */
  lemma {:induction false} SomeHasIdSpec(nodes: seq<Node>, id: string)
    ensures SomeHasId(nodes, id) <==> exists i :: 0 <= i < |nodes| && nodes[i].id == id
  {
    if nodes != [] {
      SomeHasIdSpec(nodes[1..], id);
      if SomeHasId(nodes[1..], id) {
        var i :| 0 <= i < |nodes[1..]| && nodes[1..][i].id == id;
        assert nodes[i + 1].id == id;
      }
      if exists i :: 0 <= i < |nodes| && nodes[i].id == id {
        var i :| 0 <= i < |nodes| && nodes[i].id == id;
        if i > 0 {
          assert nodes[1..][i - 1].id == id;
        }
      }
    }
  }

  /** A layer is drawn as selected iff some selected node has its id. */
  lemma IsSelectedSpec(selected: seq<Node>, layer: Node)
    ensures IsSelected(selected, layer) <==> exists i :: 0 <= i < |selected| && selected[i].id == layer.id
  {
    SomeHasIdSpec(selected, layer.id);
  }

  /** With the hover set from an id, a layer is drawn hovered iff the id resolves in the scene
      and is the layer's id; the empty id highlights nothing. */
  lemma HoverHighlight(scene: seq<Node>, id: string, layer: Node)
    requires WellFormed(scene)
    ensures IsHovered(Find(scene, id), layer) <==> id in SceneIds(scene) && layer.id == id
    ensures !IsHovered(Find(scene, ""), layer)
  {
    FindSpec(scene, id);
    FindEmptyIdIsNone(scene);
  }

  /** The id filter keeps exactly the entries with another id. */
  lemma {:induction false} WithoutIdMembers(nodes: seq<Node>, id: string)
    ensures forall x :: x in WithoutId(nodes, id) <==> x in nodes && x.id != id
  {
    if nodes != [] {
      WithoutIdMembers(nodes[1..], id);
      assert forall x :: x in nodes <==> x == nodes[0] || x in nodes[1..];
    }
  }

  /** The id filter works entry by entry, so it keeps the survivors in their original order. */
  lemma {:induction false} WithoutIdAppend(a: seq<Node>, b: seq<Node>, id: string)
    ensures WithoutId(a + b, id) == WithoutId(a, id) + WithoutId(b, id)
  {
    if a == [] {
      assert a + b == b;
    } else {
      assert (a + b)[1..] == a[1..] + b;
      WithoutIdAppend(a[1..], b, id);
    }
  }

  /** Filtering out an id nobody carries changes nothing. */
  lemma {:induction false} WithoutAbsentId(nodes: seq<Node>, id: string)
    requires !SomeHasId(nodes, id)
    ensures WithoutId(nodes, id) == nodes
  {
    if nodes != [] {
      WithoutAbsentId(nodes[1..], id);
    }
  }

  /** A plain click makes the selection exactly the clicked node. */
  lemma PlainClick(selected: seq<Node>, node: Node)
    ensures SelectOnClick(selected, node, false) == [node]
    ensures IsSelected(SelectOnClick(selected, node, false), node)
  {
  }

  /** A multi-click on a selected node drops every entry with its id and keeps the others. */
  lemma MultiClickOnSelected(selected: seq<Node>, node: Node)
    requires IsSelected(selected, node)
    ensures var r := SelectOnClick(selected, node, true);
            !IsSelected(r, node) && (forall x :: x in r <==> x in selected && x.id != node.id)
  {
    var r := SelectOnClick(selected, node, true);
    WithoutIdMembers(selected, node.id);
    SomeHasIdSpec(r, node.id);
  }

  /** A multi-click on an unselected node appends it at the end. */
  lemma MultiClickOnUnselected(selected: seq<Node>, node: Node)
    requires !IsSelected(selected, node)
    ensures SelectOnClick(selected, node, true) == selected + [node]
    ensures IsSelected(SelectOnClick(selected, node, true), node)
  {
    SomeHasIdSpec(selected + [node], node.id);
    assert (selected + [node])[|selected|].id == node.id;
  }

  /** Two multi-clicks on an unselected node give the original selection back. */
  lemma MultiClickTwiceRestores(selected: seq<Node>, node: Node)
    requires !IsSelected(selected, node)
    ensures SelectOnClick(SelectOnClick(selected, node, true), node, true) == selected
  {
    MultiClickOnUnselected(selected, node);
    WithoutIdAppend(selected, [node], node.id);
    WithoutAbsentId(selected, node.id);
    assert WithoutId([node], node.id) == [];
  }

  /** Lower-casing acts character by character. */
  lemma {:induction false} LowerAt(s: string)
    ensures forall i :: 0 <= i < |s| ==> Lower(s)[i] == LowerChar(s[i])
  {
    if s != [] {
      LowerAt(s[1..]);
      assert forall i :: 1 <= i < |s| ==> Lower(s)[i] == Lower(s[1..])[i - 1];
    }
  }

  /** Lower-casing twice is lower-casing once. */
  lemma LowerIdempotent(s: string)
    ensures Lower(Lower(s)) == Lower(s)
  {
    LowerAt(s);
    LowerAt(Lower(s));
  }

  /** `t` occurs in `s` at position `i`. */
  predicate OccursAt(s: string, t: string, i: int)
  {
    0 <= i && i + |t| <= |s| && s[i..i + |t|] == t
  }

  /** `includes` holds iff `t` occurs in `s` at some position. */
  lemma {:induction false} IncludesSpec(s: string, t: string)
    ensures Includes(s, t) <==> exists i :: OccursAt(s, t, i)
  {
    if t <= s {
      assert OccursAt(s, t, 0);
    } else if s == [] {
    } else {
      IncludesSpec(s[1..], t);
      if Includes(s[1..], t) {
        var i :| OccursAt(s[1..], t, i);
        assert s[i + 1..i + 1 + |t|] == s[1..][i..i + |t|];
        assert OccursAt(s, t, i + 1);
      }
      if exists i :: OccursAt(s, t, i) {
        var i :| OccursAt(s, t, i);
        if i != 0 {
          assert s[1..][i - 1..i - 1 + |t|] == s[i..i + |t|];
          assert OccursAt(s[1..], t, i - 1);
        }
      }
    }
  }

  /** The filter keeps exactly the matching layers, as they are (children and all). */
  lemma {:induction false} FilterLayersMembers(layers: seq<Node>, term: string)
    ensures forall x :: x in FilterLayers(layers, term) <==> x in layers && Matches(x, term)
    ensures |FilterLayers(layers, term)| <= |layers|
  {
    if layers != [] {
      FilterLayersMembers(layers[1..], term);
      assert forall x :: x in layers <==> x == layers[0] || x in layers[1..];
    }
  }

  /** The filter works layer by layer, so it keeps the original order. */
  lemma {:induction false} FilterLayersAppend(a: seq<Node>, b: seq<Node>, term: string)
    ensures FilterLayers(a + b, term) == FilterLayers(a, term) + FilterLayers(b, term)
  {
    if a == [] {
      assert a + b == b;
    } else {
      assert (a + b)[1..] == a[1..] + b;
      FilterLayersAppend(a[1..], b, term);
    }
  }

  /** An empty search term keeps every layer. */
  lemma {:induction false} EmptyTermKeepsAll(layers: seq<Node>)
    ensures FilterLayers(layers, "") == layers
  {
    if layers != [] {
      assert "" <= Lower(DisplayName(layers[0]));
      EmptyTermKeepsAll(layers[1..]);
    }
  }

  /** The search ignores the case of the term. */
  lemma {:induction false} FilterIgnoresTermCase(layers: seq<Node>, term: string)
    ensures FilterLayers(layers, term) == FilterLayers(layers, Lower(term))
  {
    LowerIdempotent(term);
    if layers != [] {
      FilterIgnoresTermCase(layers[1..], term);
    }
  }

  /** A layer with no name is kept only by the empty term. */
  lemma UnnamedLayer(layer: Node, term: string)
    requires layer.name == None
    ensures Matches(layer, term) <==> term == ""
  {
    if term != "" {
      assert !(Lower(term) <= "");
    }
  }
}
