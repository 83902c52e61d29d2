/**
 * The host's tree of panels and the lookup of the active view panel in it, from which the
 * plugin learns which block is focused.
 */
module PanelTree {
  import opened Optional
  import opened Text

  /**
   * A panel node: its id, its `type` (`"view"` for a leaf that shows something, other values
   * for rows and columns that split space), the `view` it shows, the `blockId` of its view
   * arguments (a numeric block id, or none) and its children, in order.
   */
  datatype Panel = Panel(id: string, kind: string, view: string, blockId: Option<nat>, children: seq<Panel>)

  predicate IsViewWithId(p: Panel, id: string) {
    p.id == id && p.kind == "view"
  }

  /** The nodes of the tree in pre-order: the root, then each child's subtree, left to right. */
  function PreOrder(p: Panel): seq<Panel>
    decreases p, 1
  {
    [p] + PreOrderAll(p.children)
  }

  function PreOrderAll(ps: seq<Panel>): seq<Panel>
    decreases ps, 0
  {
    if ps == [] then [] else PreOrder(ps[0]) + PreOrderAll(ps[1..])
  }

  /** The first node of `nodes` that is a view panel with the given id. */
  function FirstView(id: string, nodes: seq<Panel>): (r: Option<Panel>)
    ensures r.Some? ==> r.value in nodes && IsViewWithId(r.value, id)
    ensures r.None? <==> forall i :: 0 <= i < |nodes| ==> !IsViewWithId(nodes[i], id)
    ensures r.Some? ==> exists i :: (0 <= i < |nodes| && nodes[i] == r.value
      && forall j :: 0 <= j < i ==> !IsViewWithId(nodes[j], id))
  {
    if nodes == [] then None
    else if IsViewWithId(nodes[0], id) then Some(nodes[0])
    else
      var r := FirstView(id, nodes[1..]);
      assert forall i :: 1 <= i < |nodes| ==> nodes[i] == nodes[1..][i - 1];
      if r.Some? then
        var i :| 0 <= i < |nodes[1..]| && nodes[1..][i] == r.value
          && forall j :: 0 <= j < i ==> !IsViewWithId(nodes[1..][j], id);
        assert nodes[i + 1] == r.value;
        r
      else r
  }

  /** The first match in a concatenation is the first match of the left part, if it has one. */
  lemma {:induction false} FirstViewAppend(id: string, a: seq<Panel>, b: seq<Panel>)
    ensures FirstView(id, a + b) == if FirstView(id, a).Some? then FirstView(id, a) else FirstView(id, b)
  {
    if a == [] {
      assert a + b == b;
    } else {
      var ab := a + b;
      assert ab[0] == a[0];
      if IsViewWithId(a[0], id) {
        assert FirstView(id, ab) == Some(a[0]);
      } else {
        assert ab[1..] == a[1..] + b;
        assert FirstView(id, ab) == FirstView(id, ab[1..]);
        assert FirstView(id, a) == FirstView(id, a[1..]);
        FirstViewAppend(id, a[1..], b);
      }
    }
  }

  /**
   * `findViewPanel(id, panels)`: the node itself when it is a view panel with that id,
   * otherwise the first result of searching the children left to right. Whatever it
   * returns is a view panel with the requested id.
   */
  function FindViewPanel(id: string, p: Panel): (r: Option<Panel>)
    ensures r.Some? ==> IsViewWithId(r.value, id)
    decreases p, 1
  {
    if IsViewWithId(p, id) then Some(p) else FindInChildren(id, p.children)
  }

  function FindInChildren(id: string, ps: seq<Panel>): (r: Option<Panel>)
    ensures r.Some? ==> IsViewWithId(r.value, id)
    decreases ps, 0
  {
    if ps == [] then None
    else
      var found := FindViewPanel(id, ps[0]);
      if found.Some? then found else FindInChildren(id, ps[1..])
  }

  /**
   * The search is the first match of the pre-order traversal: root before children,
   * children left to right. In particular it returns `None` exactly when no node of the
   * tree is a view panel with that id.
   */
  lemma {:induction false} FindViewPanelIsFirstInPreOrder(id: string, p: Panel)
    ensures FindViewPanel(id, p) == FirstView(id, PreOrder(p))
    decreases p, 1
  {
    assert PreOrder(p)[0] == p;
    if !IsViewWithId(p, id) {
      assert PreOrder(p)[1..] == PreOrderAll(p.children);
      FindInChildrenIsFirstInPreOrder(id, p.children);
    }
  }

  lemma {:induction false} FindInChildrenIsFirstInPreOrder(id: string, ps: seq<Panel>)
    ensures FindInChildren(id, ps) == FirstView(id, PreOrderAll(ps))
    decreases ps, 0
  {
    if ps != [] {
      FindViewPanelIsFirstInPreOrder(id, ps[0]);
      FindInChildrenIsFirstInPreOrder(id, ps[1..]);
      FirstViewAppend(id, PreOrder(ps[0]), PreOrderAll(ps[1..]));
    }
  }

  /**
   * `getCurrentFocusedBlockId()`: the decimal id of the block shown by the active panel,
   * when that panel is found, shows a block, and has a non-zero block id; otherwise `None`.
   */
  function FocusedBlockId(activePanel: string, root: Panel): (r: Option<string>)
    ensures r.Some? ==> r.value != [] && IsDigits(r.value)
    ensures r.Some? <==> (
      && FirstView(activePanel, PreOrder(root)).Some?
      && var n := FirstView(activePanel, PreOrder(root)).value;
      n.view == "block" && n.blockId.Some? && n.blockId.value != 0)
    ensures r.Some? ==> r.value[0] != '0'
    ensures r.Some? ==> DecimalValue(r.value) == FirstView(activePanel, PreOrder(root)).value.blockId.value
  {
    FindViewPanelIsFirstInPreOrder(activePanel, root);
    match FindViewPanel(activePanel, root)
    case Some(n) =>
      if n.view == "block" && n.blockId.Some? && n.blockId.value != 0 then Some(DecimalString(n.blockId.value))
      else None
    case None => None
  }
}
