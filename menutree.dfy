/**
 * The menu-tree walker of menudump.swift. The accessibility tree is given as
 * a value whose attributes have already been read; the walk collects one
 * descriptor per enabled leaf command, depth first, unwrapping single-child
 * submenus and skipping the Apple menu.
 */
module MenuTree {
  import opened Wrappers
  import opened Strings
  import opened Shortcuts
  import opened AppleScript

  /**
   * One accessibility element of the menu bar, with the attributes the walk
   * reads: title, children, enabled flag and the three key-equivalent
   * attributes (an attribute that is missing reads as None, or as 0 for the
   * two numbers).
   */
  datatype Node = Node(
    title: Option<string>,
    children: seq<Node>,
    enabled: Option<bool>,
    cmdChar: Option<string>,
    modifiers: int,
    virtualKey: int)

  /** `MenuItem` of menudump.swift: one leaf command found by the walk. */
  datatype MenuItem = MenuItem(
    path: seq<string>,
    pathIndices: string,
    shortcut: string,
    applescriptPath: string)
  {
    /** `title`: the leaf label, or "" for an empty path. */
    function Title(): string
    {
      if |path| == 0 then "" else path[|path| - 1]
    }

    /** `subtitle`: the labels above the leaf, joined by " > " (Swift's removeLast traps on an empty path). */
    function Subtitle(): string
      requires |path| >= 1
    {
      Join(path[..|path| - 1], " > ")
    }
  }

  /** The recursion stops at this depth. */
  const MaxDepth: nat := 5

  /** The top-level menu that is never listed. */
  const AppleMenu: string := "Apple"

  /** The index trail after descending into child `i`: `"i"` at the top, else `"<trail>,i"`. */
  function IndexTrail(pathIndices: string, i: nat): string
  {
    if pathIndices == "" then NatToString(i) else pathIndices + "," + NatToString(i)
  }

  /** The path label of a title: surrounding whitespace and newlines trimmed. */
  function PathLabel(title: string): string
  {
    Trim(title, WhitespacesAndNewlines)
  }

  /**
   * What `extractMenuItems(from: e, path:, pathIndices:, depth:)` returns:
   * nothing at depth 5 or more, else the items of the children in order.
   * Termination follows the depth bound, as in the source.
   */
  function Walk(e: Node, path: seq<string>, pathIndices: string, depth: nat): seq<MenuItem>
    decreases MaxDepth - depth, |e.children| + 2
  {
    if depth >= MaxDepth then [] else WalkChildren(e.children, 0, path, pathIndices, depth)
  }

  /** The items of `children[from..]`, concatenated in child order. */
  function WalkChildren(children: seq<Node>, from: nat, path: seq<string>, pathIndices: string, depth: nat): seq<MenuItem>
    requires depth < MaxDepth && from <= |children|
    decreases MaxDepth - depth, |children| - from + 1
  {
    if from == |children| then []
    else
      Visit(children[from], from, path, pathIndices, depth)
      + WalkChildren(children, from + 1, path, pathIndices, depth)
  }

  /**
   * The items contributed by child `i`: none when it has no title or an empty
   * one (checked before trimming) or when the path starts at the Apple menu;
   * the items of its only child's children when it has exactly one child;
   * otherwise one item if it is enabled (a missing flag counts as disabled).
   */
  function Visit(child: Node, i: nat, path: seq<string>, pathIndices: string, depth: nat): seq<MenuItem>
    requires depth < MaxDepth
    decreases MaxDepth - depth, 0
  {
    match child.title
    case None => []
    case Some(title) =>
      if title == "" then []
      else
        var menuPath := path + [PathLabel(title)];
        if menuPath[0] == AppleMenu then []
        else
          var indices := IndexTrail(pathIndices, i);
          if |child.children| == 1 then
            Walk(child.children[0], menuPath, indices, depth + 1)
          else if !child.enabled.GetOr(false) then []
          else
            [MenuItem(menuPath, indices, Shortcut(child.cmdChar, child.modifiers, child.virtualKey), ScriptPath(menuPath))]
  }

  /** `extractMenuItems`: loops over the children, recursing into single-child submenus. */
  method ExtractMenuItems(element: Node, path: seq<string>, pathIndices: string, depth: nat) returns (items: seq<MenuItem>)
    ensures items == Walk(element, path, pathIndices, depth)
    decreases MaxDepth - depth, 1
  {
    if depth >= MaxDepth {
      return [];
    }
    var children := element.children;
    items := [];
    for i := 0 to |children|
      invariant items + WalkChildren(children, i, path, pathIndices, depth)
        == WalkChildren(children, 0, path, pathIndices, depth)
    {
      var found := ExtractChild(children[i], i, path, pathIndices, depth);
      WalkChildrenStep(children, i, path, pathIndices, depth, items, found);
      items := items + found;
    }
  }

  /** The loop invariant of `extractMenuItems` survives appending what child `i` adds. */
  lemma WalkChildrenStep(children: seq<Node>, i: nat, path: seq<string>, pathIndices: string, depth: nat,
                         items: seq<MenuItem>, found: seq<MenuItem>)
    requires depth < MaxDepth && i < |children|
    requires items + WalkChildren(children, i, path, pathIndices, depth) == WalkChildren(children, 0, path, pathIndices, depth)
    requires found == Visit(children[i], i, path, pathIndices, depth)
    ensures (items + found) + WalkChildren(children, i + 1, path, pathIndices, depth)
      == WalkChildren(children, 0, path, pathIndices, depth)
  {
    var rest := WalkChildren(children, i + 1, path, pathIndices, depth);
    assert WalkChildren(children, i, path, pathIndices, depth) == found + rest;
    AppendAssoc(items, found, rest);
  }

  /**
   * One pass of the loop of `extractMenuItems` over `children.enumerated()`:
   * what child `i` adds to `items` (a `continue` adds nothing).
   */
  method ExtractChild(child: Node, i: nat, path: seq<string>, pathIndices: string, depth: nat) returns (found: seq<MenuItem>)
    requires depth < MaxDepth
    ensures found == Visit(child, i, path, pathIndices, depth)
    decreases MaxDepth - depth, 0
  {
    if child.title.None? || child.title.value == "" {
      return [];
    }
    var title := child.title.value;
    var menuPath := path + [PathLabel(title)];
    if menuPath[0] == AppleMenu {
      return [];
    }
    var indices := if pathIndices == "" then NatToString(i) else pathIndices + "," + NatToString(i);
    var childElements := child.children;
    if |childElements| == 1 {
      found := ExtractMenuItems(childElements[0], menuPath, indices, depth + 1);
      return;
    }
    var enabled := child.enabled.GetOr(false);
    if !enabled {
      return [];
    }
    var shortcut := GetShortcut(child.cmdChar, child.modifiers, child.virtualKey);
    var applescriptPath := BuildAppleScriptPath(menuPath);
    found := [MenuItem(menuPath, indices, shortcut, applescriptPath)];
  }

  // ---------------------------------------------------------------------------
  // Shape of every emitted item
  // ---------------------------------------------------------------------------

  /** The index trail has one decimal entry per label, separated by commas ("" for the empty path). */
  predicate TrailMatches(path: seq<string>, pathIndices: string)
  {
    if path == [] then pathIndices == ""
    else
      var entries := Split(pathIndices, ",");
      |entries| == |path| && forall k :: 0 <= k < |entries| ==> IsNumeral(entries[k])
  }

  /** Descending into child `i` adds one label and one matching trail entry. */
  lemma TrailStep(path: seq<string>, pathIndices: string, name: string, i: nat)
    requires TrailMatches(path, pathIndices)
    ensures TrailMatches(path + [name], IndexTrail(pathIndices, i))
  {
    var d := NatToString(i);
    assert forall k :: 0 <= k < |d| ==> d[k] != ',';
    if path == [] {
      SplitNoSeparator(d, ',');
    } else {
      SplitAppend(pathIndices, ',', d);
      var entries := Split(pathIndices, ",");
      assert Split(IndexTrail(pathIndices, i), ",") == entries + [d];
    }
  }

  /**
   * The walk context of a call at `depth`: the path has one label per level,
   * its trail matches, and it does not start at the Apple menu.
   */
  predicate WalkContext(path: seq<string>, pathIndices: string, depth: nat)
  {
    |path| == depth && TrailMatches(path, pathIndices) && (path != [] ==> path[0] != AppleMenu)
  }

  /**
   * What holds of every item found below a call with the given path: it
   * extends that path by at least one label, its path has at most five labels
   * and does not start at the Apple menu, its trail has one entry per label,
   * and its AppleScript reference is the one built from its path.
   */
  predicate ItemBelow(it: MenuItem, path: seq<string>)
  {
    && |path| < |it.path| <= MaxDepth
    && it.path[..|path|] == path
    && it.path[0] != AppleMenu
    && TrailMatches(it.path, it.pathIndices)
    && it.applescriptPath == ScriptPath(it.path)
  }

  /** Every item of a walk is well formed and lies below the walk's path; past depth 5 there is none. */
  lemma {:induction false} WalkShape(e: Node, path: seq<string>, pathIndices: string, depth: nat)
    requires WalkContext(path, pathIndices, depth)
    ensures depth >= MaxDepth ==> Walk(e, path, pathIndices, depth) == []
    ensures forall it :: it in Walk(e, path, pathIndices, depth) ==> ItemBelow(it, path)
    decreases MaxDepth - depth, |e.children| + 3
  {
    if depth < MaxDepth {
      WalkChildrenShape(e.children, 0, path, pathIndices, depth);
    }
  }

  lemma {:induction false} WalkChildrenShape(children: seq<Node>, from: nat, path: seq<string>, pathIndices: string, depth: nat)
    requires depth < MaxDepth && from <= |children|
    requires WalkContext(path, pathIndices, depth)
    ensures forall it :: it in WalkChildren(children, from, path, pathIndices, depth) ==> ItemBelow(it, path)
    decreases MaxDepth - depth, |children| - from + 2
  {
    if from < |children| {
      VisitShape(children[from], from, path, pathIndices, depth);
      WalkChildrenShape(children, from + 1, path, pathIndices, depth);
    }
  }

  lemma {:induction false} VisitShape(child: Node, i: nat, path: seq<string>, pathIndices: string, depth: nat)
    requires depth < MaxDepth
    requires WalkContext(path, pathIndices, depth)
    ensures forall it :: it in Visit(child, i, path, pathIndices, depth) ==> ItemBelow(it, path)
    decreases MaxDepth - depth, 1
  {
    if !Named(child, path) {
      VisitSkipped(child, i, path, pathIndices, depth);
    } else if |child.children| == 1 {
      var items := VisitSubmenu(child, i, path, pathIndices, depth);
      SubmenuWalkShape(child, i, path, pathIndices, depth, items);
    } else {
      LeafShape(child, i, path, pathIndices, depth);
    }
  }

  /** The item of a child without a single submenu lies one label below the path. */
  lemma LeafShape(child: Node, i: nat, path: seq<string>, pathIndices: string, depth: nat)
    requires depth < MaxDepth
    requires WalkContext(path, pathIndices, depth)
    requires Named(child, path) && |child.children| != 1
    ensures forall it :: it in Visit(child, i, path, pathIndices, depth) ==> ItemBelow(it, path)
  {
    var item := VisitLeaf(child, i, path, pathIndices, depth);
    TrailStep(path, pathIndices, PathLabel(child.title.value), i);
    if child.enabled.GetOr(false) {
      assert item.path[..|path|] == path;
      assert ItemBelow(item, path);
    }
  }

  /** Descending into a named child keeps the walk's context, one level down. */
  lemma ContextStep(child: Node, i: nat, path: seq<string>, pathIndices: string, depth: nat)
    requires WalkContext(path, pathIndices, depth) && Named(child, path)
    ensures WalkContext(path + [PathLabel(child.title.value)], IndexTrail(pathIndices, i), depth + 1)
  {
    TrailStep(path, pathIndices, PathLabel(child.title.value), i);
  }

  /** The items of a single-child submenu lie below the path. */
  lemma {:induction false} SubmenuWalkShape(child: Node, i: nat, path: seq<string>, pathIndices: string, depth: nat, items: seq<MenuItem>)
    requires depth < MaxDepth
    requires WalkContext(path, pathIndices, depth)
    requires Named(child, path) && |child.children| == 1
    requires items == Walk(child.children[0], path + [PathLabel(child.title.value)], IndexTrail(pathIndices, i), depth + 1)
    ensures forall it :: it in items ==> ItemBelow(it, path)
    decreases MaxDepth - depth, 0
  {
    var menuPath := path + [PathLabel(child.title.value)];
    ContextStep(child, i, path, pathIndices, depth);
    WalkShape(child.children[0], menuPath, IndexTrail(pathIndices, i), depth + 1);
    forall it | it in items
      ensures ItemBelow(it, path)
    {
      BelowParent(it, path, PathLabel(child.title.value));
    }
  }

  /** An item below a path extended by one label is below the path itself. */
  lemma BelowParent(it: MenuItem, path: seq<string>, name: string)
    requires ItemBelow(it, path + [name])
    ensures ItemBelow(it, path)
  {
    assert it.path[..|path|] == it.path[..|path + [name]|][..|path|];
  }

  // ---------------------------------------------------------------------------
  // Where every emitted item comes from
  // ---------------------------------------------------------------------------

  /**
   * `leaf` is reached from `child` by following the child indices `below`:
   * each step passes through a node with exactly one child (the submenu
   * container, which is not checked for being enabled) into that container's
   * children; every node on the way, the leaf included, has a present title
   * that is non-empty before trimming, and its trimmed title is the matching
   * entry of `labels`; the leaf has a child count other than one and is
   * enabled.
   */
  ghost predicate Yields(child: Node, below: seq<nat>, labels: seq<string>, leaf: Node)
    decreases |below|
  {
    && |labels| == |below| + 1
    && child.title.Some? && child.title.value != ""
    && labels[0] == PathLabel(child.title.value)
    && if below == [] then
         child == leaf && |child.children| != 1 && child.enabled == Some(true)
       else
         && |child.children| == 1
         && below[0] < |child.children[0].children|
         && Yields(child.children[0].children[below[0]], below[1..], labels[1..], leaf)
  }

  /** The index trail after descending through the child indices `trail` in turn. */
  function ExtendTrail(pathIndices: string, trail: seq<nat>): string
    decreases |trail|
  {
    if trail == [] then pathIndices else ExtendTrail(IndexTrail(pathIndices, trail[0]), trail[1..])
  }

  /** What an item says about the leaf it was made from. */
  ghost predicate MadeFrom(it: MenuItem, path: seq<string>, pathIndices: string, child: Node, i: nat, below: seq<nat>, leaf: Node)
  {
    && |path| <= |it.path|
    && Yields(child, below, it.path[|path|..], leaf)
    && it.pathIndices == ExtendTrail(pathIndices, [i] + below)
    && it.shortcut == Shortcut(leaf.cmdChar, leaf.modifiers, leaf.virtualKey)
  }

  /**
   * Every item of a walk comes from an enabled leaf reached from one of the
   * element's children through single-child submenus; its labels below the
   * walk's path are the trimmed titles along the way, its trail lists the
   * child indices taken and its shortcut is the leaf's.
   */
  lemma {:induction false} WalkOrigin(e: Node, path: seq<string>, pathIndices: string, depth: nat)
    requires WalkContext(path, pathIndices, depth)
    ensures forall it :: it in Walk(e, path, pathIndices, depth) ==>
      exists k: nat, below: seq<nat>, leaf: Node ::
        k < |e.children| && MadeFrom(it, path, pathIndices, e.children[k], k, below, leaf)
    decreases MaxDepth - depth, |e.children| + 3
  {
    if depth < MaxDepth {
      WalkChildrenOrigin(e.children, 0, path, pathIndices, depth);
    }
  }

  lemma {:induction false} WalkChildrenOrigin(children: seq<Node>, from: nat, path: seq<string>, pathIndices: string, depth: nat)
    requires depth < MaxDepth && from <= |children|
    requires WalkContext(path, pathIndices, depth)
    ensures forall it :: it in WalkChildren(children, from, path, pathIndices, depth) ==>
      exists k: nat, below: seq<nat>, leaf: Node ::
        from <= k < |children| && MadeFrom(it, path, pathIndices, children[k], k, below, leaf)
    decreases MaxDepth - depth, |children| - from + 2
  {
    if from < |children| {
      VisitOrigin(children[from], from, path, pathIndices, depth);
      WalkChildrenOrigin(children, from + 1, path, pathIndices, depth);
    }
  }

  lemma {:induction false} VisitOrigin(child: Node, i: nat, path: seq<string>, pathIndices: string, depth: nat)
    requires depth < MaxDepth
    requires WalkContext(path, pathIndices, depth)
    ensures forall it :: it in Visit(child, i, path, pathIndices, depth) ==>
      exists below: seq<nat>, leaf: Node :: MadeFrom(it, path, pathIndices, child, i, below, leaf)
    decreases MaxDepth - depth, 1
  {
    if !Named(child, path) {
      VisitSkipped(child, i, path, pathIndices, depth);
    } else if |child.children| == 1 {
      var items := VisitSubmenu(child, i, path, pathIndices, depth);
      SubmenuWalkOrigin(child, i, path, pathIndices, depth, items);
    } else {
      LeafOrigin(child, i, path, pathIndices, depth);
    }
  }

  /** The child has a present, non-empty title and the path below it does not start at the Apple menu. */
  predicate Named(child: Node, path: seq<string>)
  {
    child.title.Some? && child.title.value != "" && (path + [PathLabel(child.title.value)])[0] != AppleMenu
  }

  /** A child without a usable title, or one under the Apple menu, adds nothing. */
  lemma VisitSkipped(child: Node, i: nat, path: seq<string>, pathIndices: string, depth: nat)
    requires depth < MaxDepth && !Named(child, path)
    ensures Visit(child, i, path, pathIndices, depth) == []
  {
  }

  /** A named child with exactly one child adds the walk of that child, one level down. */
  lemma VisitSubmenu(child: Node, i: nat, path: seq<string>, pathIndices: string, depth: nat) returns (items: seq<MenuItem>)
    requires depth < MaxDepth && Named(child, path) && |child.children| == 1
    ensures items == Visit(child, i, path, pathIndices, depth)
    ensures items == Walk(child.children[0], path + [PathLabel(child.title.value)], IndexTrail(pathIndices, i), depth + 1)
  {
    items := Walk(child.children[0], path + [PathLabel(child.title.value)], IndexTrail(pathIndices, i), depth + 1);
  }

  /** The walk of a single-child submenu yields only items made from the submenu's owner. */
  lemma {:induction false} SubmenuWalkOrigin(child: Node, i: nat, path: seq<string>, pathIndices: string, depth: nat, items: seq<MenuItem>)
    requires depth < MaxDepth
    requires WalkContext(path, pathIndices, depth)
    requires Named(child, path) && |child.children| == 1
    requires items == Walk(child.children[0], path + [PathLabel(child.title.value)], IndexTrail(pathIndices, i), depth + 1)
    ensures forall it :: it in items ==>
      exists below: seq<nat>, leaf: Node :: MadeFrom(it, path, pathIndices, child, i, below, leaf)
    decreases MaxDepth - depth, 0
  {
    var sub := child.children[0];
    var menuPath := path + [PathLabel(child.title.value)];
    var indices := IndexTrail(pathIndices, i);
    ContextStep(child, i, path, pathIndices, depth);
    WalkShape(sub, menuPath, indices, depth + 1);
    WalkOrigin(sub, menuPath, indices, depth + 1);
    SubmenuItemsOrigin(child, i, path, pathIndices, items);
  }

  /** The item of a child without a single submenu is made from that child itself. */
  lemma LeafOrigin(child: Node, i: nat, path: seq<string>, pathIndices: string, depth: nat)
    requires depth < MaxDepth
    requires Named(child, path) && |child.children| != 1
    ensures forall it :: it in Visit(child, i, path, pathIndices, depth) ==>
      exists below: seq<nat>, leaf: Node :: MadeFrom(it, path, pathIndices, child, i, below, leaf)
  {
    var item := VisitLeaf(child, i, path, pathIndices, depth);
    if child.enabled.GetOr(false) {
      LeafMadeFrom(child, i, path, pathIndices, item);
    }
  }

  /** A named child without a single submenu adds its own item if it is enabled, and nothing otherwise. */
  lemma VisitLeaf(child: Node, i: nat, path: seq<string>, pathIndices: string, depth: nat) returns (item: MenuItem)
    requires depth < MaxDepth && Named(child, path) && |child.children| != 1
    ensures item == MenuItem(path + [PathLabel(child.title.value)], IndexTrail(pathIndices, i),
      Shortcut(child.cmdChar, child.modifiers, child.virtualKey), ScriptPath(path + [PathLabel(child.title.value)]))
    ensures Visit(child, i, path, pathIndices, depth) == if child.enabled.GetOr(false) then [item] else []
  {
    var menuPath := path + [PathLabel(child.title.value)];
    item := MenuItem(menuPath, IndexTrail(pathIndices, i),
      Shortcut(child.cmdChar, child.modifiers, child.virtualKey), ScriptPath(menuPath));
  }

  /** An enabled named leaf's item is made from that leaf, with no indices below it. */
  lemma LeafMadeFrom(child: Node, i: nat, path: seq<string>, pathIndices: string, item: MenuItem)
    requires child.title.Some? && child.title.value != "" && |child.children| != 1 && child.enabled == Some(true)
    requires item.path == path + [PathLabel(child.title.value)]
    requires item.pathIndices == IndexTrail(pathIndices, i)
    requires item.shortcut == Shortcut(child.cmdChar, child.modifiers, child.virtualKey)
    ensures MadeFrom(item, path, pathIndices, child, i, [], child)
  {
    assert item.path[|path|..] == [PathLabel(child.title.value)];
    assert ([i] + [])[1..] == [];
  }

  /** Every item found in a single-child submenu is made from the submenu's owner. */
  lemma SubmenuItemsOrigin(child: Node, i: nat, path: seq<string>, pathIndices: string, items: seq<MenuItem>)
    requires child.title.Some? && child.title.value != "" && |child.children| == 1
    requires forall it :: it in items ==> ItemBelow(it, path + [PathLabel(child.title.value)])
    requires forall it :: it in items ==>
      exists k: nat, below: seq<nat>, leaf: Node ::
        k < |child.children[0].children| &&
        MadeFrom(it, path + [PathLabel(child.title.value)], IndexTrail(pathIndices, i), child.children[0].children[k], k, below, leaf)
    ensures forall it :: it in items ==>
      exists below: seq<nat>, leaf: Node :: MadeFrom(it, path, pathIndices, child, i, below, leaf)
  {
    forall it | it in items
      ensures exists below: seq<nat>, leaf: Node :: MadeFrom(it, path, pathIndices, child, i, below, leaf)
    {
      SubmenuOrigin(child, i, path, pathIndices, it);
    }
  }

  /** An item found in a single-child submenu is made from the submenu's owner. */
  lemma SubmenuOrigin(child: Node, i: nat, path: seq<string>, pathIndices: string, it: MenuItem)
    requires child.title.Some? && child.title.value != "" && |child.children| == 1
    requires var menuPath := path + [PathLabel(child.title.value)];
      var sub := child.children[0];
      && ItemBelow(it, menuPath)
      && exists k: nat, below: seq<nat>, leaf: Node ::
           k < |sub.children| && MadeFrom(it, menuPath, IndexTrail(pathIndices, i), sub.children[k], k, below, leaf)
    ensures exists below: seq<nat>, leaf: Node :: MadeFrom(it, path, pathIndices, child, i, below, leaf)
  {
    var menuPath := path + [PathLabel(child.title.value)];
    var sub := child.children[0];
    var k: nat, below': seq<nat>, leaf: Node :|
      k < |sub.children| && MadeFrom(it, menuPath, IndexTrail(pathIndices, i), sub.children[k], k, below', leaf);
    assert it.path[|path|] == it.path[..|menuPath|][|path|];
    SubmenuStep(child, i, path, pathIndices, it, k, below', leaf);
  }

  /** One step of `VisitOrigin`: an item found in a submenu is made from the submenu's owner, one index further up. */
  lemma SubmenuStep(child: Node, i: nat, path: seq<string>, pathIndices: string, it: MenuItem, k: nat, below': seq<nat>, leaf: Node)
    requires child.title.Some? && child.title.value != "" && |child.children| == 1
    requires k < |child.children[0].children|
    requires |path| < |it.path| && it.path[|path|] == PathLabel(child.title.value)
    requires MadeFrom(it, path + [PathLabel(child.title.value)], IndexTrail(pathIndices, i), child.children[0].children[k], k, below', leaf)
    ensures MadeFrom(it, path, pathIndices, child, i, [k] + below', leaf)
  {
    var below := [k] + below';
    var labels := it.path[|path|..];
    assert labels[1..] == it.path[|path| + 1..];
    assert below[1..] == below';
    assert Yields(child, below, labels, leaf);
    assert ([i] + below)[1..] == below;
  }

  /**
   * For the whole menu bar: every item's path is the chain of trimmed titles
   * from a top-level menu down to an enabled leaf, at most five labels long,
   * never under the Apple menu, with one trail entry per label.
   */
  lemma MenuBarItems(menuBar: Node)
    ensures forall it :: it in Walk(menuBar, [], "", 0) ==>
      && ItemBelow(it, [])
      && exists k: nat, below: seq<nat>, leaf: Node ::
           k < |menuBar.children| && MadeFrom(it, [], "", menuBar.children[k], k, below, leaf)
  {
    WalkShape(menuBar, [], "", 0);
    WalkOrigin(menuBar, [], "", 0);
  }

  // ---------------------------------------------------------------------------
  // Which leaves are listed, and in which order
  // ---------------------------------------------------------------------------

  /**
   * The child indices leading to each item of `Walk`, in the same order: a
   * route starts with the index of the child of `e` it passes through and
   * goes on through the children of each unwrapped submenu down to the leaf.
   */
  ghost function WalkRoutes(e: Node, path: seq<string>, depth: nat): seq<seq<nat>>
    decreases MaxDepth - depth, |e.children| + 2
  {
    if depth >= MaxDepth then [] else ChildrenRoutes(e.children, 0, path, depth)
  }

  /** The routes of the items of `children[from..]`. */
  ghost function ChildrenRoutes(children: seq<Node>, from: nat, path: seq<string>, depth: nat): seq<seq<nat>>
    requires depth < MaxDepth && from <= |children|
    decreases MaxDepth - depth, |children| - from + 1
  {
    if from == |children| then []
    else VisitRoutes(children[from], from, path, depth) + ChildrenRoutes(children, from + 1, path, depth)
  }

  /** The routes of the items child `i` adds. */
  ghost function VisitRoutes(child: Node, i: nat, path: seq<string>, depth: nat): seq<seq<nat>>
    requires depth < MaxDepth
    decreases MaxDepth - depth, 0
  {
    if !Named(child, path) then []
    else if |child.children| == 1 then
      Prepend(i, WalkRoutes(child.children[0], path + [PathLabel(child.title.value)], depth + 1))
    else if child.enabled.GetOr(false) then [[i]]
    else []
  }

  /** Every route with `i` put in front. */
  function Prepend(i: nat, routes: seq<seq<nat>>): seq<seq<nat>>
  {
    if routes == [] then [] else [[i] + routes[0]] + Prepend(i, routes[1..])
  }

  /** `Prepend` puts `i` in front of each route, one for one. */
  lemma {:induction false} PrependPointwise(i: nat, routes: seq<seq<nat>>)
    ensures |Prepend(i, routes)| == |routes|
    ensures forall j :: 0 <= j < |routes| ==> Prepend(i, routes)[j] == [i] + routes[j]
  {
    if routes != [] {
      PrependPointwise(i, routes[1..]);
    }
  }

  /** Item `j` carries the index trail of route `j`, for every `j`. */
  predicate Traced(items: seq<MenuItem>, pathIndices: string, routes: seq<seq<nat>>)
  {
    |items| == |routes| && forall j :: 0 <= j < |items| ==> items[j].pathIndices == ExtendTrail(pathIndices, routes[j])
  }

  /** Tracing survives concatenation. */
  lemma TracedAppend(xs: seq<MenuItem>, ys: seq<MenuItem>, pathIndices: string, rs: seq<seq<nat>>, ts: seq<seq<nat>>)
    requires Traced(xs, pathIndices, rs) && Traced(ys, pathIndices, ts)
    ensures Traced(xs + ys, pathIndices, rs + ts)
  {
    forall j | |xs| <= j < |xs| + |ys|
      ensures (xs + ys)[j].pathIndices == ExtendTrail(pathIndices, (rs + ts)[j])
    {
      assert (xs + ys)[j] == ys[j - |xs|] && (rs + ts)[j] == ts[j - |xs|];
    }
  }

  /** Items traced one level down are traced here once the child index is put in front. */
  lemma TracedPrepend(items: seq<MenuItem>, pathIndices: string, i: nat, routes: seq<seq<nat>>)
    requires Traced(items, IndexTrail(pathIndices, i), routes)
    ensures Traced(items, pathIndices, Prepend(i, routes))
  {
    PrependPointwise(i, routes);
    forall j | 0 <= j < |items|
      ensures items[j].pathIndices == ExtendTrail(pathIndices, Prepend(i, routes)[j])
    {
      assert ([i] + routes[j])[1..] == routes[j];
    }
  }

  /** Each item's index trail spells out its route, one item per route. */
  lemma {:induction false} WalkTraced(e: Node, path: seq<string>, pathIndices: string, depth: nat)
    ensures Traced(Walk(e, path, pathIndices, depth), pathIndices, WalkRoutes(e, path, depth))
    decreases MaxDepth - depth, |e.children| + 3
  {
    if depth < MaxDepth {
      ChildrenTraced(e.children, 0, path, pathIndices, depth);
    }
  }

  lemma {:induction false} ChildrenTraced(children: seq<Node>, from: nat, path: seq<string>, pathIndices: string, depth: nat)
    requires depth < MaxDepth && from <= |children|
    ensures Traced(WalkChildren(children, from, path, pathIndices, depth), pathIndices, ChildrenRoutes(children, from, path, depth))
    decreases MaxDepth - depth, |children| - from + 2
  {
    if from < |children| {
      VisitTraced(children[from], from, path, pathIndices, depth);
      ChildrenTraced(children, from + 1, path, pathIndices, depth);
      TracedAppend(Visit(children[from], from, path, pathIndices, depth), WalkChildren(children, from + 1, path, pathIndices, depth),
        pathIndices, VisitRoutes(children[from], from, path, depth), ChildrenRoutes(children, from + 1, path, depth));
    }
  }

  lemma {:induction false} VisitTraced(child: Node, i: nat, path: seq<string>, pathIndices: string, depth: nat)
    requires depth < MaxDepth
    ensures Traced(Visit(child, i, path, pathIndices, depth), pathIndices, VisitRoutes(child, i, path, depth))
    decreases MaxDepth - depth, 1
  {
    if !Named(child, path) {
      VisitSkipped(child, i, path, pathIndices, depth);
    } else if |child.children| == 1 {
      var menuPath := path + [PathLabel(child.title.value)];
      var items := VisitSubmenu(child, i, path, pathIndices, depth);
      WalkTraced(child.children[0], menuPath, IndexTrail(pathIndices, i), depth + 1);
      TracedPrepend(items, pathIndices, i, WalkRoutes(child.children[0], menuPath, depth + 1));
    } else {
      var item := VisitLeaf(child, i, path, pathIndices, depth);
      assert [i][1..] == [];
    }
  }

  /** Route `a` comes before route `b`: lexicographic order of child indices. */
  predicate LexLess(a: seq<nat>, b: seq<nat>)
    decreases |a|
  {
    b != [] && (a == [] || a[0] < b[0] || (a[0] == b[0] && LexLess(a[1..], b[1..])))
  }

  /** No route comes before itself. */
  lemma {:induction false} LexLessIrreflexive(a: seq<nat>)
    ensures !LexLess(a, a)
    decreases |a|
  {
    if a != [] {
      LexLessIrreflexive(a[1..]);
    }
  }

  /** Each route comes strictly before every later one. */
  predicate Increasing(routes: seq<seq<nat>>)
  {
    forall j, j' :: 0 <= j < j' < |routes| ==> LexLess(routes[j], routes[j'])
  }

  /** Every route is non-empty and starts with a child index in `[lo, hi)`. */
  predicate StartsWithin(routes: seq<seq<nat>>, lo: nat, hi: nat)
  {
    forall j :: 0 <= j < |routes| ==> routes[j] != [] && lo <= routes[j][0] < hi
  }

  /** The routes through child `i` followed by those through later children keep increasing. */
  lemma IncreasingAppend(rs: seq<seq<nat>>, ts: seq<seq<nat>>, i: nat, hi: nat)
    requires Increasing(rs) && StartsWithin(rs, i, i + 1)
    requires Increasing(ts) && StartsWithin(ts, i + 1, hi)
    requires i < hi
    ensures Increasing(rs + ts) && StartsWithin(rs + ts, i, hi)
  {
    var all := rs + ts;
    forall j, j' | 0 <= j < j' < |all|
      ensures LexLess(all[j], all[j'])
    {
      if j' < |rs| {
        assert all[j] == rs[j] && all[j'] == rs[j'];
      } else if j >= |rs| {
        assert all[j] == ts[j - |rs|] && all[j'] == ts[j' - |rs|];
      } else {
        assert all[j] == rs[j] && all[j'] == ts[j' - |rs|];
      }
    }
    forall j | 0 <= j < |all|
      ensures all[j] != [] && i <= all[j][0] < hi
    {
      if j >= |rs| {
        assert all[j] == ts[j - |rs|];
      }
    }
  }

  /** Putting the same index in front keeps the order, and every route then starts with it. */
  lemma IncreasingPrepend(i: nat, routes: seq<seq<nat>>)
    requires Increasing(routes)
    ensures Increasing(Prepend(i, routes)) && StartsWithin(Prepend(i, routes), i, i + 1)
  {
    PrependPointwise(i, routes);
    var rs := Prepend(i, routes);
    forall j, j' | 0 <= j < j' < |rs|
      ensures LexLess(rs[j], rs[j'])
    {
      assert rs[j][1..] == routes[j] && rs[j'][1..] == routes[j'];
    }
  }

  /** The routes of a walk strictly increase: the items come depth first, in child order. */
  lemma {:induction false} WalkOrdered(e: Node, path: seq<string>, depth: nat)
    ensures Increasing(WalkRoutes(e, path, depth))
    decreases MaxDepth - depth, |e.children| + 3
  {
    if depth < MaxDepth {
      ChildrenOrdered(e.children, 0, path, depth);
    }
  }

  lemma {:induction false} ChildrenOrdered(children: seq<Node>, from: nat, path: seq<string>, depth: nat)
    requires depth < MaxDepth && from <= |children|
    ensures Increasing(ChildrenRoutes(children, from, path, depth))
    ensures StartsWithin(ChildrenRoutes(children, from, path, depth), from, |children|)
    decreases MaxDepth - depth, |children| - from + 2
  {
    if from < |children| {
      VisitOrdered(children[from], from, path, depth);
      ChildrenOrdered(children, from + 1, path, depth);
      IncreasingAppend(VisitRoutes(children[from], from, path, depth), ChildrenRoutes(children, from + 1, path, depth), from, |children|);
    }
  }

  lemma {:induction false} VisitOrdered(child: Node, i: nat, path: seq<string>, depth: nat)
    requires depth < MaxDepth
    ensures Increasing(VisitRoutes(child, i, path, depth))
    ensures StartsWithin(VisitRoutes(child, i, path, depth), i, i + 1)
    decreases MaxDepth - depth, 1
  {
    if Named(child, path) && |child.children| == 1 {
      var menuPath := path + [PathLabel(child.title.value)];
      WalkOrdered(child.children[0], menuPath, depth + 1);
      IncreasingPrepend(i, WalkRoutes(child.children[0], menuPath, depth + 1));
    }
  }

  /** Increasing routes are pairwise different: no route is listed twice. */
  lemma RoutesDistinct(routes: seq<seq<nat>>)
    requires Increasing(routes)
    ensures forall j, j' :: 0 <= j < |routes| && 0 <= j' < |routes| && j != j' ==> routes[j] != routes[j']
  {
    forall j, j' | 0 <= j < |routes| && 0 <= j' < |routes| && j != j'
      ensures routes[j] != routes[j']
    {
      LexLessIrreflexive(routes[j]);
      LexLessIrreflexive(routes[j']);
    }
  }

  /** Item `j` is listed under `route`, with path `p` and the shortcut of `leaf`. */
  ghost predicate ListedAt(items: seq<MenuItem>, routes: seq<seq<nat>>, j: nat, route: seq<nat>, p: seq<string>, leaf: Node)
  {
    && j < |items| && j < |routes|
    && routes[j] == route
    && items[j].path == p
    && items[j].shortcut == Shortcut(leaf.cmdChar, leaf.modifiers, leaf.virtualKey)
  }

  /** A named child with exactly one child has the routes of that child's walk, with `i` in front. */
  lemma RoutesSubmenu(child: Node, i: nat, path: seq<string>, depth: nat)
    requires depth < MaxDepth && Named(child, path) && |child.children| == 1
    ensures VisitRoutes(child, i, path, depth) ==
      Prepend(i, WalkRoutes(child.children[0], path + [PathLabel(child.title.value)], depth + 1))
  {
  }

  /** A named child without a single submenu has the one route `[i]` when enabled, and none otherwise. */
  lemma RoutesLeaf(child: Node, i: nat, path: seq<string>, depth: nat)
    requires depth < MaxDepth && Named(child, path) && |child.children| != 1
    ensures VisitRoutes(child, i, path, depth) == if child.enabled.GetOr(false) then [[i]] else []
  {
  }

  /**
   * Every enabled leaf that child `i` yields within the depth bound, outside
   * the Apple menu, is listed: under its route, with its trimmed titles as
   * path and its own shortcut.
   */
  lemma {:induction false} VisitFinds(child: Node, i: nat, path: seq<string>, pathIndices: string, depth: nat,
                                      below: seq<nat>, labels: seq<string>, leaf: Node) returns (j: nat)
    requires Yields(child, below, labels, leaf)
    requires depth + |below| < MaxDepth && (path + labels)[0] != AppleMenu
    ensures ListedAt(Visit(child, i, path, pathIndices, depth), VisitRoutes(child, i, path, depth), j, [i] + below, path + labels, leaf)
    decreases MaxDepth - depth, 2
  {
    var name := PathLabel(child.title.value);
    assert (path + [name])[0] == (path + labels)[0];
    if below == [] {
      assert labels == [name];
      FindsLeaf(child, i, path, pathIndices, depth, labels);
      j := 0;
    } else {
      j := FindsSubmenu(child, i, path, pathIndices, depth, below, labels, leaf);
    }
  }

  /** An enabled leaf child is listed first among what it adds, under the route `[i]`. */
  lemma FindsLeaf(child: Node, i: nat, path: seq<string>, pathIndices: string, depth: nat, labels: seq<string>)
    requires depth < MaxDepth && Named(child, path) && |child.children| != 1 && child.enabled == Some(true)
    requires labels == [PathLabel(child.title.value)]
    ensures ListedAt(Visit(child, i, path, pathIndices, depth), VisitRoutes(child, i, path, depth), 0, [i], path + labels, child)
  {
    var item := VisitLeaf(child, i, path, pathIndices, depth);
    RoutesLeaf(child, i, path, depth);
  }

  /** A leaf found through a single-child submenu is listed with the submenu owner's index in front. */
  lemma {:induction false} FindsSubmenu(child: Node, i: nat, path: seq<string>, pathIndices: string, depth: nat,
                                        below: seq<nat>, labels: seq<string>, leaf: Node) returns (j: nat)
    requires Named(child, path) && |child.children| == 1
    requires below != [] && below[0] < |child.children[0].children|
    requires |labels| == |below| + 1 && labels[0] == PathLabel(child.title.value)
    requires Yields(child.children[0].children[below[0]], below[1..], labels[1..], leaf)
    requires depth + |below| < MaxDepth && (path + labels)[0] != AppleMenu
    ensures ListedAt(Visit(child, i, path, pathIndices, depth), VisitRoutes(child, i, path, depth), j, [i] + below, path + labels, leaf)
    decreases MaxDepth - depth, 1
  {
    var items := VisitSubmenu(child, i, path, pathIndices, depth);
    RoutesSubmenu(child, i, path, depth);
    j := FindsBelow(child.children[0], i, path + [PathLabel(child.title.value)], IndexTrail(pathIndices, i), depth + 1,
                    path, below, labels, leaf);
  }

  /** The walk of a submenu lists the leaf, under its route with the owner's index `i` in front. */
  lemma FindsBelow(sub: Node, i: nat, menuPath: seq<string>, trail: string, depth: nat,
                   path: seq<string>, below: seq<nat>, labels: seq<string>, leaf: Node) returns (j: nat)
    requires depth > 0 && below != [] && below[0] < |sub.children|
    requires |labels| == |below| + 1 && menuPath == path + [labels[0]]
    requires Yields(sub.children[below[0]], below[1..], labels[1..], leaf)
    requires depth - 1 + |below| < MaxDepth && (path + labels)[0] != AppleMenu
    ensures ListedAt(Walk(sub, menuPath, trail, depth), Prepend(i, WalkRoutes(sub, menuPath, depth)), j, [i] + below, path + labels, leaf)
    decreases MaxDepth - depth + 1, 0
  {
    LabelsSplit(path, labels);
    assert [below[0]] + below[1..] == below;
    j := WalkFinds(sub, menuPath, trail, depth, below[0], below[1..], labels[1..], leaf);
    ListedPrepend(Walk(sub, menuPath, trail, depth), WalkRoutes(sub, menuPath, depth), j, below, path + labels, leaf, i);
  }

  /** Proof step of `FindsSubmenu`: extending a path by the first label and then the rest extends it by all labels. */
  lemma LabelsSplit(path: seq<string>, labels: seq<string>)
    requires labels != []
    ensures path + [labels[0]] + labels[1..] == path + labels
  {
    assert [labels[0]] + labels[1..] == labels;
  }

  /** A listing one level down is a listing here once the owner's index is put in front of the routes. */
  lemma ListedPrepend(items: seq<MenuItem>, routes: seq<seq<nat>>, j: nat, route: seq<nat>, p: seq<string>, leaf: Node, i: nat)
    requires ListedAt(items, routes, j, route, p, leaf)
    ensures ListedAt(items, Prepend(i, routes), j, [i] + route, p, leaf)
  {
    PrependPointwise(i, routes);
  }

  /** The same for the children from `from` on: the leaf yielded by child `k`. */
  lemma {:induction false} ChildrenFinds(children: seq<Node>, from: nat, k: nat, path: seq<string>, pathIndices: string, depth: nat,
                                         below: seq<nat>, labels: seq<string>, leaf: Node) returns (j: nat)
    requires from <= k < |children|
    requires Yields(children[k], below, labels, leaf)
    requires depth + |below| < MaxDepth && (path + labels)[0] != AppleMenu
    ensures ListedAt(WalkChildren(children, from, path, pathIndices, depth), ChildrenRoutes(children, from, path, depth),
      j, [k] + below, path + labels, leaf)
    decreases MaxDepth - depth, |children| - from + 2
  {
    var here := Visit(children[from], from, path, pathIndices, depth);
    var hereRoutes := VisitRoutes(children[from], from, path, depth);
    if from == k {
      j := VisitFinds(children[k], k, path, pathIndices, depth, below, labels, leaf);
    } else {
      var j' := ChildrenFinds(children, from + 1, k, path, pathIndices, depth, below, labels, leaf);
      VisitTraced(children[from], from, path, pathIndices, depth);
      j := |here| + j';
    }
  }

  /** The same for a walk: the leaf yielded by child `k` of `e`. */
  lemma {:induction false} WalkFinds(e: Node, path: seq<string>, pathIndices: string, depth: nat,
                                     k: nat, below: seq<nat>, labels: seq<string>, leaf: Node) returns (j: nat)
    requires k < |e.children|
    requires Yields(e.children[k], below, labels, leaf)
    requires depth + |below| < MaxDepth && (path + labels)[0] != AppleMenu
    ensures ListedAt(Walk(e, path, pathIndices, depth), WalkRoutes(e, path, depth), j, [k] + below, path + labels, leaf)
    decreases MaxDepth - depth, |e.children| + 3
  {
    j := ChildrenFinds(e.children, 0, k, path, pathIndices, depth, below, labels, leaf);
  }

  /**
   * Child `k` yields `leaf` through single-child submenus along `below`, with
   * the trimmed titles `labels`, within the depth bound and outside the Apple
   * menu: the leaves `extractMenuItems` must list.
   */
  ghost predicate Eligible(e: Node, path: seq<string>, depth: nat, k: nat, below: seq<nat>, labels: seq<string>, leaf: Node)
  {
    k < |e.children| && Yields(e.children[k], below, labels, leaf) &&
    depth + |below| < MaxDepth && (path + labels)[0] != AppleMenu
  }

  /** Some item of the walk is listed under the route `[k] + below`, with path `path + labels` and the leaf's shortcut. */
  ghost predicate Listed(e: Node, path: seq<string>, pathIndices: string, depth: nat, k: nat, below: seq<nat>, labels: seq<string>, leaf: Node)
  {
    exists j: nat :: ListedAt(Walk(e, path, pathIndices, depth), WalkRoutes(e, path, depth), j, [k] + below, path + labels, leaf)
  }

  /**
   * `extractMenuItems` misses no leaf: every enabled leaf that child `k`
   * yields through single-child submenus, within the depth bound and outside
   * the Apple menu, is listed under the route `[k] + below`, with the trimmed
   * titles along the way as its path and its own shortcut.
   */
  lemma WalkComplete(e: Node, path: seq<string>, pathIndices: string, depth: nat)
    ensures forall k, below, labels, leaf :: Eligible(e, path, depth, k, below, labels, leaf) ==>
      Listed(e, path, pathIndices, depth, k, below, labels, leaf)
  {
    forall k, below, labels, leaf | Eligible(e, path, depth, k, below, labels, leaf)
      ensures Listed(e, path, pathIndices, depth, k, below, labels, leaf)
    {
      var j := WalkFinds(e, path, pathIndices, depth, k, below, labels, leaf);
    }
  }

  /**
   * For the whole menu bar: item `j` has the trail of route `j`; the routes
   * strictly increase, so the items come depth first in child order and no
   * route is listed twice; and every enabled leaf at most five labels deep
   * and not under the Apple menu is listed.
   */
  lemma MenuBarListing(menuBar: Node)
    ensures Traced(Walk(menuBar, [], "", 0), "", WalkRoutes(menuBar, [], 0))
    ensures Increasing(WalkRoutes(menuBar, [], 0))
    ensures forall j, j' :: 0 <= j < |WalkRoutes(menuBar, [], 0)| && 0 <= j' < |WalkRoutes(menuBar, [], 0)| && j != j' ==>
      WalkRoutes(menuBar, [], 0)[j] != WalkRoutes(menuBar, [], 0)[j']
    ensures forall k, below, labels, leaf :: Eligible(menuBar, [], 0, k, below, labels, leaf) ==>
      Listed(menuBar, [], "", 0, k, below, labels, leaf)
  {
    WalkTraced(menuBar, [], "", 0);
    WalkOrdered(menuBar, [], 0);
    RoutesDistinct(WalkRoutes(menuBar, [], 0));
    WalkComplete(menuBar, [], "", 0);
  }
}
