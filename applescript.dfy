/**
 * The AppleScript path builder of menudump.swift: a menu path (labels from the
 * menu bar down to the item) becomes the object reference that System Events
 * needs to click that exact item, innermost reference first.
 */
module AppleScript {
  import opened Strings

  /** The label in double quotes, as interpolated by `"\"\(name)\""` (no escaping). */
  function Quoted(name: string): string
  {
    "\"" + name + "\""
  }

  /** The reference to the item itself. */
  function LeafRef(name: string): string
  {
    "menu item " + Quoted(name)
  }

  /** The reference to the menu that a submenu item opens. */
  function MenuRef(name: string): string
  {
    "of menu " + Quoted(name)
  }

  /** The reference to the item that owns a submenu. */
  function MenuItemRef(name: string): string
  {
    "of menu item " + Quoted(name)
  }

  /** The three closing references: the top-level menu, its menu bar item, the menu bar. */
  function TopRefs(name: string): seq<string>
  {
    [MenuRef(name), "of menu bar item " + Quoted(name), "of menu bar 1"]
  }

  /**
   * The menu / menu item pairs of the intermediate levels `level`, `level - 1`,
   * ..., 1, in that order.
   */
  function Nesting(path: seq<string>, level: nat): (r: seq<string>)
    requires level < |path|
    ensures |r| == 2 * level
  {
    if level == 0 then []
    else [MenuRef(path[level]), MenuItemRef(path[level])] + Nesting(path, level - 1)
  }

  /** Level `i` is the pair at positions 2(level - i) and 2(level - i) + 1, naming `path[i]` twice. */
  lemma {:induction false} NestingLayout(path: seq<string>, level: nat)
    requires level < |path|
    ensures forall i :: 1 <= i <= level ==>
      Nesting(path, level)[2 * (level - i)] == MenuRef(path[i]) &&
      Nesting(path, level)[2 * (level - i) + 1] == MenuItemRef(path[i])
  {
    if level > 0 {
      NestingLayout(path, level - 1);
    }
  }

  /**
   * The references for a path of two or more labels, innermost to outermost:
   * the item, one pair for each level from the second-to-last down to the
   * second, then the top-level triple.
   */
  function Components(path: seq<string>): (r: seq<string>)
    requires |path| >= 2
    ensures |r| == 2 * |path|
  {
    [LeafRef(path[|path| - 1])] + Nesting(path, |path| - 2) + TopRefs(path[0])
  }

  /**
   * The layout of the references: the item first, level `i` (1 <= i <= N - 2)
   * at positions 2N - 3 - 2i and 2N - 2 - 2i, the top-level triple last.
   */
  lemma ComponentsLayout(path: seq<string>)
    requires |path| >= 2
    ensures Components(path)[0] == LeafRef(path[|path| - 1])
    ensures forall i :: 1 <= i <= |path| - 2 ==>
      Components(path)[2 * |path| - 3 - 2 * i] == MenuRef(path[i]) &&
      Components(path)[2 * |path| - 2 - 2 * i] == MenuItemRef(path[i])
    ensures Components(path)[2 * |path| - 3..] == TopRefs(path[0])
  {
    var n := |path|;
    var mid := Nesting(path, n - 2);
    var r := Components(path);
    NestingLayout(path, n - 2);
    assert r == [LeafRef(path[n - 1])] + mid + TopRefs(path[0]);
    assert forall i :: 1 <= i <= n - 2 ==>
      r[2 * n - 3 - 2 * i] == mid[2 * (n - 2 - i)] && r[2 * n - 2 - 2 * i] == mid[2 * (n - 2 - i) + 1];
    assert r[2 * n - 3..] == TopRefs(path[0]);
  }

  /** What `buildAppleScriptPath` returns. */
  function ScriptPath(path: seq<string>): string
  {
    if |path| == 0 then ""
    else if |path| == 1 then "menu bar item " + Quoted(path[0]) + " of menu bar 1"
    else Join(Components(path), " ")
  }

  /** `buildAppleScriptPath`: collects the references in a loop from the second-to-last level down. */
  method BuildAppleScriptPath(path: seq<string>) returns (r: string)
    ensures r == ScriptPath(path)
  {
    if |path| == 0 {
      return "";
    }
    if |path| <= 1 {
      return "menu bar item " + Quoted(path[0]) + " of menu bar 1";
    }
    var components := [LeafRef(path[|path| - 1])];
    for i := |path| - 1 downto 1
      invariant components + Nesting(path, i - 1) == [LeafRef(path[|path| - 1])] + Nesting(path, |path| - 2)
    {
      NestingStep(path, i, components);
      components := components + [MenuRef(path[i])];
      components := components + [MenuItemRef(path[i])];
    }
    components := components + [MenuRef(path[0])];
    components := components + ["of menu bar item " + Quoted(path[0])];
    components := components + ["of menu bar 1"];
    assert components == Components(path);
    r := Join(components, " ");
  }

  /** One pass of the loop of `buildAppleScriptPath` keeps its invariant. */
  lemma NestingStep(path: seq<string>, i: nat, components: seq<string>)
    requires 1 <= i < |path| - 1
    requires components + Nesting(path, i) == [LeafRef(path[|path| - 1])] + Nesting(path, |path| - 2)
    ensures components + [MenuRef(path[i])] + [MenuItemRef(path[i])] + Nesting(path, i - 1)
      == [LeafRef(path[|path| - 1])] + Nesting(path, |path| - 2)
  {
    assert Nesting(path, i) == [MenuRef(path[i]), MenuItemRef(path[i])] + Nesting(path, i - 1);
    assert components + [MenuRef(path[i])] + [MenuItemRef(path[i])]
      == components + [MenuRef(path[i]), MenuItemRef(path[i])];
    AppendAssoc(components, [MenuRef(path[i]), MenuItemRef(path[i])], Nesting(path, i - 1));
  }
}
