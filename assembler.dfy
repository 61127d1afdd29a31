/**
 * The result assembler of menudump.swift: each extracted menu item becomes
 * one Alfred result with a stable uid, a title that shows the shortcut, the
 * leaf label for autocompletion, the AppleScript reference as argument, the
 * parent path as subtitle and the whole path as match text.
 */
module Assembler {
  import opened Strings
  import opened Djb2
  import opened AppleScript
  import opened MenuTree

  /** An Alfred result (its `icon` is left out). */
  datatype AlfredItem = AlfredItem(
    uid: string,
    title: string,
    autocomplete: string,
    arg: string,
    subtitle: string,
    matchText: string)

  /** The separator of the string that is hashed for the uid. */
  const UidSeparator: string := ">"
  /** What separates the label from the shortcut in a result title. */
  const ShortcutOpen: string := " \t ("

  /** The hash the uid is made of: DJB2 over the labels joined by ">". */
  function PathHash(path: seq<string>): (h: int)
    ensures IsInt64(h)
  {
    StringHash(Join(path, UidSeparator))
  }

  function Abs(x: int): nat
  {
    if x < 0 then -x else x
  }

  /**
   * The uid: the decimal digits of the hash's absolute value. The source's
   * `abs` traps on `Int.min`, which is excluded here.
   */
  function Uid(path: seq<string>): (r: string)
    requires PathHash(path) != Int64Min
    ensures IsNumeral(r)
    ensures ParseNat(r) == Abs(PathHash(path))
    ensures r[0] == '0' ==> r == "0"
  {
    ParseNatToString(Abs(PathHash(path)));
    NatToString(Abs(PathHash(path)))
  }

  /** The result title: the leaf label, followed by the shortcut in parentheses when there is one. */
  function ResultTitle(item: MenuItem): (r: string)
    ensures StartsWith(r, item.Title())
    ensures r == item.Title() <==> item.shortcut == ""
    ensures item.shortcut != "" ==> r[|item.Title()|..] == ShortcutOpen + item.shortcut + ")"
  {
    if item.shortcut == "" then item.Title() else item.Title() + ShortcutOpen + item.shortcut + ")"
  }

  /** The closure of `items.map`: one result for one item (the source traps on an empty path). */
  function ToAlfred(item: MenuItem): (a: AlfredItem)
    requires |item.path| >= 1
    requires PathHash(item.path) != Int64Min
  {
    AlfredItem(
      Uid(item.path),
      ResultTitle(item),
      item.Title(),
      item.applescriptPath,
      item.Subtitle(),
      Join(item.path, " "))
  }

  /** Every item can be assembled. */
  predicate Assemblable(items: seq<MenuItem>)
  {
    forall i :: 0 <= i < |items| ==> |items[i].path| >= 1 && PathHash(items[i].path) != Int64Min
  }

  /** `items.map { ... }`: the results in the order of the items. */
  function AlfredItems(items: seq<MenuItem>): (r: seq<AlfredItem>)
    requires Assemblable(items)
  {
    if items == [] then [] else [ToAlfred(items[0])] + AlfredItems(items[1..])
  }

  // ---------------------------------------------------------------------------
  // Properties
  // ---------------------------------------------------------------------------

  /** The results correspond one to one, in order, to the menu items. */
  lemma {:induction false} AlfredItemsPointwise(items: seq<MenuItem>)
    requires Assemblable(items)
    ensures |AlfredItems(items)| == |items|
    ensures forall i :: 0 <= i < |items| ==> AlfredItems(items)[i] == ToAlfred(items[i])
  {
    if items != [] {
      var rest := items[1..];
      assert Assemblable(rest);
      AlfredItemsPointwise(rest);
      assert AlfredItems(items) == [ToAlfred(items[0])] + AlfredItems(rest);
      assert forall i :: 1 <= i < |items| ==> rest[i - 1] == items[i];
    }
  }

  /**
   * The fields of a result: the uid is the decimal magnitude of the path's
   * hash; autocomplete is the leaf label; the argument is the AppleScript
   * reference to the item; the subtitle joined with " > " and the leaf label
   * give back the whole path joined with " > "; the title is the leaf label,
   * followed by the shortcut in parentheses when there is one; the match text
   * is the labels joined by single spaces.
   */
  lemma ResultFields(item: MenuItem)
    requires |item.path| >= 1
    requires PathHash(item.path) != Int64Min
    requires item.applescriptPath == ScriptPath(item.path)
    ensures ParseNat(ToAlfred(item).uid) == Abs(PathHash(item.path))
    ensures ToAlfred(item).autocomplete == item.path[|item.path| - 1]
    ensures ToAlfred(item).arg == ScriptPath(item.path)
    ensures |item.path| == 1 ==> ToAlfred(item).subtitle == ""
    ensures |item.path| >= 2 ==>
      ToAlfred(item).subtitle + " > " + ToAlfred(item).autocomplete == Join(item.path, " > ")
    ensures ToAlfred(item).title == ResultTitle(item)
    ensures ToAlfred(item).matchText == Join(item.path, " ")
  {
    var path := item.path;
    JoinSnoc(path[..|path| - 1], path[|path| - 1], " > ");
    assert path[..|path| - 1] + [path[|path| - 1]] == path;
  }

  /** The match text splits back into the path when no label contains a space. */
  lemma MatchRecoversPath(item: MenuItem)
    requires |item.path| >= 1
    requires PathHash(item.path) != Int64Min
    requires forall i :: 0 <= i < |item.path| ==> ' ' !in item.path[i]
    ensures Split(ToAlfred(item).matchText, " ") == item.path
  {
    SplitJoin(item.path, ' ');
  }

  /**
   * Every item the walk of a menu bar yields can be assembled, unless its
   * hash is `Int.min`; its result's argument is the reference to its path.
   */
  lemma MenuBarAssemblable(menuBar: Node)
    requires forall it :: it in Walk(menuBar, [], "", 0) ==> PathHash(it.path) != Int64Min
    ensures Assemblable(Walk(menuBar, [], "", 0))
    ensures forall it :: it in Walk(menuBar, [], "", 0) ==> 1 <= |it.path| <= MaxDepth && ToAlfred(it).arg == ScriptPath(it.path)
  {
    MenuBarItems(menuBar);
  }
}
