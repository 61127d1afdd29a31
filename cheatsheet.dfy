/**
 * cheatsheet.swift: a line-oriented reader of the YAML that lists an
 * application's name, bundle identifier and menu shortcuts, and the Markdown
 * cheat sheet that groups those shortcuts by top-level menu.
 */
module CheatSheet {
  import opened Wrappers
  import opened Strings
  import opened Ordering

  /** One shortcut of the cheat sheet: the menu path and the shortcut glyphs. */
  datatype MenuItem = MenuItem(path: seq<string>, shortcut: string)

  datatype AppInfo = AppInfo(name: string, bundleIdentifier: string)

  // ---------------------------------------------------------------------------
  // generateMarkdown
  // ---------------------------------------------------------------------------

  /** The group of an item whose path is empty. */
  const Other: string := "Other"
  /** U+2192 RIGHTWARDS ARROW. */
  const RightArrow: char := 0x2192 as char
  /** U+2014 EM DASH. */
  const EmDash: char := 0x2014 as char
  /** What joins the labels below the top menu in an entry. */
  const Arrow: string := " " + [RightArrow] + " "

  /** The title block every cheat sheet starts with. */
  function Header(info: AppInfo): string
  {
    "# " + info.name + "\n\n**Bundle ID:** `" + info.bundleIdentifier + "`\n\n---\n"
  }

  /** The heading that opens the section of one top menu. */
  function SectionHeading(name: string): string
  {
    "\n## " + name + "\n"
  }

  /** Only items with a shortcut make it into the cheat sheet. */
  predicate Listed(item: MenuItem)
  {
    item.shortcut != ""
  }

  /** `item.path.first ?? "Other"`. */
  function TopMenu(item: MenuItem): string
  {
    if item.path == [] then Other else item.path[0]
  }

  /** The labels below the top menu, or the last label when those join to nothing. */
  function Display(path: seq<string>): string
  {
    var menuPath := if path == [] then "" else Join(path[1..], Arrow);
    if menuPath == "" then (if path == [] then "" else path[|path| - 1]) else menuPath
  }

  /** One bullet of a section. */
  function EntryLine(item: MenuItem): string
  {
    "- **" + item.shortcut + "** " + [EmDash] + " `" + Display(item.path) + "`\n"
  }

  /** The listed items of top menu `k`, in the order of `items`. */
  function Group(items: seq<MenuItem>, k: string): seq<MenuItem>
  {
    if items == [] then []
    else
      var last := items[|items| - 1];
      Group(items[..|items| - 1], k) + (if Listed(last) && TopMenu(last) == k then [last] else [])
  }

  /** An item is in the group of `k` exactly when it is a listed item of top menu `k`. */
  lemma {:induction false} GroupMembers(items: seq<MenuItem>, k: string)
    ensures forall x :: x in Group(items, k) <==> x in items && Listed(x) && TopMenu(x) == k
  {
    if items != [] {
      var last := items[|items| - 1];
      assert items == items[..|items| - 1] + [last];
      GroupMembers(items[..|items| - 1], k);
    }
  }

  /** The top menus of the listed items. */
  function Keys(items: seq<MenuItem>): set<string>
  {
    set i | 0 <= i < |items| && Listed(items[i]) :: TopMenu(items[i])
  }

  /**
   * `groupedMenus` after the given items: an item with a shortcut is appended
   * to the list of its top menu, which is created empty first if missing.
   */
  function Grouped(items: seq<MenuItem>): map<string, seq<MenuItem>>
  {
    if items == [] then map[]
    else
      var g := Grouped(items[..|items| - 1]);
      var item := items[|items| - 1];
      if !Listed(item) then g
      else
        var top := TopMenu(item);
        var g' := if top in g then g else g[top := []];
        g'[top := g'[top] + [item]]
  }

  /** The bullets of a group, one after another. */
  function Entries(group: seq<MenuItem>): string
  {
    if group == [] then "" else EntryLine(group[0]) + Entries(group[1..])
  }

  /** The bullets of two groups, one after the other. */
  lemma {:induction false} EntriesAppend(a: seq<MenuItem>, b: seq<MenuItem>)
    ensures Entries(a + b) == Entries(a) + Entries(b)
  {
    if a == [] {
      assert a + b == b;
    } else {
      assert (a + b)[0] == a[0];
      assert (a + b)[1..] == a[1..] + b;
      EntriesAppend(a[1..], b);
      var first := EntryLine(a[0]);
      assert Entries(a + b) == first + Entries(a[1..] + b);
      assert Entries(a) == first + Entries(a[1..]);
      AppendAssoc(first, Entries(a[1..]), Entries(b));
    }
  }

  /** One more bullet at the end. */
  lemma EntriesSnoc(group: seq<MenuItem>, x: MenuItem)
    ensures Entries(group + [x]) == Entries(group) + EntryLine(x)
  {
    EntriesAppend(group, [x]);
    assert Entries([x]) == EntryLine(x) + Entries([]);
  }

  /** The section of one top menu; nothing for a missing or empty group. */
  function Section(name: string, grouped: map<string, seq<MenuItem>>): string
  {
    if name in grouped && grouped[name] != [] then SectionHeading(name) + Entries(grouped[name]) else ""
  }

  /** The sections of the given top menus, in that order. */
  function Sections(names: seq<string>, grouped: map<string, seq<MenuItem>>): string
  {
    if names == [] then "" else Section(names[0], grouped) + Sections(names[1..], grouped)
  }

  /** The sections of two lists of top menus, one after the other. */
  lemma {:induction false} SectionsAppend(a: seq<string>, b: seq<string>, grouped: map<string, seq<MenuItem>>)
    ensures Sections(a + b, grouped) == Sections(a, grouped) + Sections(b, grouped)
  {
    if a == [] {
      assert a + b == b;
    } else {
      assert (a + b)[0] == a[0];
      assert (a + b)[1..] == a[1..] + b;
      SectionsAppend(a[1..], b, grouped);
      var first := Section(a[0], grouped);
      assert Sections(a + b, grouped) == first + Sections(a[1..] + b, grouped);
      assert Sections(a, grouped) == first + Sections(a[1..], grouped);
      AppendAssoc(first, Sections(a[1..], grouped), Sections(b, grouped));
    }
  }

  /** One more section at the end. */
  lemma SectionsSnoc(names: seq<string>, name: string, grouped: map<string, seq<MenuItem>>)
    ensures Sections(names + [name], grouped) == Sections(names, grouped) + Section(name, grouped)
  {
    SectionsAppend(names, [name], grouped);
    assert Sections([name], grouped) == Section(name, grouped) + Sections([], grouped);
  }

  /** The cheat sheet: the header, then one section per top menu in ascending order. */
  ghost function Markdown(info: AppInfo, items: seq<MenuItem>): string
  {
    Header(info) + Sections(SortedKeys(Grouped(items).Keys), Grouped(items))
  }

  /** The group of `k` after one more item. */
  lemma GroupSnoc(items: seq<MenuItem>, x: MenuItem, k: string)
    ensures Group(items + [x], k) == Group(items, k) + (if Listed(x) && TopMenu(x) == k then [x] else [])
  {
    assert (items + [x])[..|items|] == items;
  }

  /** The top menus after one more item. */
  lemma KeysSnoc(items: seq<MenuItem>, x: MenuItem)
    ensures Keys(items + [x]) == if Listed(x) then Keys(items) + {TopMenu(x)} else Keys(items)
  {
    var xs := items + [x];
    forall k
      ensures k in Keys(xs) <==> k in Keys(items) || (Listed(x) && k == TopMenu(x))
    {
      if k in Keys(xs) {
        var i :| 0 <= i < |xs| && Listed(xs[i]) && TopMenu(xs[i]) == k;
        if i < |items| {
          assert xs[i] == items[i];
        }
      }
      if k in Keys(items) {
        var i :| 0 <= i < |items| && Listed(items[i]) && TopMenu(items[i]) == k;
        assert xs[i] == items[i];
      }
      if Listed(x) && k == TopMenu(x) {
        assert xs[|items|] == x;
      }
    }
  }

  /** A top menu with a non-empty group is the top menu of a listed item. */
  lemma GroupNonEmptyKey(items: seq<MenuItem>, t: string)
    requires Group(items, t) != []
    ensures t in Keys(items)
  {
    GroupMembers(items, t);
    var y := Group(items, t)[0];
    assert y in Group(items, t);
    var i :| 0 <= i < |items| && items[i] == y;
    assert Listed(items[i]) && TopMenu(items[i]) == t;
  }

  /** A top menu no listed item has has an empty group. */
  lemma GroupOfAbsentKey(items: seq<MenuItem>, t: string)
    requires t !in Keys(items)
    ensures Group(items, t) == []
  {
    if Group(items, t) != [] {
      GroupNonEmptyKey(items, t);
    }
  }

  /**
   * The grouping holds one entry per top menu of a listed item, and that
   * entry is the group of the top menu: its listed items in input order.
   */
  lemma {:induction false} GroupedIsGroup(items: seq<MenuItem>)
    ensures Grouped(items).Keys == Keys(items)
    ensures forall k :: k in Keys(items) ==> Grouped(items)[k] == Group(items, k)
  {
    if items != [] {
      var init := items[..|items| - 1];
      var x := items[|items| - 1];
      assert items == init + [x];
      GroupedIsGroup(init);
      KeysSnoc(init, x);
      forall k | k in Keys(items)
        ensures Grouped(items)[k] == Group(items, k)
      {
        GroupSnoc(init, x, k);
        if k !in Keys(init) {
          GroupOfAbsentKey(init, k);
        }
      }
    }
  }

  /**
   * The body of the loop over the sorted top menus: a heading and one bullet
   * per item, unless the group is missing or empty.
   */
  method AppendSection(markdown: string, menuName: string, groupedMenus: map<string, seq<MenuItem>>)
    returns (result: string)
    ensures result == markdown + Section(menuName, groupedMenus)
  {
    result := markdown;
    if menuName !in groupedMenus || groupedMenus[menuName] == [] {
      return;
    }
    var items := groupedMenus[menuName];
    result := result + SectionHeading(menuName);
    ghost var prefix := result;
    assert items[..0] == [];
    for k := 0 to |items|
      invariant result == prefix + Entries(items[..k])
    {
      var item := items[k];
      var menuPath := if item.path == [] then "" else Join(item.path[1..], Arrow);
      var displayText := if menuPath == "" then (if item.path == [] then "" else item.path[|item.path| - 1]) else menuPath;
      var line := "- **" + item.shortcut + "** " + [EmDash] + " `" + displayText + "`\n";
      assert line == EntryLine(item);
      TakeSnoc(items, k);
      EntriesSnoc(items[..k], item);
      AppendAssoc(prefix, Entries(items[..k]), line);
      result := result + line;
    }
    assert items[..|items|] == items;
    AppendAssoc(markdown, SectionHeading(menuName), Entries(items));
  }

  /** The first loop of `generateMarkdown`: the listed items by top menu, in input order. */
  method GroupByTopMenu(menuItems: seq<MenuItem>) returns (groupedMenus: map<string, seq<MenuItem>>)
    ensures groupedMenus == Grouped(menuItems)
  {
    groupedMenus := map[];
    for i := 0 to |menuItems|
      invariant groupedMenus == Grouped(menuItems[..i])
    {
      var item := menuItems[i];
      assert menuItems[..i + 1][..i] == menuItems[..i];
      if item.shortcut == "" {
        continue;
      }
      var topMenu := if item.path == [] then Other else item.path[0];
      if topMenu !in groupedMenus {
        groupedMenus := groupedMenus[topMenu := []];
      }
      groupedMenus := groupedMenus[topMenu := groupedMenus[topMenu] + [item]];
    }
    assert menuItems[..|menuItems|] == menuItems;
  }

  /** `generateMarkdown(appInfo:menuItems:)`. */
  method GenerateMarkdown(appInfo: AppInfo, menuItems: seq<MenuItem>) returns (markdown: string)
    ensures markdown == Markdown(appInfo, menuItems)
  {
    markdown := Header(appInfo);
    ghost var header := markdown;
    var groupedMenus := GroupByTopMenu(menuItems);
    var sortedMenus := Sorted(groupedMenus.Keys);
    for j := 0 to |sortedMenus|
      invariant markdown == header + Sections(sortedMenus[..j], groupedMenus)
    {
      TakeSnoc(sortedMenus, j);
      SectionsSnoc(sortedMenus[..j], sortedMenus[j], groupedMenus);
      AppendAssoc(header, Sections(sortedMenus[..j], groupedMenus), Section(sortedMenus[j], groupedMenus));
      markdown := AppendSection(markdown, sortedMenus[j], groupedMenus);
    }
    assert sortedMenus[..|sortedMenus|] == sortedMenus;
  }

  // ---------------------------------------------------------------------------
  // processYAMLData
  // ---------------------------------------------------------------------------

  const NameKey: string := "name: "
  const BundleKey: string := "bundleIdentifier: "
  const MenusLine: string := "menus:"
  const PathKey: string := "- path: ["
  const ShortcutKey: string := "shortcut: "
  const PathSeparator: string := ", "
  const Quotes: set<char> := {'"'}

  /** Strips the double quotes at both ends. */
  function Unquote(s: string): (r: string)
  {
    Trim(s, Quotes)
  }

  /** The value of a `key value` line: every occurrence of the key removed, then the quotes. */
  function Value(trimmed: string, key: string): string
    requires |key| > 0
  {
    Unquote(RemoveAll(trimmed, key))
  }

  /** The labels of a `- path: [...]` line: the key and every `]` removed, split on ", ", each unquoted. */
  function PathValue(trimmed: string): seq<string>
  {
    var pieces := Split(RemoveAll(RemoveAll(trimmed, PathKey), "]"), PathSeparator);
    UnquoteAll(pieces)
  }

  /** `pieces.map { $0.trimmingCharacters(in: quotes) }`. */
  function UnquoteAll(pieces: seq<string>): seq<string>
  {
    if pieces == [] then [] else [Unquote(pieces[0])] + UnquoteAll(pieces[1..])
  }

  /** Each label is its piece unquoted. */
  lemma {:induction false} UnquoteAllPointwise(pieces: seq<string>)
    ensures |UnquoteAll(pieces)| == |pieces|
    ensures forall j :: 0 <= j < |pieces| ==> UnquoteAll(pieces)[j] == Unquote(pieces[j])
  {
    if pieces != [] {
      UnquoteAllPointwise(pieces[1..]);
    }
  }

  /** The variables of the line loop (`currentShortcut` is always empty between lines). */
  datatype Reader = Reader(
    appName: string,
    bundleIdentifier: string,
    inMenus: bool,
    currentPath: seq<string>,
    menuItems: seq<MenuItem>)

  const Start: Reader := Reader("", "", false, [], [])

  /** One pass of the line loop: the line is trimmed, then read. */
  function ReadLine(r: Reader, line: string): Reader
  {
    ReadTrimmed(r, Trim(line, Whitespaces))
  }

  /** The body of the line loop on a trimmed line. */
  function ReadTrimmed(r: Reader, trimmed: string): Reader
  {
    if StartsWith(trimmed, NameKey) then r.(appName := Value(trimmed, NameKey))
    else if StartsWith(trimmed, BundleKey) then r.(bundleIdentifier := Value(trimmed, BundleKey))
    else if trimmed == MenusLine then r.(inMenus := true)
    else if !r.inMenus then r
    else if StartsWith(trimmed, PathKey) then r.(currentPath := PathValue(trimmed))
    else if StartsWith(trimmed, ShortcutKey) then
      var shortcut := Value(trimmed, ShortcutKey);
      r.(menuItems := if shortcut != "" then r.menuItems + [MenuItem(r.currentPath, shortcut)] else r.menuItems,
         currentPath := [])
    else r
  }

  /** The loop variables after the given lines. */
  function ReadLines(lines: seq<string>): Reader
  {
    if lines == [] then Start else ReadLine(ReadLines(lines[..|lines| - 1]), lines[|lines| - 1])
  }

  /** `yamlString.components(separatedBy: .newlines)`. */
  function Lines(yamlString: string): seq<string>
  {
    SplitAny(yamlString, Newlines)
  }

  /** The reader after one more line. */
  lemma ReadLinesSnoc(lines: seq<string>, i: nat)
    requires i < |lines|
    ensures ReadLines(lines[..i + 1]) == ReadLine(ReadLines(lines[..i]), lines[i])
  {
    assert lines[..i + 1][..i] == lines[..i];
  }

  /**
   * `processYAMLData`: the application information is always present, with the
   * values the line loop ends with, and so are the collected items.
   */
  method ProcessYAMLData(yamlString: string) returns (appInfo: Option<AppInfo>, menuItems: seq<MenuItem>)
    ensures appInfo == Some(AppInfo(ReadLines(Lines(yamlString)).appName, ReadLines(Lines(yamlString)).bundleIdentifier))
    ensures menuItems == ReadLines(Lines(yamlString)).menuItems
  {
    var lines := SplitAny(yamlString, Newlines);
    var appName := "";
    var bundleIdentifier := "";
    menuItems := [];
    var inMenus := false;
    var currentPath: seq<string> := [];
    var currentShortcut := "";
    for i := 0 to |lines|
      invariant Reader(appName, bundleIdentifier, inMenus, currentPath, menuItems) == ReadLines(lines[..i])
    {
      ReadLinesSnoc(lines, i);
      var trimmed := Trim(lines[i], Whitespaces);
      if StartsWith(trimmed, NameKey) {
        appName := Unquote(RemoveAll(trimmed, NameKey));
      } else if StartsWith(trimmed, BundleKey) {
        bundleIdentifier := Unquote(RemoveAll(trimmed, BundleKey));
      } else if trimmed == MenusLine {
        inMenus := true;
      } else if inMenus {
        if StartsWith(trimmed, PathKey) {
          var pathString := RemoveAll(RemoveAll(trimmed, PathKey), "]");
          var pieces := Split(pathString, PathSeparator);
          currentPath := UnquoteAll(pieces);
        } else if StartsWith(trimmed, ShortcutKey) {
          currentShortcut := Unquote(RemoveAll(trimmed, ShortcutKey));
          if currentShortcut != "" {
            menuItems := menuItems + [MenuItem(currentPath, currentShortcut)];
          }
          currentPath := [];
          currentShortcut := "";
        }
      }
    }
    assert lines[..|lines|] == lines;
    appInfo := Some(AppInfo(appName, bundleIdentifier));
  }

  // ---------------------------------------------------------------------------
  // Properties of the cheat sheet
  // ---------------------------------------------------------------------------

  /**
   * The entry text: nothing for an empty path, the only label for a
   * one-label path, and otherwise the labels below the top menu joined by
   * arrows (the fallback to the last label never matters there).
   */
  lemma DisplayCases(path: seq<string>)
    ensures path == [] ==> Display(path) == ""
    ensures |path| == 1 ==> Display(path) == path[0]
    ensures |path| >= 2 ==> Display(path) == Join(path[1..], Arrow)
  {
    if |path| >= 3 {
      var rest := path[1..];
      assert Join(rest, Arrow) == rest[0] + Arrow + Join(rest[1..], Arrow);
      assert |Join(rest, Arrow)| >= |Arrow| > 0;
    } else if |path| == 2 {
      assert Join(path[1..], Arrow) == path[1];
    }
  }

  /** Every top menu of a listed item has a non-empty group. */
  lemma KeyHasItems(items: seq<MenuItem>, k: string)
    requires k in Keys(items)
    ensures Group(items, k) != []
  {
    var i :| 0 <= i < |items| && Listed(items[i]) && TopMenu(items[i]) == k;
    GroupMembers(items, k);
    assert items[i] in Group(items, k);
  }

  /** The sections written without the guard: one heading and its bullets per top menu. */
  function Layout(names: seq<string>, items: seq<MenuItem>): string
  {
    if names == [] then ""
    else SectionHeading(names[0]) + Entries(Group(items, names[0])) + Layout(names[1..], items)
  }

  /** For top menus that have listed items, the guard never skips a section. */
  lemma {:induction false} SectionsAreLayout(names: seq<string>, items: seq<MenuItem>)
    requires forall k :: k in names ==> k in Keys(items)
    ensures Sections(names, Grouped(items)) == Layout(names, items)
  {
    if names != [] {
      GroupedIsGroup(items);
      KeyHasItems(items, names[0]);
      assert Section(names[0], Grouped(items)) == SectionHeading(names[0]) + Entries(Group(items, names[0]));
      SectionsAreLayout(names[1..], items);
    }
  }

  /**
   * The shape of the cheat sheet: the header, then for each top menu of a
   * listed item, in strictly ascending order and so exactly once, its heading
   * and its non-empty group of bullets.
   */
  lemma MarkdownLayout(info: AppInfo, items: seq<MenuItem>)
    ensures StrictlySorted(SortedKeys(Keys(items)))
    ensures forall k :: k in SortedKeys(Keys(items)) <==> k in Keys(items)
    ensures forall k :: k in SortedKeys(Keys(items)) ==> Group(items, k) != []
    ensures Markdown(info, items) == Header(info) + Layout(SortedKeys(Keys(items)), items)
  {
    var ks := SortedKeys(Keys(items));
    GroupedIsGroup(items);
    SortedKeysSorted(Keys(items));
    SortedKeysMembers(Keys(items));
    forall k | k in ks
      ensures Group(items, k) != []
    {
      KeyHasItems(items, k);
    }
    SectionsAreLayout(ks, items);
  }

  /** A listed item shows up in the section of its top menu. */
  lemma ListedItemShown(items: seq<MenuItem>, x: MenuItem)
    requires x in items && Listed(x)
    ensures TopMenu(x) in SortedKeys(Keys(items))
    ensures x in Group(items, TopMenu(x))
  {
    var i :| 0 <= i < |items| && items[i] == x;
    assert TopMenu(x) in Keys(items);
    SortedKeysMembers(Keys(items));
    GroupMembers(items, TopMenu(x));
  }

  /** The cheat sheet is the bare header exactly when no item has a shortcut. */
  lemma HeaderOnly(info: AppInfo, items: seq<MenuItem>)
    ensures Markdown(info, items) == Header(info) <==> forall i :: 0 <= i < |items| ==> !Listed(items[i])
  {
    MarkdownLayout(info, items);
    var ks := SortedKeys(Keys(items));
    if forall i :: 0 <= i < |items| ==> !Listed(items[i]) {
      assert Keys(items) == {};
      SortedKeysMembers(Keys(items));
      assert ks == [];
    } else {
      var i :| 0 <= i < |items| && Listed(items[i]);
      assert TopMenu(items[i]) in Keys(items);
      SortedKeysMembers(Keys(items));
      assert ks != [];
      assert |Layout(ks, items)| >= |SectionHeading(ks[0])| > 0;
    }
  }

  /** The positions of the items that make up the group of `k`. */
  function GroupIndices(items: seq<MenuItem>, k: string): seq<nat>
  {
    if items == [] then []
    else
      var n := |items| - 1;
      GroupIndices(items[..n], k) + (if Listed(items[n]) && TopMenu(items[n]) == k then [n] else [])
  }

  /**
   * A group is the subsequence of the items at the positions of listed items
   * of that top menu, taken in increasing position order (see
   * `GroupIndicesExact`): items keep their input order.
   */
  lemma {:induction false} GroupInInputOrder(items: seq<MenuItem>, k: string)
    ensures |GroupIndices(items, k)| == |Group(items, k)|
    ensures forall m :: 0 <= m < |GroupIndices(items, k)| ==>
      GroupIndices(items, k)[m] < |items| && Group(items, k)[m] == items[GroupIndices(items, k)[m]]
  {
    if items != [] {
      var n := |items| - 1;
      GroupInInputOrder(items[..n], k);
      assert forall i :: 0 <= i < n ==> items[..n][i] == items[i];
    }
  }

  /** The positions of a group increase, and they are exactly those of the listed items of that top menu. */
  lemma {:induction false} GroupIndicesExact(items: seq<MenuItem>, k: string)
    ensures forall m, m' :: 0 <= m < m' < |GroupIndices(items, k)| ==> GroupIndices(items, k)[m] < GroupIndices(items, k)[m']
    ensures forall i :: i in GroupIndices(items, k) <==> 0 <= i < |items| && Listed(items[i]) && TopMenu(items[i]) == k
  {
    if items != [] {
      var n := |items| - 1;
      GroupIndicesExact(items[..n], k);
      GroupIndicesBound(items[..n], k);
      assert forall i :: 0 <= i < n ==> items[..n][i] == items[i];
    }
  }

  /** Every position of a group is a position of the items. */
  lemma {:induction false} GroupIndicesBound(items: seq<MenuItem>, k: string)
    ensures forall m :: 0 <= m < |GroupIndices(items, k)| ==> GroupIndices(items, k)[m] < |items|
  {
    if items != [] {
      GroupIndicesBound(items[..|items| - 1], k);
    }
  }

  // ---------------------------------------------------------------------------
  // Properties of the YAML reader
  // ---------------------------------------------------------------------------

  /** The value of the last line that starts with `key` once trimmed, or "" when there is none. */
  function LastValue(lines: seq<string>, key: string): string
    requires |key| > 0
  {
    if lines == [] then ""
    else
      var trimmed := Trim(lines[|lines| - 1], Whitespaces);
      if StartsWith(trimmed, key) then Value(trimmed, key) else LastValue(lines[..|lines| - 1], key)
  }

  /** A line that starts with one key does not start with another. */
  lemma KeysExclusive(trimmed: string)
    ensures StartsWith(trimmed, NameKey) ==> !StartsWith(trimmed, BundleKey) && trimmed != MenusLine
    ensures StartsWith(trimmed, BundleKey) ==> trimmed != MenusLine
  {
    if StartsWith(trimmed, NameKey) {
      assert trimmed[0] == NameKey[0] == 'n';
    }
    if StartsWith(trimmed, BundleKey) {
      assert trimmed[0] == BundleKey[0] == 'b';
    }
  }

  /** A trimmed line changes the name and the bundle identifier only when it carries them. */
  lemma TrimmedKeys(r: Reader, trimmed: string)
    ensures ReadTrimmed(r, trimmed).appName ==
      (if StartsWith(trimmed, NameKey) then Value(trimmed, NameKey) else r.appName)
    ensures ReadTrimmed(r, trimmed).bundleIdentifier ==
      (if StartsWith(trimmed, BundleKey) then Value(trimmed, BundleKey) else r.bundleIdentifier)
  {
    KeysExclusive(trimmed);
  }

  /** One line changes the name and the bundle identifier only when it carries them. */
  lemma ReadLineKeys(r: Reader, line: string)
    ensures var trimmed := Trim(line, Whitespaces);
      ReadLine(r, line).appName == (if StartsWith(trimmed, NameKey) then Value(trimmed, NameKey) else r.appName)
    ensures var trimmed := Trim(line, Whitespaces);
      ReadLine(r, line).bundleIdentifier == (if StartsWith(trimmed, BundleKey) then Value(trimmed, BundleKey) else r.bundleIdentifier)
  {
    TrimmedKeys(r, Trim(line, Whitespaces));
  }

  /** `ReadLines` of a non-empty input is its prefix followed by the last line. */
  lemma ReadLinesLast(lines: seq<string>)
    requires lines != []
    ensures ReadLines(lines) == ReadLine(ReadLines(lines[..|lines| - 1]), lines[|lines| - 1])
  {
  }

  /**
   * `name: ` and `bundleIdentifier: ` lines are recognised wherever they are,
   * inside the menus too, and the last one of each kind decides the value.
   */
  lemma {:induction false} LastOccurrenceWins(lines: seq<string>)
    ensures ReadLines(lines).appName == LastValue(lines, NameKey)
    ensures ReadLines(lines).bundleIdentifier == LastValue(lines, BundleKey)
  {
    if lines != [] {
      var n := |lines| - 1;
      LastOccurrenceWins(lines[..n]);
      ReadLinesLast(lines);
      ReadLineKeys(ReadLines(lines[..n]), lines[n]);
    }
  }

  /** The line is `menus:` once trimmed. */
  predicate IsMenusLine(line: string)
  {
    Trim(line, Whitespaces) == MenusLine
  }

  /** Some line of the input is `menus:` once trimmed. */
  predicate HasMenusLine(lines: seq<string>)
  {
    lines != [] && (HasMenusLine(lines[..|lines| - 1]) || IsMenusLine(lines[|lines| - 1]))
  }

  /** A trimmed line enters the menus exactly when it is `menus:`; outside the menus it changes no path and no item. */
  lemma TrimmedMenus(r: Reader, trimmed: string)
    ensures ReadTrimmed(r, trimmed).inMenus <==> r.inMenus || trimmed == MenusLine
    ensures !ReadTrimmed(r, trimmed).inMenus ==>
      ReadTrimmed(r, trimmed).menuItems == r.menuItems && ReadTrimmed(r, trimmed).currentPath == r.currentPath
  {
    KeysExclusive(trimmed);
  }

  /** One line enters the menus exactly when it is `menus:`; outside the menus it keeps no path and no item. */
  lemma ReadLineMenus(r: Reader, line: string)
    ensures ReadLine(r, line).inMenus <==> r.inMenus || IsMenusLine(line)
    ensures !ReadLine(r, line).inMenus ==>
      ReadLine(r, line).menuItems == r.menuItems && ReadLine(r, line).currentPath == r.currentPath
  {
    TrimmedMenus(r, Trim(line, Whitespaces));
  }

  /**
   * The reader is inside the menus exactly when a `menus:` line has been
   * seen; before that no path is kept and no item is collected.
   */
  lemma {:induction false} ItemsFollowMenusLine(lines: seq<string>)
    ensures ReadLines(lines).inMenus <==> HasMenusLine(lines)
    ensures !ReadLines(lines).inMenus ==> ReadLines(lines).menuItems == [] && ReadLines(lines).currentPath == []
  {
    if lines != [] {
      var n := |lines| - 1;
      ItemsFollowMenusLine(lines[..n]);
      ReadLinesLast(lines);
      ReadLineMenus(ReadLines(lines[..n]), lines[n]);
    }
  }

  /** No double quote at either end. */
  predicate Unquoted(s: string)
  {
    s == [] || (s[0] != '"' && s[|s| - 1] != '"')
  }

  /** A label as a path line yields it: no `]` and no quote at either end. */
  predicate CleanLabel(part: string)
  {
    ']' !in part && Unquoted(part)
  }

  /** Every label read from a `- path: [` line is clean. */
  lemma PathValueClean(trimmed: string)
    ensures CleanPath(PathValue(trimmed))
  {
    var pieces := PathPieces(trimmed);
    UnquoteAllPointwise(pieces);
    forall j | 0 <= j < |pieces|
      ensures CleanLabel(UnquoteAll(pieces)[j])
    {
      UnquoteClean(pieces[j]);
    }
  }

  /** The pieces of a path line, before unquoting, hold no `]`. */
  lemma PathPieces(trimmed: string) returns (pieces: seq<string>)
    ensures pieces == Split(RemoveAll(RemoveAll(trimmed, PathKey), "]"), PathSeparator)
    ensures forall j :: 0 <= j < |pieces| ==> ']' !in pieces[j]
  {
    var stripped := RemoveAll(trimmed, PathKey);
    RemoveAllChar(stripped, ']');
    assert "]" == [']'];
    var pathString := RemoveAll(stripped, "]");
    pieces := Split(pathString, PathSeparator);
    SplitWithin(pathString, PathSeparator);
  }

  /** Unquoting a piece without `]` gives a clean label. */
  lemma UnquoteClean(piece: string)
    requires ']' !in piece
    ensures CleanLabel(Unquote(piece))
  {
    TrimWithin(piece, Quotes);
  }

  /** Every label of the path is clean. */
  predicate CleanPath(path: seq<string>)
  {
    forall part :: part in path ==> CleanLabel(part)
  }

  // ---------------------------------------------------------------------------
  // Values written in quotes read back
  // ---------------------------------------------------------------------------

  /** A value in double quotes, as the YAML gives it. */
  function Quote(s: string): string
  {
    "\"" + s + "\""
  }

  /** Every label in double quotes. */
  function QuoteAll(labels: seq<string>): seq<string>
  {
    if labels == [] then [] else [Quote(labels[0])] + QuoteAll(labels[1..])
  }

  /** Each quoted label is its label in quotes. */
  lemma {:induction false} QuoteAllPointwise(labels: seq<string>)
    ensures |QuoteAll(labels)| == |labels|
    ensures forall j :: 0 <= j < |labels| ==> QuoteAll(labels)[j] == Quote(labels[j])
  {
    if labels != [] {
      QuoteAllPointwise(labels[1..]);
    }
  }

  /** Unquoting undoes quoting, for a value without a quote at either end. */
  lemma UnquoteQuote(s: string)
    requires Unquoted(s)
    ensures Unquote(Quote(s)) == s
  {
    var r := OpeningQuoteDropped(s);
    assert Unquote(Quote(s)) == TrimRight(TrimLeft(r, Quotes), Quotes);
    if s == [] {
      assert r == ['"'] && r[1..] == [];
      assert TrimLeft(r, Quotes) == [];
    } else {
      assert r[0] == s[0] && r[0] !in Quotes;
      assert TrimLeft(r, Quotes) == r;
      ClosingQuoteDropped(s);
    }
  }

  /** Trimming the front of a quoted value drops the opening quote and goes on with the rest. */
  lemma OpeningQuoteDropped(s: string) returns (r: string)
    ensures r == s + "\"" && TrimLeft(Quote(s), Quotes) == TrimLeft(r, Quotes)
  {
    var q := Quote(s);
    r := s + "\"";
    assert q[0] == '"' && q[0] in Quotes;
    assert q[1..] == r;
  }

  /** Trimming the back of a value followed by a quote drops that quote and stops. */
  lemma ClosingQuoteDropped(s: string)
    requires s != [] && s[|s| - 1] != '"'
    ensures TrimRight(s + "\"", Quotes) == s
  {
    var r := s + "\"";
    assert r[|r| - 1] in Quotes;
    assert r[..|r| - 1] == s;
  }

  /** An occurrence strictly inside the quotes is an occurrence in the value. */
  lemma OccursInQuotes(s: string, pat: string, k: nat)
    requires 1 <= k && k + |pat| <= |s| + 1
    ensures OccursAt(Quote(s) + pat, pat, k) ==> OccursAt(s, pat, k - 1)
  {
    var t := Quote(s) + pat;
    if OccursAt(t, pat, k) {
      forall j | 0 <= j < |pat| ensures s[k - 1 + j] == pat[j] {
        assert t[k + j] == s[k - 1 + j];
      }
    }
  }

  /**
   * A pattern without a quote character that does not occur in a value does
   * not occur in the quoted value either, nor anywhere before the end of it
   * when the pattern follows it.
   */
  lemma QuoteSealed(s: string, pat: string)
    requires |pat| > 0 && '"' !in pat && Free(s, pat)
    ensures Sealed(Quote(s), pat) && Free(Quote(s), pat)
  {
    var q := Quote(s);
    var t := q + pat;
    forall k | 0 <= k < |q| ensures !OccursAt(t, pat, k) {
      if k + |pat| > |q| - 1 {
        assert t[|q| - 1] == '"';
        assert pat[|q| - 1 - k] in pat;
      } else if k == 0 {
        assert pat[0] in pat;
      } else {
        OccursInQuotes(s, pat, k);
      }
    }
    forall i ensures !OccursAt(q, pat, i) {
      if 0 <= i && i + |pat| <= |q| {
        assert OccursAt(q, pat, i) ==> OccursAt(t, pat, i);
      }
    }
  }

  /**
   * A `key "value"` line reads back as the value when the key has no quote,
   * does not occur in the value, and the value has no quote at either end.
   */
  lemma ValueRoundTrip(key: string, v: string)
    requires |key| > 0 && '"' !in key && Free(v, key) && Unquoted(v)
    ensures Value(key + Quote(v), key) == v
  {
    QuoteSealed(v, key);
    RemoveAllPrefix(key, Quote(v));
    RemoveAllAbsent(Quote(v), key);
    UnquoteQuote(v);
  }

  /** The path line for the given labels: each quoted, joined by ", ", in brackets. */
  function PathLine(labels: seq<string>): string
  {
    PathKey + Join(QuoteAll(labels), PathSeparator) + "]"
  }

  /** A character that is not a quote, a comma or a space is in the joined quoted labels only if it is in a label. */
  lemma QuotedLabelsLack(labels: seq<string>, c: char)
    requires c != '"' && c !in PathSeparator
    requires forall j :: 0 <= j < |labels| ==> c !in labels[j]
    ensures c !in Join(QuoteAll(labels), PathSeparator)
  {
    var parts := QuoteAll(labels);
    QuoteAllPointwise(labels);
    InJoin(parts, PathSeparator, c);
    forall i | 0 <= i < |parts| ensures c !in parts[i] {
      assert parts[i] == ['"'] + labels[i] + ['"'];
    }
  }

  /** Removing the key and the brackets from a path line leaves the joined quoted labels. */
  lemma PathLineStripped(labels: seq<string>)
    requires forall j :: 0 <= j < |labels| ==> '[' !in labels[j] && ']' !in labels[j]
    ensures RemoveAll(RemoveAll(PathLine(labels), PathKey), "]") == Join(QuoteAll(labels), PathSeparator)
  {
    QuotedLabelsLack(labels, '[');
    QuotedLabelsLack(labels, ']');
    BracketsStripped(Join(QuoteAll(labels), PathSeparator));
  }

  /** Between the key and the closing bracket, a text without brackets is what is left. */
  lemma BracketsStripped(inner: string)
    requires '[' !in inner && ']' !in inner
    ensures RemoveAll(RemoveAll(PathKey + inner + "]", PathKey), "]") == inner
  {
    var closed := inner + "]";
    assert '[' !in closed;
    CharFree(closed, PathKey, '[');
    assert PathKey + inner + "]" == PathKey + closed;
    RemoveAllPrefix(PathKey, closed);
    RemoveAllAbsent(closed, PathKey);
    RemoveAllChar(closed, ']');
    assert "]" == [']'];
    WithoutAppend(inner, "]", ']');
    WithoutAbsent(inner, ']');
  }

  /** Quoted labels without ", " split apart again at ", ". */
  lemma SplitQuoted(labels: seq<string>)
    requires labels != []
    requires forall j :: 0 <= j < |labels| ==> Free(labels[j], PathSeparator)
    ensures Split(Join(QuoteAll(labels), PathSeparator), PathSeparator) == QuoteAll(labels)
  {
    var parts := QuoteAll(labels);
    QuoteAllPointwise(labels);
    forall j | 0 <= j < |parts| ensures Sealed(parts[j], PathSeparator) && Free(parts[j], PathSeparator) {
      QuoteSealed(labels[j], PathSeparator);
    }
    SplitParts(parts);
  }

  /** Parts that are all sealed and free of ", " split apart again at ", ". */
  lemma SplitParts(parts: seq<string>)
    requires parts != []
    requires forall j :: 0 <= j < |parts| ==> Sealed(parts[j], PathSeparator) && Free(parts[j], PathSeparator)
    ensures Split(Join(parts, PathSeparator), PathSeparator) == parts
  {
    SplitJoinSealed(parts, PathSeparator);
  }

  /** Unquoting every quoted label gives the labels back. */
  lemma UnquoteQuoteAll(labels: seq<string>)
    requires forall j :: 0 <= j < |labels| ==> Unquoted(labels[j])
    ensures UnquoteAll(QuoteAll(labels)) == labels
  {
    var parts := QuoteAll(labels);
    QuoteAllPointwise(labels);
    UnquoteAllPointwise(parts);
    forall j | 0 <= j < |labels| ensures UnquoteAll(parts)[j] == labels[j] {
      UnquoteQuote(labels[j]);
    }
  }

  /**
   * A path line reads back as its labels, when there is at least one and no
   * label holds ", ", a bracket, or a quote at either end.
   */
  lemma PathValueRoundTrip(labels: seq<string>)
    requires labels != []
    requires forall j :: 0 <= j < |labels| ==>
      Free(labels[j], PathSeparator) && '[' !in labels[j] && ']' !in labels[j] && Unquoted(labels[j])
    ensures PathValue(PathLine(labels)) == labels
  {
    PathLineStripped(labels);
    SplitQuoted(labels);
    UnquoteQuoteAll(labels);
  }


  /** A collected item: a clean path and a non-empty shortcut without surrounding quotes. */
  predicate CleanItem(item: MenuItem)
  {
    item.shortcut != "" && Unquoted(item.shortcut) && CleanPath(item.path)
  }

  /** What the reader has collected is well formed. */
  predicate WellRead(r: Reader)
  {
    CleanPath(r.currentPath) && forall item :: item in r.menuItems ==> CleanItem(item)
  }

  /** A `- path: [` line is none of the kinds of line checked before it. */
  lemma PathKeyExclusive(trimmed: string)
    requires StartsWith(trimmed, PathKey)
    ensures !StartsWith(trimmed, NameKey) && !StartsWith(trimmed, BundleKey) && trimmed != MenusLine
  {
    assert trimmed[0] == PathKey[0] == '-';
  }

  /** The line is a `- path: [` line once trimmed. */
  predicate IsPathLine(line: string)
  {
    StartsWith(Trim(line, Whitespaces), PathKey)
  }

  /**
   * Inside the menus a `- path: [` line sets the path and a `shortcut: ` line
   * clears it; every other line leaves it alone.
   */
  lemma TrimmedPath(r: Reader, trimmed: string)
    ensures ReadTrimmed(r, trimmed).currentPath ==
      if r.inMenus && StartsWith(trimmed, PathKey) then PathValue(trimmed)
      else if r.inMenus && StartsWith(trimmed, ShortcutKey) then []
      else r.currentPath
  {
    if StartsWith(trimmed, PathKey) {
      PathKeyExclusive(trimmed);
    } else if StartsWith(trimmed, ShortcutKey) {
      ShortcutKeyExclusive(trimmed);
    }
  }

  /** The same for an untrimmed line. */
  lemma ReadLinePath(r: Reader, line: string)
    ensures ReadLine(r, line).currentPath ==
      if r.inMenus && IsPathLine(line) then PathValue(Trim(line, Whitespaces))
      else if r.inMenus && IsShortcutLine(line) then []
      else r.currentPath
  {
    TrimmedPath(r, Trim(line, Whitespaces));
  }

  /** One trimmed line keeps what has been read well formed. */
  lemma TrimmedWellRead(r: Reader, trimmed: string)
    requires WellRead(r)
    ensures WellRead(ReadTrimmed(r, trimmed))
  {
    TrimmedItems(r, trimmed);
    TrimmedPath(r, trimmed);
    PathValueClean(trimmed);
    var shortcut := Value(trimmed, ShortcutKey);
    if r.inMenus && StartsWith(trimmed, ShortcutKey) && shortcut != "" {
      assert CleanItem(MenuItem(r.currentPath, shortcut));
    }
  }

  /** One line keeps what has been read well formed. */
  lemma ReadLineWellRead(r: Reader, line: string)
    requires WellRead(r)
    ensures WellRead(ReadLine(r, line))
  {
    TrimmedWellRead(r, Trim(line, Whitespaces));
  }

  /**
   * Every collected item has a non-empty shortcut without surrounding quotes,
   * and a path of labels with neither `]` nor surrounding quotes.
   */
  lemma {:induction false} ItemsWellFormed(lines: seq<string>)
    ensures WellRead(ReadLines(lines))
  {
    if lines != [] {
      var n := |lines| - 1;
      ItemsWellFormed(lines[..n]);
      ReadLinesLast(lines);
      ReadLineWellRead(ReadLines(lines[..n]), lines[n]);
    }
  }

  /** A `shortcut: ` line is none of the other kinds of line. */
  lemma ShortcutKeyExclusive(trimmed: string)
    requires StartsWith(trimmed, ShortcutKey)
    ensures !StartsWith(trimmed, NameKey) && !StartsWith(trimmed, BundleKey)
    ensures trimmed != MenusLine && !StartsWith(trimmed, PathKey)
  {
    assert trimmed[0] == ShortcutKey[0] == 's';
  }

  /** The line is a `shortcut: ` line once trimmed. */
  predicate IsShortcutLine(line: string)
  {
    StartsWith(Trim(line, Whitespaces), ShortcutKey)
  }

  /** The shortcut a `shortcut: ` line carries, its quotes stripped. */
  function ShortcutValue(line: string): string
  {
    Value(Trim(line, Whitespaces), ShortcutKey)
  }

  /**
   * A trimmed line adds an item only when the reader is inside the menus, the
   * line is a `shortcut: ` line and its value is not empty; the item carries
   * the path read so far, and every `shortcut: ` line inside the menus clears the path.
   */
  lemma TrimmedItems(r: Reader, trimmed: string)
    ensures ReadTrimmed(r, trimmed).menuItems ==
      r.menuItems + (if r.inMenus && StartsWith(trimmed, ShortcutKey) && Value(trimmed, ShortcutKey) != ""
                     then [MenuItem(r.currentPath, Value(trimmed, ShortcutKey))] else [])
    ensures r.inMenus && StartsWith(trimmed, ShortcutKey) ==> ReadTrimmed(r, trimmed).currentPath == []
  {
    if StartsWith(trimmed, ShortcutKey) {
      ShortcutKeyExclusive(trimmed);
    }
  }

  /** The same for an untrimmed line. */
  lemma ReadLineItems(r: Reader, line: string)
    ensures ReadLine(r, line).menuItems ==
      r.menuItems + (if r.inMenus && IsShortcutLine(line) && ShortcutValue(line) != ""
                     then [MenuItem(r.currentPath, ShortcutValue(line))] else [])
    ensures r.inMenus && IsShortcutLine(line) ==> ReadLine(r, line).currentPath == []
  {
    TrimmedItems(r, Trim(line, Whitespaces));
  }

  /** Line `i` adds an item: a `shortcut: ` line with a value, after a `menus:` line. */
  predicate Emits(lines: seq<string>, i: nat)
    requires i < |lines|
  {
    IsShortcutLine(lines[i]) && HasMenusLine(lines[..i]) && ShortcutValue(lines[i]) != ""
  }

  /** For each line, whether it adds an item. */
  function EmitFlags(lines: seq<string>): (flags: seq<bool>)
    ensures |flags| == |lines|
  {
    seq(|lines|, i requires 0 <= i < |lines| => Emits(lines, i))
  }

  /** The positions of the lines that add an item, in input order. */
  function ItemLines(lines: seq<string>): seq<nat>
  {
    Positions(EmitFlags(lines))
  }

  /** Whether line `i` adds an item depends only on the lines up to it. */
  lemma EmitsPrefix(lines: seq<string>, m: nat, i: nat)
    requires i < m <= |lines|
    ensures Emits(lines[..m], i) <==> Emits(lines, i)
  {
    assert lines[..m][i] == lines[i];
    assert lines[..m][..i] == lines[..i];
  }

  /** One more line adds its own position when it adds an item. */
  lemma ItemLinesLast(lines: seq<string>)
    requires lines != []
    ensures var n := |lines| - 1;
      ItemLines(lines) == ItemLines(lines[..n]) + (if Emits(lines, n) then [n] else [])
  {
    var n := |lines| - 1;
    var flags := EmitFlags(lines);
    forall i | 0 <= i < n
      ensures flags[..n][i] == EmitFlags(lines[..n])[i]
    {
      EmitsPrefix(lines, n, i);
    }
    assert flags[..n] == EmitFlags(lines[..n]);
  }

  /**
   * The positions of the lines that add an item increase, and they are
   * exactly the positions of `shortcut: ` lines with a value after a `menus:` line.
   */
  lemma ItemLinesExact(lines: seq<string>)
    ensures forall k, l :: 0 <= k < l < |ItemLines(lines)| ==> ItemLines(lines)[k] < ItemLines(lines)[l]
    ensures forall k :: 0 <= k < |ItemLines(lines)| ==> ItemLines(lines)[k] < |lines| && Emits(lines, ItemLines(lines)[k])
    ensures forall i :: 0 <= i < |lines| && Emits(lines, i) ==> i in ItemLines(lines)
  {
    PositionsExact(EmitFlags(lines));
  }

  /** One more line adds an item exactly when it is a line that adds one. */
  lemma ItemsLast(lines: seq<string>)
    requires lines != []
    ensures var n := |lines| - 1; var r := ReadLines(lines[..n]);
      ReadLines(lines).menuItems ==
        r.menuItems + (if Emits(lines, n) then [MenuItem(r.currentPath, ShortcutValue(lines[n]))] else [])
  {
    var n := |lines| - 1;
    ItemsFollowMenusLine(lines[..n]);
    ReadLinesLast(lines);
    ReadLineItems(ReadLines(lines[..n]), lines[n]);
  }

  /**
   * The path in force after the given lines: the labels of the last
   * `- path: [` line after the `menus:` line, unless a `shortcut: ` line came
   * after it; nothing before the `menus:` line.
   */
  function PathSince(lines: seq<string>): seq<string>
  {
    if lines == [] then []
    else
      var n := |lines| - 1;
      if !HasMenusLine(lines[..n]) then []
      else if IsPathLine(lines[n]) then PathValue(Trim(lines[n], Whitespaces))
      else if IsShortcutLine(lines[n]) then []
      else PathSince(lines[..n])
  }

  /** The reader's current path is the path in force. */
  lemma {:induction false} CurrentPathSince(lines: seq<string>)
    ensures ReadLines(lines).currentPath == PathSince(lines)
  {
    if lines != [] {
      var n := |lines| - 1;
      CurrentPathSince(lines[..n]);
      ItemsFollowMenusLine(lines[..n]);
      ReadLinesLast(lines);
      ReadLinePath(ReadLines(lines[..n]), lines[n]);
    }
  }

  /** `item` is what line `i` adds: that line's shortcut under the path in force before it. */
  predicate ItemFrom(lines: seq<string>, i: nat, item: MenuItem)
  {
    i < |lines| && item == MenuItem(PathSince(lines[..i]), ShortcutValue(lines[i]))
  }

  /** What a line adds does not depend on the lines after it. */
  lemma ItemFromPrefix(lines: seq<string>, m: nat, i: nat, item: MenuItem)
    requires i < m <= |lines|
    requires ItemFrom(lines[..m], i, item)
    ensures ItemFrom(lines, i, item)
  {
    var init := lines[..m];
    PrefixOfPrefix(lines, m, i);
    assert PathSince(init[..i]) == PathSince(lines[..i]);
    assert ShortcutValue(init[i]) == ShortcutValue(lines[i]);
  }

  /** The first `i` of the first `m` lines are the first `i` lines, and line `i` is the same. */
  lemma PrefixOfPrefix(lines: seq<string>, m: nat, i: nat)
    requires i < m <= |lines|
    ensures lines[..m][..i] == lines[..i]
    ensures lines[..m][i] == lines[i]
  {
  }

  /**
   * The items correspond one to one, in order, to the lines that add one (see
   * `ItemLinesExact`): item `k` comes from line `ItemLines(lines)[k]`, carries
   * that line's shortcut and the path in force before that line.
   */
  lemma {:induction false} ItemsFromShortcutLines(lines: seq<string>)
    ensures |ItemLines(lines)| == |ReadLines(lines).menuItems|
    ensures forall k :: 0 <= k < |ItemLines(lines)| ==> ItemFrom(lines, ItemLines(lines)[k], ReadLines(lines).menuItems[k])
  {
    if lines != [] {
      var n := |lines| - 1;
      var init := lines[..n];
      var r := ReadLines(init);
      var before := ItemLines(init);
      ItemsFromShortcutLines(init);
      ItemLinesLast(lines);
      ItemsLast(lines);
      var item := MenuItem(r.currentPath, ShortcutValue(lines[n]));
      CurrentPathSince(init);
      assert ItemFrom(lines, n, item);
      forall k | 0 <= k < |before|
        ensures ItemFrom(lines, before[k], r.menuItems[k])
      {
        ItemFromPrefix(lines, n, before[k], r.menuItems[k]);
      }
    }
  }
}
