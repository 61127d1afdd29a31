# menudump in Dafny

A verified model of the two Swift tools of menudump.

**menudump.swift** lists the menu commands of a running macOS application for
Alfred.
- It walks the application's accessibility menu tree (depth-first, at most
  five levels deep). It unwraps single-child submenu containers, skips the
  Apple menu, untitled entries and disabled commands, and keeps a
  comma-separated trail of child indices.
- It decodes each command's key equivalent into glyphs: the modifier mask, the
  literal key character and the virtual key code.
- It builds the AppleScript object reference that clicks the command.
- It assembles one Alfred result per command. The uid is a DJB2 hash of the
  path. The result also has a title showing the shortcut, the leaf label for
  autocompletion, the parent path as subtitle and the whole path as match text.

**cheatsheet.swift** reads a line-oriented YAML listing of an application's
name, bundle identifier and `{path, shortcut}` entries. It writes a Markdown
cheat sheet: a header, then one section per top-level menu in ascending order,
listing that menu's shortcuts in input order.

The model is organised by the program's structure:

| module | file | models |
|---|---|---|
| `Wrappers` | wrappers.dfy | Swift optionals (`Option`, `??` as `GetOr`) |
| `Strings` | strings.dfy | the Foundation string operations used: `joined`, `components(separatedBy:)` (by string and by character set), `trimmingCharacters(in:)`, `replacingOccurrences(of:with: "")`, `hasPrefix`, decimal rendering |
| `Shortcuts` | shortcuts.dfy | `virtualKeys`, `decodeModifiers`, `getShortcut` |
| `AppleScript` | applescript.dfy | `buildAppleScriptPath` |
| `MenuTree` | menutree.dfy | `MenuItem` with `title`/`subtitle`, `extractMenuItems` over a tree of pre-read attributes |
| `Djb2` | djb2.dfy | `djb2Hash`: UTF-8 encoding and the 64-bit wrapping fold |
| `Assembler` | assembler.dfy | the `items.map` closure that builds the Alfred results |
| `Ordering` | ordering.dfy | `sorted()` on the group names: lexicographic order by scalar |
| `CheatSheet` | cheatsheet.dfy | `generateMarkdown`, `processYAMLData` |
| `Scenarios` | scenarios.dfy | small concrete menu bars and key equivalents worked through the model |

Each source function that works by updating local variables is a method:
- `DecodeModifiers`, `GetShortcut` and `BuildAppleScriptPath`;
- `ExtractMenuItems` with `ExtractChild`;
- `GroupByTopMenu`, `AppendSection` and `GenerateMarkdown`;
- `ProcessYAMLData`.

`Ordering.Sorted` stands in for the library call `keys.sorted()`
(cheatsheet.swift:35). Only its result is modelled: the ascending listing of
the keys, computed by repeatedly taking the least one.

Each such method is proved equal to a specification function. Lemmas state
what the source promises about those functions.

The accessibility tree is the datatype `MenuTree.Node`. It holds, for each
element, the attributes the walk reads:
- `title`, `children` and `enabled`;
- the literal key (`cmdChar`), the modifier mask and the virtual key code.

A missing attribute reads as `None`, or as 0 for the two numbers, as
`getAttribute` and `CFNumberGetValue` leave them.

Points where the code's behaviour is easy to misread; the model follows the code:
- The empty-title check runs before trimming (menudump.swift:156-159). A
  whitespace-only title is therefore kept and becomes an empty path label
  (`Scenarios.BlankTitleKept`).
- The result title is `label \t (shortcut)`: between label and shortcut come a
  space, a tab, a space and "(" (menudump.swift:248).
- The mask 0x18 decodes to "fn". `getShortcut` still appends the key glyph, and
  it still returns "" when there is no key (`Scenarios.FunctionMask`).
- `processYAMLData` never returns `nil`.
  - `name: ` and `bundleIdentifier: ` lines are recognised anywhere, inside the
    menus section too, and the last one wins.
  - A bare `name:` line trims to `name:`, which does not start with `name: `.
    It is therefore not a name line.
  - `replacingOccurrences` removes every occurrence of the key, not only the
    prefix.
  - An empty path line `- path: []` reads back as one empty label, not as an
    empty path (`Scenarios.EmptyPathLine`). A non-empty path reads back when
    no label holds ", ", a bracket, or a quote at either end
    (`CheatSheet.PathValueRoundTrip`). These conditions are sufficient, not
    necessary: a label holding "[" can read back too.

## Model

| member | source | states |
|---|---|---|
| Shortcuts.DecodeModifiers | menudump.swift:103-111 | the result is "fn" for the mask 0x18 and otherwise the held modifier glyphs joined by a thin space (`ModifierString`) |
| Shortcuts.ModifierGlyphsHeld | menudump.swift:105-109 | ⌃, ⌥ and ⇧ are listed exactly when bits 0x04, 0x02 and 0x01 are set, ⌘ exactly when bit 0x08 is clear, and the list is in the order ⌃ ⌥ ⇧ ⌘ with each glyph at most once |
| Shortcuts.HeldGlyphsExact | menudump.swift:106-109 | each of the four glyphs is collected exactly when its modifier is held |
| Shortcuts.HeldGlyphsOrdered | menudump.swift:105-110 | the collected glyphs are always in display order, whatever is held |
| Shortcuts.Add | menudump.swift:106-109 | a conditional append adds the glyph exactly when the modifier is held and keeps what was there |
| Shortcuts.AddOrdered | menudump.swift:106-109 | appending a glyph that ranks above every collected one keeps the display order |
| Shortcuts.GlyphRanks | menudump.swift:106-109 | the four glyphs are distinct and take ranks 0 to 3 in the order ⌃ ⌥ ⇧ ⌘ |
| Shortcuts.GlyphInJoin | menudump.swift:110 | a modifier glyph's character occurs in the joined string exactly when the glyph is in the list |
| Shortcuts.GlyphShown | menudump.swift:103-111 | outside the fn mask, a glyph shows in the decoded string exactly when it is collected |
| Shortcuts.ModifierStringShowsHeld | menudump.swift:103-111 | outside the fn mask, each glyph character appears in the decoded modifiers exactly when its modifier is held (⌘: bit 0x08 clear) |
| Shortcuts.ModifierStringEmpty | menudump.swift:103-111 | the decoded modifiers are empty exactly when the mask is not 0x18, bit 0x08 is set and bits 0x04, 0x02, 0x01 are clear |
| Shortcuts.GetShortcut | menudump.swift:113-127 | the result is `Shortcut(cmd, modifiers, virtualKey)`: the decoded modifiers followed by the key glyph, or "" without a key |
| Shortcuts.ShortcutCases | menudump.swift:114-126 | a literal starting with DEL gives ⌦ even on a named key; otherwise a named key overrides the literal; otherwise the literal is used; the modifiers always come first with no separator; no literal and no named key give "" |
| Shortcuts.ShortcutEmpty | menudump.swift:113-127 | the shortcut is "" exactly when the key code is not named and either the literal is absent or it is "" with nothing to show for the modifiers |
| AppleScript.Nesting | menudump.swift:136-139 | the intermediate levels contribute two references each |
| AppleScript.NestingLayout | menudump.swift:136-139 | level i's `of menu` / `of menu item` pair sits at positions 2(level-i) and 2(level-i)+1, both naming path[i] |
| AppleScript.Components | menudump.swift:133-144 | an N-label path (N >= 2) has 2N references |
| AppleScript.ComponentsLayout | menudump.swift:133-144 | the item's reference comes first, level i (1 <= i <= N-2) sits at positions 2N-3-2i and 2N-2-2i from the innermost level outwards, and the top menu, its menu bar item and `menu bar 1` close the list |
| AppleScript.NestingStep | menudump.swift:136-139 | one pass of the `stride` loop keeps the collected references equal to the innermost part of the specification |
| AppleScript.BuildAppleScriptPath | menudump.swift:129-147 | the result is `ScriptPath(path)`: "" for no label, `menu bar item "p0" of menu bar 1` for one, otherwise the references joined by single spaces |
| MenuTree.ExtractMenuItems | menudump.swift:149-200 | the result is `Walk`: nothing at depth 5 or more, otherwise what each child adds, concatenated in child order |
| MenuTree.ExtractChild | menudump.swift:156-196 | one loop pass adds `Visit`: nothing for an untitled or empty title or under the Apple menu, the recursive walk of a single child's children, or one item for an enabled leaf |
| MenuTree.WalkChildrenStep | menudump.swift:155-169 | appending a child's items keeps the loop invariant of `extractMenuItems` |
| MenuTree.TrailStep | menudump.swift:163 | descending into child i adds one decimal entry to the comma-separated trail for the one label added to the path |
| MenuTree.ContextStep | menudump.swift:159-169 | descending into a titled child outside the Apple menu keeps one label and one trail entry per level |
| MenuTree.WalkShape | menudump.swift:150-196 | a walk at depth 5 or more yields nothing; every item extends the walk's path by at least one label, has at most five labels, does not start at "Apple", has one trail entry per label and carries the AppleScript reference built from its path |
| MenuTree.WalkChildrenShape | menudump.swift:155-197 | the same for the items of the remaining children |
| MenuTree.VisitShape | menudump.swift:156-196 | the same for the items one child adds |
| MenuTree.LeafShape | menudump.swift:170-195 | an enabled leaf's item is one label below the path, with its trail and reference |
| MenuTree.SubmenuWalkShape | menudump.swift:167-169 | the items of an unwrapped submenu lie below the path of its owner |
| MenuTree.VisitSkipped | menudump.swift:156-161 | a child without a title, with an empty title, or whose path starts at "Apple" adds nothing |
| MenuTree.VisitSubmenu | menudump.swift:167-169 | a titled child with exactly one child adds the walk of that child's children one level down, with its label and index appended |
| MenuTree.VisitLeaf | menudump.swift:170-195 | any other titled child adds its own item when enabled (a missing flag counts as disabled), and nothing otherwise |
| MenuTree.WalkOrigin | menudump.swift:155-196 | every item comes from an enabled leaf reached from one of the element's children through single-child submenus; its labels below the path are the trimmed titles on the way, its trail lists the indices taken, its shortcut is the leaf's (the converse is `WalkComplete`) |
| MenuTree.WalkChildrenOrigin | menudump.swift:155-197 | the same for the remaining children, naming which child |
| MenuTree.VisitOrigin | menudump.swift:156-196 | the same for one child |
| MenuTree.SubmenuWalkOrigin | menudump.swift:167-169 | an unwrapped submenu's items come from its owner: the owner has exactly one child and is not checked for being enabled |
| MenuTree.LeafOrigin | menudump.swift:170-195 | an enabled leaf's item is made from that leaf |
| MenuTree.LeafMadeFrom | menudump.swift:172-195 | the item of an enabled leaf with a child count other than one records its trimmed title, trail and shortcut |
| MenuTree.SubmenuItemsOrigin | menudump.swift:167-169 | every item found in a single-child submenu is made from the submenu's owner |
| MenuTree.SubmenuOrigin | menudump.swift:167-169 | one such item, one index further up |
| MenuTree.SubmenuStep | menudump.swift:163-169 | the owner's label and index go in front of what the submenu's child recorded |
| MenuTree.MenuBarItems | menudump.swift:242 | for the whole menu bar, every item is a chain of trimmed titles from a top-level menu to an enabled leaf, at most five labels, never under "Apple", with one trail entry per label |
| MenuTree.MenuItem.Title | menudump.swift:13 | no contract of its own; `Assembler.ResultFields` states that the autocomplete text is this last label |
| MenuTree.MenuItem.Subtitle | menudump.swift:14-18 | no contract of its own; `Assembler.ResultFields` states that for a path of two or more labels the subtitle, " > " and the last label give the whole path joined by " > ", and that it is "" for one label |
| MenuTree.PrependPointwise | menudump.swift:163-169 | putting the owner's index in front of the routes of a submenu keeps one route per item and changes each route only by that index |
| MenuTree.TracedAppend | menudump.swift:155-169 | items whose trails spell their routes keep doing so when two runs are concatenated |
| MenuTree.TracedPrepend | menudump.swift:163-169 | items traced one level down are traced at the owner once its index goes in front of their routes |
| MenuTree.WalkTraced | menudump.swift:149-200 | each item's `pathIndices` is the walk's trail extended by the child indices of its route, one route per item |
| MenuTree.ChildrenTraced | menudump.swift:155-197 | the same for the items of the remaining children |
| MenuTree.VisitTraced | menudump.swift:156-196 | the same for the items one child adds |
| MenuTree.LexLessIrreflexive | menudump.swift:155 | no route comes before itself |
| MenuTree.IncreasingAppend | menudump.swift:155-169 | the routes through child i followed by those through later children still strictly increase |
| MenuTree.IncreasingPrepend | menudump.swift:167-169 | putting the owner's index in front keeps the routes of a submenu increasing, and all of them start with it |
| MenuTree.WalkOrdered | menudump.swift:149-200 | the routes of the items strictly increase in lexicographic order: items come depth first, children in index order |
| MenuTree.ChildrenOrdered | menudump.swift:155-197 | the same for the remaining children, whose routes all start with an index from `from` on |
| MenuTree.VisitOrdered | menudump.swift:156-196 | the same for one child, whose routes all start with its index |
| MenuTree.RoutesDistinct | menudump.swift:155-197 | strictly increasing routes are pairwise different, so no leaf is listed twice |
| MenuTree.RoutesSubmenu | menudump.swift:167-169 | the routes of a single-child submenu are those of its child's walk with the owner's index in front |
| MenuTree.RoutesLeaf | menudump.swift:170-195 | any other titled child has the single route `[i]` when enabled and none otherwise |
| MenuTree.VisitFinds | menudump.swift:156-196 | every enabled leaf a child yields through single-child submenus, within the depth bound and outside the Apple menu, is listed under its route with the trimmed titles as path and its own shortcut |
| MenuTree.FindsLeaf | menudump.swift:170-195 | an enabled leaf child is listed first among what it adds, under the route `[i]` |
| MenuTree.FindsSubmenu | menudump.swift:167-169 | a leaf found through a single-child submenu is listed with the owner's index in front of its route |
| MenuTree.FindsBelow | menudump.swift:167-169 | the walk of the submenu lists that leaf, under its route with the owner's index in front |
| MenuTree.ListedPrepend | menudump.swift:167-169 | a listing one level down is a listing at the owner once its index goes in front of the routes |
| MenuTree.ChildrenFinds | menudump.swift:155-197 | the same completeness for the remaining children, naming which child |
| MenuTree.WalkFinds | menudump.swift:149-200 | the same completeness for a walk |
| MenuTree.WalkComplete | menudump.swift:149-200 | `extractMenuItems` misses no leaf: every enabled leaf that a child yields through single-child submenus, within the depth bound and outside the Apple menu, is listed, with its trimmed titles as path and its own shortcut |
| MenuTree.MenuBarListing | menudump.swift:242 | for the whole menu bar: item j's trail spells route j; the routes strictly increase, so items come depth first in child order and no leaf is listed twice; and every eligible enabled leaf is listed |
| Djb2.EncodeScalar | menudump.swift:89 | a scalar is one to four bytes: a lead byte announcing the length, then continuation bytes |
| Djb2.DecodeEncodeScalar | menudump.swift:89 | decoding a scalar's bytes gives the scalar back |
| Djb2.Utf8 | menudump.swift:89 | `utf8` has one to four bytes per character, all in 0..255 |
| Djb2.Utf8Ascii | menudump.swift:89 | an ASCII string's bytes are its character codes |
| Djb2.Utf8RoundTrip | menudump.swift:89 | decoding the bytes of a string gives its scalars |
| Djb2.Utf8Injective | menudump.swift:89 | different strings have different bytes, so different joined paths feed the hash different input |
| Djb2.Scalars | menudump.swift:89 | the scalar values of a string, one per character |
| Djb2.Wrap | menudump.swift:89 | wrapping yields a 64-bit `Int` |
| Djb2.WrapInt64 | menudump.swift:89 | an `Int` wraps to itself |
| Djb2.WrapShift | menudump.swift:89 | wrapping only depends on the value modulo 2^64 |
| Djb2.WrapOffset | menudump.swift:89 | a value and its wrap differ by a multiple of 2^64 |
| Djb2.WrapAdd | menudump.swift:89 | `&+` on a wrapped operand equals wrapping the exact sum |
| Djb2.WrapMul | menudump.swift:89 | the same for the product that `<< 5` computes |
| Djb2.StepNoWrap | menudump.swift:89 | a step whose result fits in an `Int` is exactly h * 33 + b |
| Djb2.FoldCons | menudump.swift:89 | `reduce` takes the first byte first |
| Djb2.StepWrapped | menudump.swift:89 | `(h << 5) &+ h &+ b` on a wrapped value is the wrap of p * 33 + b |
| Djb2.Step | menudump.swift:89 | no contract of its own; `StepWrapped` states that one step `(h << 5) &+ h &+ b` on a wrapped value is the 64-bit wrap of h * 33 + b, and `StepNoWrap` that it is exactly h * 33 + b when that fits |
| Djb2.Fold | menudump.swift:89 | no contract of its own; `FoldCons` states that `reduce` takes the first byte first and `FoldIsWrappedPolynomial` that the fold is the wrap of the exact polynomial |
| Djb2.Hash | menudump.swift:88-90 | no contract of its own; `HashIsWrappedPolynomial` states its closed form and `StringHash` that it is a 64-bit `Int` |
| Djb2.FoldIsWrappedPolynomial | menudump.swift:89 | wrapping at every step equals wrapping the exact polynomial once |
| Djb2.HashIsWrappedPolynomial | menudump.swift:88-90 | the hash is the 64-bit wrap of 5381 * 33^n + b0 * 33^(n-1) + ... + b(n-1) |
| Djb2.StringHash | menudump.swift:88-90 | `djb2Hash` is a 64-bit `Int` |
| Assembler.PathHash | menudump.swift:246-247 | the hash of the labels joined by ">" is a 64-bit `Int` |
| Assembler.Uid | menudump.swift:247 | the uid is a run of decimal digits without a leading zero that reads back as the hash's absolute value |
| Assembler.ResultTitle | menudump.swift:248 | the title starts with the leaf label; it is the label alone exactly when the shortcut is empty, and otherwise the label followed by ` \t (`, the shortcut and `)` |
| Assembler.ToAlfred | menudump.swift:244-267 | no contract of its own; `ResultFields` states every field of the result it builds (uid, title, autocomplete, arg, subtitle and the match text, the labels joined by single spaces); `ResultTitle` and `Uid` characterise the title and the uid; `MatchRecoversPath` shows the match text splits back into the path when no label contains a space |
| Assembler.AlfredItems | menudump.swift:244-267 | no contract of its own; `AlfredItemsPointwise` states that it gives one result per item, in order |
| Assembler.AlfredItemsPointwise | menudump.swift:244-267 | one result per item, in the order of the items |
| Assembler.ResultFields | menudump.swift:246-252 | the uid reads back as the hash's magnitude, the title is the leaf label with the shortcut in parentheses when there is one, autocomplete is the leaf label, arg is the item's AppleScript reference, the subtitle is "" for a one-label path and otherwise the subtitle, " > " and the leaf label give the whole path joined by " > ", and the match text is the labels joined by single spaces |
| Assembler.MatchRecoversPath | menudump.swift:252 | the match text splits back into the path when no label contains a space |
| Assembler.MenuBarAssemblable | menudump.swift:242-252 | every item of the menu bar's walk has one to five labels and can be assembled unless its hash is `Int.min`; its arg is the reference built from its path |
| Ordering.Less | cheatsheet.swift:35 | no contract of its own; `LessIrreflexive`, `LessAsymmetric`, `LessTransitive` and `LessTotal` state that it is a strict total order |
| Ordering.LessIrreflexive | cheatsheet.swift:35 | no name sorts before itself |
| Ordering.LessAsymmetric | cheatsheet.swift:35 | two names never sort before each other |
| Ordering.LessTransitive | cheatsheet.swift:35 | the order is transitive |
| Ordering.LessTotal | cheatsheet.swift:35 | of two different names one sorts first |
| Ordering.LeastExists | cheatsheet.swift:35 | every non-empty set of names has a least one |
| Ordering.LeastUnique | cheatsheet.swift:35 | the least name is unique |
| Ordering.SortedKeysCons | cheatsheet.swift:35 | the ascending listing starts with the least name |
| Ordering.SortedKeysMembers | cheatsheet.swift:35 | the ascending listing holds exactly the names of the set, each once |
| Ordering.SortedKeysSorted | cheatsheet.swift:35 | the ascending listing is strictly increasing |
| Ordering.SortedListingUnique | cheatsheet.swift:35 | a strictly increasing listing of a set is the ascending listing: the order is fully determined |
| Ordering.Sorted | cheatsheet.swift:35 | `keys.sorted()` returns the ascending listing of the keys |
| CheatSheet.GroupByTopMenu | cheatsheet.swift:25-33 | the grouping loop computes `Grouped`: items with a shortcut are appended to the list of their top menu ("Other" for an empty path) |
| CheatSheet.GroupMembers | cheatsheet.swift:26-32 | an item is in the group of k exactly when it is an input item with a shortcut whose top menu is k |
| CheatSheet.GroupedIsGroup | cheatsheet.swift:25-33 | the grouping has one entry per top menu of an item with a shortcut, and that entry is the group of the top menu |
| CheatSheet.GroupSnoc | cheatsheet.swift:26-32 | one more item joins the end of its top menu's group when it has a shortcut, and changes no other group |
| CheatSheet.KeysSnoc | cheatsheet.swift:26-32 | one more item adds its top menu to the keys exactly when it has a shortcut |
| CheatSheet.GroupNonEmptyKey | cheatsheet.swift:29-32 | a top menu with a non-empty group is the top menu of an item with a shortcut |
| CheatSheet.GroupOfAbsentKey | cheatsheet.swift:29-32 | a top menu of no item with a shortcut has an empty group |
| CheatSheet.KeyHasItems | cheatsheet.swift:29-32 | every key of the grouping has a non-empty group |
| CheatSheet.GroupInInputOrder | cheatsheet.swift:26-32 | a group is the items at its positions: one position per entry of the group |
| CheatSheet.GroupIndicesExact | cheatsheet.swift:26-32 | the positions of a group increase and are exactly those of the items with a shortcut and that top menu, so items keep their input order |
| CheatSheet.GroupIndicesBound | cheatsheet.swift:26-32 | every position of a group is a position of the input |
| CheatSheet.EntriesAppend | cheatsheet.swift:45-49 | the bullets of two runs of items are the bullets of the first followed by those of the second |
| CheatSheet.EntriesSnoc | cheatsheet.swift:45-49 | one more item adds its bullet at the end |
| CheatSheet.SectionsAppend | cheatsheet.swift:36-49 | the sections of two runs of names are those of the first followed by those of the second |
| CheatSheet.SectionsSnoc | cheatsheet.swift:36-49 | one more name adds its section at the end |
| CheatSheet.AppendSection | cheatsheet.swift:37-49 | one pass over a top menu appends its heading and its bullets, or nothing for a missing or empty group |
| CheatSheet.GenerateMarkdown | cheatsheet.swift:15-53 | the result is `Markdown`: the header, then the section of each key of the grouping in ascending order |
| CheatSheet.DisplayCases | cheatsheet.swift:46-47 | an entry shows "" for an empty path, the only label of a one-label path, and otherwise the labels after the first joined by " → " |
| CheatSheet.SectionsAreLayout | cheatsheet.swift:36-49 | for top menus of items with a shortcut the guard never skips a section |
| CheatSheet.MarkdownLayout | cheatsheet.swift:15-53 | the cheat sheet is the header, then for each top menu of an item with a shortcut, in strictly ascending order and so exactly once, its heading and its non-empty group of bullets |
| CheatSheet.ListedItemShown | cheatsheet.swift:27-48 | every item with a shortcut appears in the group of its top menu, which has a section |
| CheatSheet.HeaderOnly | cheatsheet.swift:16-27 | the output is the bare header exactly when no item has a shortcut |
| CheatSheet.Header | cheatsheet.swift:16-23 | no contract of its own; `MarkdownLayout` and `HeaderOnly` state that every cheat sheet starts with it and is only it when no item has a shortcut |
| CheatSheet.Display | cheatsheet.swift:46-47 | no contract of its own; `DisplayCases` states its three cases |
| CheatSheet.EntryLine | cheatsheet.swift:48 | no contract of its own; `EntriesSnoc` and `MarkdownLayout` state that each item of a group contributes its bullet, in group order |
| CheatSheet.ProcessYAMLData | cheatsheet.swift:55-92 | the app info is always present and holds the name and bundle identifier the line loop ends with; the items are the ones it collects (`ReadLines`) |
| CheatSheet.ReadLinesSnoc | cheatsheet.swift:65-88 | the loop state after one more line is one more step of the loop body |
| CheatSheet.ReadLinesLast | cheatsheet.swift:65-88 | the state after the lines is the loop body applied to the last line after the others |
| CheatSheet.ReadTrimmed | cheatsheet.swift:66-86 | the loop body has no contract of its own; `KeysExclusive`, `TrimmedKeys`, `TrimmedMenus`, `TrimmedPath`, `TrimmedItems` and `TrimmedWellRead` state which line kind changes which variable, and how |
| CheatSheet.UnquoteAllPointwise | cheatsheet.swift:78 | each label is its piece with the surrounding quotes trimmed, one label per piece |
| CheatSheet.KeysExclusive | cheatsheet.swift:68-72 | a `name: ` line is not a `bundleIdentifier: ` line nor `menus:`, and a `bundleIdentifier: ` line is not `menus:` |
| CheatSheet.TrimmedKeys | cheatsheet.swift:68-71 | a trimmed line changes the name or the bundle identifier only when it starts with that key |
| CheatSheet.ReadLineKeys | cheatsheet.swift:66-71 | the same for an untrimmed line |
| CheatSheet.LastOccurrenceWins | cheatsheet.swift:68-71 | the name and the bundle identifier are the values of the last line with that key, wherever it is, or "" when there is none |
| CheatSheet.TrimmedMenus | cheatsheet.swift:72-74 | the reader enters the menus exactly on `menus:`; outside the menus nothing is collected |
| CheatSheet.ReadLineMenus | cheatsheet.swift:66-74 | the same for an untrimmed line |
| CheatSheet.ItemsFollowMenusLine | cheatsheet.swift:72-88 | the reader is in the menus exactly when a `menus:` line has been seen; before that no path is kept and no item is collected |
| CheatSheet.PathValueClean | cheatsheet.swift:75-78 | the labels of a `- path: [` line hold no `]` and have no quote at either end |
| CheatSheet.Unquote | cheatsheet.swift:69 | no contract of its own; `UnquoteQuote` states that it undoes quoting and `UnquoteClean` that its result has no quote at either end |
| CheatSheet.Value | cheatsheet.swift:68-71 | no contract of its own; `ValueRoundTrip` states that a `key "value"` line reads back as its value |
| CheatSheet.PathValue | cheatsheet.swift:75-78 | no contract of its own; `PathValueRoundTrip` states that a path line reads back as its labels and `PathValueClean` that every label read is clean |
| CheatSheet.QuoteAllPointwise | cheatsheet.swift:78 | each quoted label is its label in double quotes, one for one |
| CheatSheet.UnquoteQuote | cheatsheet.swift:69 | trimming the quotes off a quoted value gives the value back when it has no quote at either end |
| CheatSheet.OpeningQuoteDropped | cheatsheet.swift:69 | trimming the front of a quoted value drops the opening quote and goes on with the rest |
| CheatSheet.ClosingQuoteDropped | cheatsheet.swift:69 | trimming the back of a value followed by a quote drops that quote and stops |
| CheatSheet.OccursInQuotes | cheatsheet.swift:69 | an occurrence of a pattern strictly inside the quotes is an occurrence in the value |
| CheatSheet.QuoteSealed | cheatsheet.swift:69-78 | a pattern without a quote that does not occur in a value occurs neither in the quoted value nor, when it follows the quoted value, anywhere before its end |
| CheatSheet.ValueRoundTrip | cheatsheet.swift:68-80 | `key "v"` reads back as `v` when the key has no quote, does not occur in `v`, and `v` has no quote at either end |
| CheatSheet.QuotedLabelsLack | cheatsheet.swift:77 | a character other than the quote, the comma and the space is in the joined quoted labels only if it is in a label |
| CheatSheet.PathLineStripped | cheatsheet.swift:77 | removing the key and every `]` from `- path: [` + the joined quoted labels + `]` leaves the joined quoted labels, when no label holds a bracket |
| CheatSheet.BracketsStripped | cheatsheet.swift:77 | the same for any text between the key and the closing bracket that holds no bracket |
| CheatSheet.SplitQuoted | cheatsheet.swift:78 | quoted labels in which ", " does not occur split apart again at ", " |
| CheatSheet.SplitParts | cheatsheet.swift:78 | parts that are sealed and free of ", " split apart again at ", " |
| CheatSheet.UnquoteQuoteAll | cheatsheet.swift:78 | unquoting every quoted label gives the labels back |
| CheatSheet.PathValueRoundTrip | cheatsheet.swift:75-78 | `- path: ["l1", ..., "ln"]` reads back as exactly the labels l1 ... ln, when there is at least one and no label holds ", ", a bracket, or a quote at either end |
| CheatSheet.PathKeyExclusive | cheatsheet.swift:68-75 | a `- path: [` line is none of the lines checked before it |
| CheatSheet.TrimmedPath | cheatsheet.swift:75-85 | inside the menus a `- path: [` line sets the path and a `shortcut: ` line clears it; every other line keeps it |
| CheatSheet.ReadLinePath | cheatsheet.swift:66-85 | the same for an untrimmed line |
| CheatSheet.TrimmedWellRead | cheatsheet.swift:75-85 | one trimmed line keeps every collected item well formed |
| CheatSheet.ReadLineWellRead | cheatsheet.swift:66-85 | the same for an untrimmed line |
| CheatSheet.ItemsWellFormed | cheatsheet.swift:65-88 | every collected item has a non-empty shortcut without surrounding quotes and a path of labels without `]` or surrounding quotes |
| CheatSheet.ShortcutKeyExclusive | cheatsheet.swift:68-79 | a `shortcut: ` line is none of the other kinds of line |
| CheatSheet.TrimmedItems | cheatsheet.swift:79-85 | a trimmed line adds an item only inside the menus, for a `shortcut: ` line with a non-empty value; the item carries the path read so far, and the path is cleared either way |
| CheatSheet.ReadLineItems | cheatsheet.swift:66-85 | the same for an untrimmed line |
| CheatSheet.EmitFlags | cheatsheet.swift:65-86 | one flag per line |
| CheatSheet.EmitsPrefix | cheatsheet.swift:65-86 | whether a line adds an item depends only on the lines up to it |
| CheatSheet.ItemLinesLast | cheatsheet.swift:65-86 | one more line adds its own position when it adds an item |
| CheatSheet.ItemLinesExact | cheatsheet.swift:72-86 | the positions of the lines that add an item increase and are exactly the `shortcut: ` lines with a value after a `menus:` line |
| CheatSheet.ItemsLast | cheatsheet.swift:79-86 | one more line adds an item exactly when it is such a line |
| CheatSheet.ItemFromPrefix | cheatsheet.swift:65-86 | what a line adds does not depend on the lines after it |
| CheatSheet.CurrentPathSince | cheatsheet.swift:72-85 | the path the loop carries is `PathSince`: the labels of the last `- path: [` line after the `menus:` line, unless a `shortcut: ` line came after it, and nothing before the `menus:` line |
| CheatSheet.ItemsFromShortcutLines | cheatsheet.swift:65-88 | the items correspond one to one, in order, to the lines that add one: item k carries that line's shortcut and the path in force before it (`PathSince`: the labels of the last `- path: [` line since the last `shortcut: ` line, after the `menus:` line) |
| Strings.Join | menudump.swift:17 | `joined(separator:)` has no contract of its own; `JoinSplit`, `SplitJoin` and `SplitJoinSealed` state that splitting undoes it and it undoes splitting, and `InJoin` which characters it holds |
| Strings.JoinSnoc | menudump.swift:17 | joining one more part appends the separator and the part |
| Strings.InJoin | menudump.swift:110 | a character is in a joined string exactly when it is in a part or in a separator that is used |
| Strings.JoinSplit | cheatsheet.swift:78 | `components(separatedBy:)` loses nothing: joining the pieces with the separator gives back the string |
| Strings.SplitNoSeparator | menudump.swift:163 | a string without the separator is one piece |
| Strings.SplitAppend | menudump.swift:163 | appending the separator and a piece without it adds that piece |
| Strings.SplitJoin | menudump.swift:252 | splitting parts joined by a separator character they do not hold gives the parts back |
| Strings.SplitWithin | cheatsheet.swift:78 | every character of a piece comes from the split string |
| Strings.SplitFree | cheatsheet.swift:78 | a string in which the separator does not occur is exactly one piece, itself |
| Strings.SplitSealed | cheatsheet.swift:78 | a part that meets its first occurrence of the separator right at its end is split off as the first piece, and the rest is split on from there |
| Strings.SplitJoinSealed | cheatsheet.swift:78 | splitting joined parts gives exactly the parts back when every part but the last is sealed and the separator does not occur in the last: the inverse of `JoinSplit` |
| Strings.SplitAnySingle | cheatsheet.swift:56 | a string is one line exactly when it holds no newline character, and then it is that line |
| Strings.JoinSplitAny | cheatsheet.swift:56 | there is one more line than newline characters, and the lines with the newline characters put back between them give back the text |
| Strings.PositionsExact | cheatsheet.swift:82 | the positions listed increase and are exactly those that hold |
| Strings.TrimLeft | menudump.swift:159 | the result is a suffix that does not start with a trimmed character |
| Strings.TrimLeftDropped | menudump.swift:159 | every dropped leading character is in the set |
| Strings.TrimRight | menudump.swift:159 | the result is a prefix that does not end with a trimmed character |
| Strings.TrimRightDropped | menudump.swift:159 | every dropped trailing character is in the set |
| Strings.Trim | cheatsheet.swift:66 | the result is no longer than the input and neither of its ends is in the set |
| Strings.TrimWithin | cheatsheet.swift:69 | every character of the trimmed string comes from the string |
| Strings.TrimEmpty | menudump.swift:159 | trimming leaves nothing exactly when every character is in the set |
| Strings.TrimUnchanged | menudump.swift:159 | a string whose ends lie outside the set is its own trim |
| Strings.TrimIdempotent | cheatsheet.swift:66 | trimming twice is trimming once |
| Strings.RemoveAllAbsent | cheatsheet.swift:69 | a string without the pattern is left as it is |
| Strings.RemoveAllPrefix | cheatsheet.swift:69 | a key at the front of the line is removed and the rest is read on from there |
| Strings.RemoveAllSplit | cheatsheet.swift:69 | removing a pattern is splitting the string at its occurrences, left to right, and joining the pieces with nothing between them: every occurrence found goes, every other character stays in order |
| Strings.CharFree | cheatsheet.swift:77 | a pattern holding a character the string lacks does not occur in it |
| Strings.RemoveAllChar | cheatsheet.swift:77 | removing a one-character pattern keeps every other character, in order |
| Strings.Without | cheatsheet.swift:77 | the character is gone and nothing is added |
| Strings.WithoutAbsent | cheatsheet.swift:77 | leaving out a character the string lacks changes nothing |
| Strings.WithoutAppend | cheatsheet.swift:77 | leaving out a character distributes over concatenation |
| Strings.NatToString | menudump.swift:163 | the rendering is a run of digits with no leading zero unless the number is 0 |
| Strings.ParseNatToString | menudump.swift:247 | reading back a rendering gives the number |
| Strings.NatToStringInjective | menudump.swift:163 | different numbers render differently |
| Scenarios.PlainLabel | menudump.swift:159 | a label without surrounding whitespace is its own path label |
| Scenarios.WalkOnly | menudump.swift:155-169 | an element with one child yields what that child adds |
| Scenarios.OpenMenu | menudump.swift:167-169 | a titled child with one child yields the walk of its child's children under the extended path and trail |
| Scenarios.ListCommand | menudump.swift:187-195 | a titled enabled leaf yields exactly its own item |
| Scenarios.ScriptPathTwo | menudump.swift:133-146 | the reference to a command directly in a top-level menu, spelled out |
| Scenarios.ScriptPathThree | menudump.swift:133-146 | the reference to a command one submenu down, spelled out |
| Scenarios.CommandOnly | menudump.swift:109 | the mask 0 decodes to ⌘ alone |
| Scenarios.FileNewReference | menudump.swift:129-147 | File > New is `menu item "New" of menu "File" of menu bar item "File" of menu bar 1` |
| Scenarios.CommandInMenu | menudump.swift:149-200 | a top-level menu holding one enabled command yields one item with the two labels, trail "0,0", the command's shortcut and the reference to the command |
| Scenarios.FileNew | menudump.swift:113-147 | File > New with the literal N and no modifier bits shows ⌘N and is reached through File |
| Scenarios.FileNewHash | menudump.swift:89 | the hash of "File>New" is 7571008018616909 |
| Scenarios.FileNewBytes | menudump.swift:246 | the bytes hashed for File > New |
| Scenarios.FileNewJoined | menudump.swift:246 | the string hashed for File > New is "File>New" |
| Scenarios.FileNewUtf8 | menudump.swift:89 | the bytes of "File>New" are its ASCII codes |
| Scenarios.FileNewFold | menudump.swift:89 | the fold over those bytes is 7571008018616909, no step wrapping |
| Scenarios.FileNewResult | menudump.swift:244-252 | the File > New result: uid 7571008018616909, title `New \t (⌘N)`, autocomplete "New", subtitle "File", match text "File New" |
| Scenarios.FileNewUid | menudump.swift:247 | the uid of File > New reads back as the hash |
| Scenarios.FileNewTitle | menudump.swift:248 | the title of File > New with ⌘N |
| Scenarios.AppleMenuSkipped | menudump.swift:161 | nothing under the Apple menu is listed, whatever it holds |
| Scenarios.CommandInSubmenu | menudump.swift:149-200 | a command inside a submenu yields one item with three labels and trail "0,0,0"; the submenu's owner adds no item of its own |
| Scenarios.BlankLabel | menudump.swift:159 | a whitespace-only title trims to the empty label |
| Scenarios.NoKeyNoShortcut | menudump.swift:118-126 | no literal and key code 0 give no shortcut |
| Scenarios.BlankTitleKept | menudump.swift:156-159 | a whitespace-only title passes the emptiness check and becomes an empty label |
| Scenarios.DisabledDropped | menudump.swift:172-173 | a disabled command and one without an enabled flag are both dropped |
| Scenarios.DeleteBeatsNamedKey | menudump.swift:116-117 | a DEL literal shows ⌦ even on a named key |
| Scenarios.FunctionMask | menudump.swift:104 | the fn mask shows "fn" before the key glyph, and nothing without a key |
| Scenarios.AllModifiers | menudump.swift:103-110 | Control, Option, Shift and Command held: four glyphs separated by thin spaces, then the key |
| Scenarios.AllGlyphs | menudump.swift:106-109 | the mask 0x07 lists all four glyphs in display order |
| Scenarios.TwoLabelPathLine | cheatsheet.swift:75-78 | a path line with two quoted labels, such as `- path: ["File", "New"]`, reads back as the two labels when they hold no comma, bracket or quote |
| Scenarios.EmptyPathLine | cheatsheet.swift:75-78 | `- path: []` reads back as one empty label |

## Left out

- Accessibility I/O is not modelled: `getAttribute`, the AX attribute reads, the `CFNumberGetValue` conversions, `AXUIElementCreateApplication` and the menu-bar fetch (menudump.swift:95-99, 151, 156, 165, 172-185, 233-240). The tree arrives already read, as `MenuTree.Node`.
- Application discovery through `NSWorkspace`, the `appPath` fallback and the printed error results (menudump.swift:204-231, 237-240) are not modelled: they are operating-system calls and output.
- `JSONSerialization` and `print` of the results, and the `icon` dictionary (menudump.swift:253-256, 269-278), are not modelled. The icon is an opaque external value, and `Assembler.AlfredItem` has no icon field.
- `main` of cheatsheet.swift (lines 94-114) is not modelled: it reads stdin, prints and exits. Its `appInfo == nil` branch cannot be taken, since `CheatSheet.ProcessYAMLData` always returns the app info.
- Strings are modelled as sequences of Unicode scalars. Swift compares and trims `Character`s (extended grapheme clusters) with canonical equivalence.
  - `Ordering.Less` orders names scalar by scalar. Swift compares the NFC forms of the two strings, so `Ordering.Less` matches `sorted()` only for names already in NFC. For example, "e\u{301}" (e followed by a combining acute accent) is "é" in NFC and so sorts after "f" in Swift, but before "f" here.
  - `Strings.Trim` trims per scalar. That matches Foundation for the sets used (whitespace, newlines, the double quote) except where a combining mark follows a trimmed character.
- Assembler.Uid: requires the hash not to be `Int.min`. Swift's `abs` traps on that value, and the model does not describe the trap.
- Assembler.AlfredItemsPointwise: requires every item to have a non-empty path whose hash is not `Int.min`. `subtitle`'s `removeLast` traps on an empty path. The walk never yields one (`MenuTree.WalkShape`).
- Assembler.MenuBarAssemblable: assumes as a precondition that no item of the walk hashes to `Int.min`, for the same reason.
- Swift's 64-bit `Int` for the modifier mask and the key code is modelled as an unbounded integer. Only bits 0 to 3 of the mask are read, with two's-complement meaning, so nothing depends on the width.
