/**
 * Small menu bars worked through the walk and the assembler: a command in a
 * top-level menu, the Apple menu, a command in a submenu, a whitespace-only
 * title, disabled commands, the key overrides of the shortcut decoder, and
 * YAML path lines read back by the cheat sheet reader.
 * The walk scenarios hold for any labels of the given kind; the spelled-out
 * strings follow for particular labels.
 */
module Scenarios {
  import opened Wrappers
  import opened Strings
  import opened Shortcuts
  import opened AppleScript
  import opened MenuTree
  import opened Assembler
  import opened Djb2
  import CheatSheet

  /** An enabled command without children. */
  function Command(title: string, cmd: Option<string>, modifiers: int, virtualKey: int): Node
  {
    Node(Some(title), [], Some(true), cmd, modifiers, virtualKey)
  }

  /** A titled entry whose only child is the untitled menu holding `entries`. */
  function Menu(title: string, entries: seq<Node>): Node
  {
    Node(Some(title), [Node(None, entries, None, None, 0, 0)], Some(true), None, 0, 0)
  }

  /** The menu bar element: untitled, with the top-level menus as children. */
  function Bar(menus: seq<Node>): Node
  {
    Node(None, menus, None, None, 0, 0)
  }

  /** The virtual key code of the N key (not a named key). */
  const KeyN: int := 0x2D

  // ---------------------------------------------------------------------------
  // One step of the walk at a time
  // ---------------------------------------------------------------------------

  /** A label without surrounding whitespace is its own path label. */
  lemma PlainLabel(name: string)
    requires name != [] && name[0] !in WhitespacesAndNewlines && name[|name| - 1] !in WhitespacesAndNewlines
    ensures PathLabel(name) == name
  {
    TrimUnchanged(name, WhitespacesAndNewlines);
  }

  /** An element with one child contributes that child's items. */
  lemma WalkOnly(e: Node, path: seq<string>, pathIndices: string, depth: nat)
    requires depth < MaxDepth && |e.children| == 1
    ensures Walk(e, path, pathIndices, depth) == Visit(e.children[0], 0, path, pathIndices, depth)
  {
    assert WalkChildren(e.children, 1, path, pathIndices, depth) == [];
  }

  /**
   * A titled child with one child hands its label and trail entry down to
   * that child's children, stated for the label and trail spelled out.
   */
  lemma OpenMenu(child: Node, i: nat, path: seq<string>, pathIndices: string, depth: nat,
                 menuPath: seq<string>, indices: string)
    requires depth < MaxDepth
    requires child.title.Some? && child.title.value != ""
    requires menuPath == path + [PathLabel(child.title.value)] && menuPath[0] != AppleMenu
    requires indices == IndexTrail(pathIndices, i)
    requires |child.children| == 1
    ensures Visit(child, i, path, pathIndices, depth) == Walk(child.children[0], menuPath, indices, depth + 1)
  {
  }

  /** A titled, enabled child without exactly one child yields its own item, spelled out. */
  lemma ListCommand(child: Node, i: nat, path: seq<string>, pathIndices: string, depth: nat,
                    menuPath: seq<string>, indices: string, shortcut: string, reference: string)
    requires depth < MaxDepth
    requires child.title.Some? && child.title.value != ""
    requires menuPath == path + [PathLabel(child.title.value)] && menuPath[0] != AppleMenu
    requires indices == IndexTrail(pathIndices, i)
    requires |child.children| != 1 && child.enabled == Some(true)
    requires shortcut == Shortcut(child.cmdChar, child.modifiers, child.virtualKey)
    requires reference == ScriptPath(menuPath)
    ensures Visit(child, i, path, pathIndices, depth) == [MenuItem(menuPath, indices, shortcut, reference)]
  {
  }

  /** The reference to a command directly inside a top-level menu. */
  lemma ScriptPathTwo(top: string, name: string)
    ensures ScriptPath([top, name])
      == LeafRef(name) + " " + MenuRef(top) + " " + ("of menu bar item " + Quoted(top)) + " " + "of menu bar 1"
  {
    var c := Components([top, name]);
    assert c == [LeafRef(name), MenuRef(top), "of menu bar item " + Quoted(top), "of menu bar 1"];
    assert Join(c[2..], " ") == c[2] + " " + c[3];
    assert Join(c[1..], " ") == c[1] + " " + Join(c[2..], " ");
  }

  /** The reference to a command one submenu below a top-level menu. */
  lemma ScriptPathThree(top: string, sub: string, name: string)
    ensures ScriptPath([top, sub, name])
      == LeafRef(name) + " " + (MenuRef(sub) + " " + (MenuItemRef(sub) + " " + (MenuRef(top) + " "
         + ("of menu bar item " + Quoted(top) + " " + "of menu bar 1"))))
  {
    var c := Components([top, sub, name]);
    assert c == [LeafRef(name), MenuRef(sub), MenuItemRef(sub), MenuRef(top), "of menu bar item " + Quoted(top), "of menu bar 1"];
    assert Join(c[4..], " ") == c[4] + " " + c[5];
    assert Join(c[3..], " ") == c[3] + " " + Join(c[4..], " ");
    assert Join(c[2..], " ") == c[2] + " " + Join(c[3..], " ");
    assert Join(c[1..], " ") == c[1] + " " + Join(c[2..], " ");
  }

  lemma TrailFacts()
    ensures IndexTrail("", 0) == "0"
    ensures IndexTrail("0", 0) == "0,0"
    ensures IndexTrail("0,0", 0) == "0,0,0"
  {
    assert NatToString(0) == "0";
  }

  /** The decoded mask 0: Command alone. */
  lemma CommandOnly()
    ensures ModifierString(0) == CommandGlyph
  {
    assert ModifierGlyphs(0) == [CommandGlyph];
  }

  /** The reference to File > New, spelled out component by component. */
  lemma FileNewReference()
    ensures ScriptPath(["File", "New"]) == FileNewScript
  {
    ScriptPathTwo("File", "New");
    assert LeafRef("New") == "menu item \"New\"";
    assert MenuRef("File") == "of menu \"File\"";
    assert "of menu bar item " + Quoted("File") == "of menu bar item \"File\"";
  }

  /** The AppleScript reference to File > New. */
  const FileNewScript: string :=
    "menu item \"New\"" + " " + "of menu \"File\"" + " " + "of menu bar item \"File\"" + " " + "of menu bar 1"

  // ---------------------------------------------------------------------------
  // Scenarios
  // ---------------------------------------------------------------------------

  /** A label that trimming leaves alone and that is not the Apple menu. */
  predicate Plain(name: string)
  {
    name != [] && name[0] !in WhitespacesAndNewlines && name[|name| - 1] !in WhitespacesAndNewlines
    && name != AppleMenu
  }

  /**
   * A top-level menu holding one enabled command: one item, whose path is the
   * two labels, whose trail is "0,0", whose shortcut is the command's and whose
   * reference names the command inside the menu.
   */
  lemma CommandInMenu(top: string, name: string, cmd: Option<string>, modifiers: int, virtualKey: int)
    requires Plain(top) && Plain(name)
    ensures Walk(Bar([Menu(top, [Command(name, cmd, modifiers, virtualKey)])]), [], "", 0)
      == [MenuItem([top, name], "0,0", Shortcut(cmd, modifiers, virtualKey), ScriptPath([top, name]))]
  {
    var command := Command(name, cmd, modifiers, virtualKey);
    var menu := Menu(top, [command]);
    PlainLabel(top);
    PlainLabel(name);
    TrailFacts();
    WalkOnly(Bar([menu]), [], "", 0);
    OpenMenu(menu, 0, [], "", 0, [top], "0");
    WalkOnly(menu.children[0], [top], "0", 1);
    ListCommand(command, 0, [top], "0", 1, [top, name], "0,0",
                Shortcut(cmd, modifiers, virtualKey), ScriptPath([top, name]));
  }

  /** For "File" holding "New" with the literal N and no modifier bits, the item shows ⌘N and is reached through File. */
  lemma FileNew()
    ensures Shortcut(Some("N"), 0, KeyN) == "\U{2318}N"
    ensures ScriptPath(["File", "New"]) == FileNewScript
  {
    CommandOnly();
    FileNewReference();
  }

  /** The bytes of "File>New" hash to 7571008018616909 (no step wraps). */
  lemma FileNewHash()
    ensures PathHash(["File", "New"]) == 7571008018616909
  {
    FileNewBytes();
    FileNewFold();
  }

  /** The bytes hashed for File > New. */
  lemma FileNewBytes()
    ensures Utf8(Join(["File", "New"], UidSeparator)) == [70, 105, 108, 101, 62, 78, 101, 119]
  {
    FileNewJoined();
    FileNewUtf8();
  }

  /** The string hashed for File > New. */
  lemma FileNewJoined()
    ensures Join(["File", "New"], UidSeparator) == "File>New"
  {
  }

  /** The UTF-8 bytes of "File>New": its ASCII codes. */
  lemma FileNewUtf8()
    ensures Utf8("File>New") == [70, 105, 108, 101, 62, 78, 101, 119]
  {
    FileNewCodes("File>New");
  }

  /** The same bytes, read off character by character from a non-literal copy of the string. */
  lemma FileNewCodes(s: string)
    requires s == "File>New"
    ensures Utf8(s) == [70, 105, 108, 101, 62, 78, 101, 119]
  {
    Utf8Ascii(s);
  }

  /** The fold over those bytes, step by step: no step wraps. */
  lemma FileNewFold()
    ensures Hash([70, 105, 108, 101, 62, 78, 101, 119]) == 7571008018616909
  {
    StepNoWrap(5381, 70);
    StepNoWrap(177643, 105);
    StepNoWrap(5862324, 108);
    StepNoWrap(193456800, 101);
    StepNoWrap(6384074501, 62);
    StepNoWrap(210674458595, 78);
    StepNoWrap(6952257133713, 101);
    StepNoWrap(229424485412630, 119);
    FoldCons(229424485412630, 119, []);
    FoldCons(6952257133713, 101, [119]);
    FoldCons(210674458595, 78, [101, 119]);
    FoldCons(6384074501, 62, [78, 101, 119]);
    FoldCons(193456800, 101, [62, 78, 101, 119]);
    FoldCons(5862324, 108, [101, 62, 78, 101, 119]);
    FoldCons(177643, 105, [108, 101, 62, 78, 101, 119]);
    FoldCons(5381, 70, [105, 108, 101, 62, 78, 101, 119]);
  }

  /**
   * The result for File > New: the uid renders the hash, the title shows the
   * shortcut after a tab, the subtitle is the menu and the match text is both
   * labels.
   */
  lemma FileNewResult()
    ensures PathHash(["File", "New"]) == 7571008018616909
    ensures var a := ToAlfred(MenuItem(["File", "New"], "0,0", "\U{2318}N", ""));
      && ParseNat(a.uid) == 7571008018616909
      && a.title == "New \t (\U{2318}N)"
      && a.autocomplete == "New"
      && a.subtitle == "File"
      && a.matchText == "File New"
  {
    var item := MenuItem(["File", "New"], "0,0", "\U{2318}N", "");
    FileNewHash();
    FileNewUid();
    FileNewTitle(item);
    FileNewJoins();
    assert item.path[..1] == ["File"];
  }

  /** The labels of File > New joined for the subtitle and the match text. */
  lemma FileNewJoins()
    ensures Join(["File"], " > ") == "File"
    ensures Join(["File", "New"], " ") == "File New"
  {
    assert ["File", "New"][1..] == ["New"];
  }

  /** The uid of File > New reads back as the hash. */
  lemma FileNewUid()
    requires PathHash(["File", "New"]) == 7571008018616909
    ensures ParseNat(Uid(["File", "New"])) == 7571008018616909
  {
  }

  /** The title of File > New with ⌘N. */
  lemma FileNewTitle(item: MenuItem)
    requires item.path == ["File", "New"] && item.shortcut == "\U{2318}N"
    ensures ResultTitle(item) == "New \t (\U{2318}N)"
  {
    assert item.Title() == "New";
  }

  /** Nothing under the Apple menu is listed, whatever it holds. */
  lemma AppleMenuSkipped(entries: seq<Node>)
    ensures Walk(Bar([Menu(AppleMenu, entries)]), [], "", 0) == []
  {
    PlainLabel(AppleMenu);
    WalkOnly(Bar([Menu(AppleMenu, entries)]), [], "", 0);
  }

  /**
   * A command inside a submenu of a top-level menu: the submenu's owner adds
   * its label and trail entry but no item of its own.
   */
  lemma CommandInSubmenu(top: string, sub: string, name: string, cmd: Option<string>, modifiers: int, virtualKey: int)
    requires Plain(top) && Plain(sub) && Plain(name)
    ensures Walk(Bar([Menu(top, [Menu(sub, [Command(name, cmd, modifiers, virtualKey)])])]), [], "", 0)
      == [MenuItem([top, sub, name], "0,0,0", Shortcut(cmd, modifiers, virtualKey), ScriptPath([top, sub, name]))]
  {
    var command := Command(name, cmd, modifiers, virtualKey);
    var inner := Menu(sub, [command]);
    var menu := Menu(top, [inner]);
    PlainLabel(top);
    PlainLabel(sub);
    PlainLabel(name);
    TrailFacts();
    WalkOnly(Bar([menu]), [], "", 0);
    OpenMenu(menu, 0, [], "", 0, [top], "0");
    WalkOnly(menu.children[0], [top], "0", 1);
    OpenMenu(inner, 0, [top], "0", 1, [top, sub], "0,0");
    WalkOnly(inner.children[0], [top, sub], "0,0", 2);
    ListCommand(command, 0, [top, sub], "0,0", 2, [top, sub, name], "0,0,0",
                Shortcut(cmd, modifiers, virtualKey), ScriptPath([top, sub, name]));
  }

  /** A whitespace-only title trims to the empty label. */
  lemma BlankLabel(blank: string)
    requires forall k :: 0 <= k < |blank| ==> blank[k] in WhitespacesAndNewlines
    ensures PathLabel(blank) == ""
  {
    TrimEmpty(blank, WhitespacesAndNewlines);
  }

  /** Without a literal and on key code 0 (not a named key) there is no shortcut. */
  lemma NoKeyNoShortcut()
    ensures Shortcut(None, 0, 0) == ""
  {
    assert 0 !in VirtualKeys;
  }

  /** A title made only of whitespace passes the emptiness check and becomes an empty label. */
  lemma BlankTitleKept(top: string, blank: string)
    requires Plain(top)
    requires blank != "" && forall k :: 0 <= k < |blank| ==> blank[k] in WhitespacesAndNewlines
    ensures Walk(Bar([Menu(top, [Command(blank, None, 0, 0)])]), [], "", 0)
      == [MenuItem([top, ""], "0,0", "", ScriptPath([top, ""]))]
  {
    var command := Command(blank, None, 0, 0);
    var menu := Menu(top, [command]);
    PlainLabel(top);
    BlankLabel(blank);
    NoKeyNoShortcut();
    TrailFacts();
    WalkOnly(Bar([menu]), [], "", 0);
    OpenMenu(menu, 0, [], "", 0, [top], "0");
    WalkOnly(menu.children[0], [top], "0", 1);
    ListCommand(command, 0, [top], "0", 1, [top, ""], "0,0", "", ScriptPath([top, ""]));
  }

  /** A disabled command and a command without an enabled flag are both dropped. */
  lemma DisabledDropped(top: string, a: string, b: string)
    requires Plain(top) && a != "" && b != ""
    ensures Walk(Bar([Menu(top, [Node(Some(a), [], Some(false), None, 0, 0),
                                 Node(Some(b), [], None, None, 0, 0)])]), [], "", 0) == []
  {
    var disabled := Node(Some(a), [], Some(false), None, 0, 0);
    var unknown := Node(Some(b), [], None, None, 0, 0);
    var menu := Menu(top, [disabled, unknown]);
    PlainLabel(top);
    TrailFacts();
    WalkOnly(Bar([menu]), [], "", 0);
    OpenMenu(menu, 0, [], "", 0, [top], "0");
    var entries := menu.children[0].children;
    assert WalkChildren(entries, 2, [top], "0", 1) == [];
    assert WalkChildren(entries, 1, [top], "0", 1) == Visit(unknown, 1, [top], "0", 1);
    assert WalkChildren(entries, 0, [top], "0", 1) == Visit(disabled, 0, [top], "0", 1) + Visit(unknown, 1, [top], "0", 1);
  }

  /** A DEL literal shows the forward-delete glyph even on a named key. */
  lemma DeleteBeatsNamedKey()
    ensures Shortcut(Some("\U{7F}"), 0, 0x33) == "\U{2318}\U{2326}"
  {
    CommandOnly();
  }

  /** The fn-only mask is spelled "fn" and the key glyph still follows it; without a key there is nothing. */
  lemma FunctionMask()
    ensures Shortcut(Some("a"), FunctionOnly, KeyN) == "fna"
    ensures Shortcut(None, FunctionOnly, KeyN) == ""
  {
  }

  /** Control, Option and Shift held with Command: all four glyphs, thin-space separated, then the key. */
  lemma AllModifiers()
    ensures Shortcut(Some("Z"), 0x07, 0x06) == "\U{2303}\U{2009}\U{2325}\U{2009}\U{21E7}\U{2009}\U{2318}Z"
  {
    AllGlyphs();
    var gs := [ControlGlyph, OptionGlyph, ShiftGlyph, CommandGlyph];
    assert Join(gs[3..], ThinSpace) == "\U{2318}";
    assert Join(gs[2..], ThinSpace) == "\U{21E7}" + "\U{2009}" + "\U{2318}";
    assert Join(gs[1..], ThinSpace) == "\U{2325}" + "\U{2009}" + "\U{21E7}\U{2009}\U{2318}";
    assert Join(gs, ThinSpace) == "\U{2303}" + "\U{2009}" + "\U{2325}\U{2009}\U{21E7}\U{2009}\U{2318}";
  }

  lemma AllGlyphs()
    ensures ModifierGlyphs(0x07) == [ControlGlyph, OptionGlyph, ShiftGlyph, CommandGlyph]
  {
    assert Pow2(3) == 8;
    assert BitSet(7, 0) && BitSet(7, 1) && BitSet(7, 2) && !BitSet(7, 3);
  }

  /** A two-label YAML path line, such as the one for File > New, reads back as its two labels. */
  lemma TwoLabelPathLine(top: string, name: string)
    requires top != [] && name != []
    requires forall c :: c in top || c in name ==> c !in {',', '[', ']', '"'}
    ensures CheatSheet.PathValue("- path: [\"" + top + "\", \"" + name + "\"]") == [top, name]
  {
    var labels := [top, name];
    forall j | 0 <= j < 2
      ensures Free(labels[j], CheatSheet.PathSeparator) && '[' !in labels[j] && ']' !in labels[j]
      ensures CheatSheet.Unquoted(labels[j])
    {
      var l := labels[j];
      assert l[0] in l && l[|l| - 1] in l;
      CharFree(l, CheatSheet.PathSeparator, ',');
    }
    CheatSheet.PathValueRoundTrip(labels);
    var quoted := CheatSheet.QuoteAll(labels);
    CheatSheet.QuoteAllPointwise(labels);
    assert quoted == [CheatSheet.Quote(top), CheatSheet.Quote(name)];
    var joined := Join(quoted, CheatSheet.PathSeparator);
    assert |quoted| == 2 && quoted[1..] == [quoted[1]];
    assert Join(quoted[1..], CheatSheet.PathSeparator) == quoted[1];
    assert joined == quoted[0] + CheatSheet.PathSeparator + quoted[1];
    assert CheatSheet.PathLine(labels) == CheatSheet.PathKey + joined + "]";
    PathLineSpelled(top, name);
  }

  /** The path line for two labels, spelled out. */
  lemma PathLineSpelled(top: string, name: string)
    ensures CheatSheet.PathKey + (CheatSheet.Quote(top) + CheatSheet.PathSeparator + CheatSheet.Quote(name)) + "]"
      == "- path: [\"" + top + "\", \"" + name + "\"]"
  {
  }

  /** An empty path list reads back as one empty label, not as no label. */
  lemma EmptyPathLine()
    ensures CheatSheet.PathValue("- path: []") == [""]
  {
    var key := CheatSheet.PathKey;
    assert "- path: []" == key + "]";
    RemoveAllPrefix(key, "]");
    CharFree("]", key, '[');
    RemoveAllAbsent("]", key);
    RemoveAllChar("]", ']');
    assert "]" == [']'];
    assert Split("", CheatSheet.PathSeparator) == [""];
    assert CheatSheet.UnquoteAll([""]) == [CheatSheet.Unquote("")];
  }
}
