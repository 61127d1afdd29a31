/**
 * Shortcut decoding of menudump.swift: a menu item's raw key equivalent
 * (literal character, modifier mask, virtual key code) becomes a glyph string
 * such as "⌃ ⌘N" (the glyphs separated by a thin space).
 */
module Shortcuts {
  import opened Wrappers
  import opened Strings

  /** `virtualKeys`: the named keys, by macOS virtual key code. */
  const VirtualKeys: map<int, string> := map[
    0x24 := "\U{21A9}",          // Return
    0x4c := "\U{2324}",          // keypad Enter
    0x47 := "\U{2327}",          // keypad Clear
    0x30 := "\U{21E5}",          // Tab
    0x31 := "\U{2423}",          // Space
    0x33 := "\U{232B}",          // Delete
    0x35 := "\U{238B}",          // Escape
    0x39 := "\U{21EA}",          // Caps Lock
    0x3f := "fn",                // Function
    0x7a := "F1",
    0x78 := "F2",
    0x63 := "F3",
    0x76 := "F4",
    0x60 := "F5",
    0x61 := "F6",
    0x62 := "F7",
    0x64 := "F8",
    0x65 := "F9",
    0x6d := "F10",
    0x67 := "F11",
    0x6f := "F12",
    0x69 := "F13",
    0x6b := "F14",
    0x71 := "F15",
    0x6a := "F16",
    0x40 := "F17",
    0x4f := "F18",
    0x50 := "F19",
    0x5a := "F20",
    0x73 := "\U{2196}",          // Home
    0x74 := "\U{21DE}",          // Page Up
    0x75 := "\U{2326}",          // Forward Delete
    0x77 := "\U{2198}",          // End
    0x79 := "\U{21DF}",          // Page Down
    0x7b := "\U{25C0}\U{FE0E}",  // Left Arrow (text presentation)
    0x7c := "\U{25B6}\U{FE0E}",  // Right Arrow (text presentation)
    0x7d := "\U{25BC}",          // Down Arrow
    0x7e := "\U{25B2}"           // Up Arrow
  ]

  /** `halfWidthSpace`: U+2009 THIN SPACE, between modifier glyphs. */
  const ThinSpace: string := "\U{2009}"

  const ControlGlyph: string := "\U{2303}"
  const OptionGlyph: string := "\U{2325}"
  const ShiftGlyph: string := "\U{21E7}"
  const CommandGlyph: string := "\U{2318}"
  /** Shown for a literal whose first scalar is DEL. */
  const ForwardDeleteGlyph: string := "\U{2326}"

  /** The modifier mask that means "the fn key alone". */
  const FunctionOnly: int := 0x18
  /** The ASCII DEL control character, U+007F. */
  const Del: char := '\U{7F}'

  function Pow2(k: nat): (p: nat)
    ensures p >= 1
  {
    if k == 0 then 1 else 2 * Pow2(k - 1)
  }

  /**
   * Bit `k` of `m` in two's complement, so that `(m & 2^k) != 0` for a Swift
   * `Int`: Dafny's `/` by a positive divisor rounds down, also for negative `m`.
   */
  predicate BitSet(m: int, k: nat)
  {
    (m / Pow2(k)) % 2 == 1
  }

  /** Position of a modifier glyph in the fixed display order (4 for anything else). */
  function Rank(g: string): nat
  {
    if g == ControlGlyph then 0
    else if g == OptionGlyph then 1
    else if g == ShiftGlyph then 2
    else if g == CommandGlyph then 3
    else 4
  }

  /** Modifier glyphs only, each at most once, in the order ⌃, ⌥, ⇧, ⌘. */
  predicate InDisplayOrder(gs: seq<string>)
  {
    && (forall i :: 0 <= i < |gs| ==> Rank(gs[i]) < 4)
    && (forall i, j :: 0 <= i < j < |gs| ==> Rank(gs[i]) < Rank(gs[j]))
  }

  /**
   * The glyphs of the modifiers held in mask `m`: Control, Option and Shift
   * when their bits (0x04, 0x02, 0x01) are set, Command when its bit (0x08)
   * is clear, always in display order.
   */
  function ModifierGlyphs(m: int): seq<string>
  {
    HeldGlyphs(BitSet(m, 2), BitSet(m, 1), BitSet(m, 0), !BitSet(m, 3))
  }

  /** The glyphs of the held modifiers, in display order. */
  function HeldGlyphs(control: bool, option: bool, shift: bool, command: bool): seq<string>
  {
    Add(Add(Add(Add([], control, ControlGlyph), option, OptionGlyph), shift, ShiftGlyph), command, CommandGlyph)
  }

  /** Each glyph is listed exactly when its modifier is held. */
  lemma HeldGlyphsExact(control: bool, option: bool, shift: bool, command: bool)
    ensures ControlGlyph in HeldGlyphs(control, option, shift, command) <==> control
    ensures OptionGlyph in HeldGlyphs(control, option, shift, command) <==> option
    ensures ShiftGlyph in HeldGlyphs(control, option, shift, command) <==> shift
    ensures CommandGlyph in HeldGlyphs(control, option, shift, command) <==> command
  {
    GlyphsDistinct();
  }

  /** The held glyphs are listed in display order. */
  lemma HeldGlyphsOrdered(control: bool, option: bool, shift: bool, command: bool)
    ensures InDisplayOrder(HeldGlyphs(control, option, shift, command))
  {
    GlyphRanks();
    var g0 := Add([], control, ControlGlyph);
    var g1 := Add(g0, option, OptionGlyph);
    var g2 := Add(g1, shift, ShiftGlyph);
    AddOrdered([], control, ControlGlyph);
    AddOrdered(g0, option, OptionGlyph);
    AddOrdered(g1, shift, ShiftGlyph);
    AddOrdered(g2, command, CommandGlyph);
  }

  /** The four modifier glyphs differ. */
  lemma GlyphsDistinct()
    ensures ControlGlyph != OptionGlyph && ControlGlyph != ShiftGlyph && ControlGlyph != CommandGlyph
    ensures OptionGlyph != ShiftGlyph && OptionGlyph != CommandGlyph && ShiftGlyph != CommandGlyph
  {
    GlyphRanks();
  }

  /** `gs` with `g` appended when `held`. */
  function Add(gs: seq<string>, held: bool, g: string): (r: seq<string>)
    ensures forall x :: x in r <==> x in gs || (held && x == g)
  {
    gs + (if held then [g] else [])
  }

  /** Every glyph of the list ranks below `k`. */
  predicate RanksBelow(gs: seq<string>, k: nat)
  {
    forall i :: 0 <= i < |gs| ==> Rank(gs[i]) < k
  }

  /** Appending a glyph that outranks every listed one keeps the list in display order. */
  lemma AddOrdered(gs: seq<string>, held: bool, g: string)
    requires InDisplayOrder(gs) && Rank(g) < 4 && RanksBelow(gs, Rank(g))
    ensures InDisplayOrder(Add(gs, held, g)) && RanksBelow(Add(gs, held, g), Rank(g) + 1)
  {
  }

  /** Each glyph is listed exactly when its modifier is held, in display order. */
  lemma ModifierGlyphsHeld(m: int)
    ensures ControlGlyph in ModifierGlyphs(m) <==> BitSet(m, 2)
    ensures OptionGlyph in ModifierGlyphs(m) <==> BitSet(m, 1)
    ensures ShiftGlyph in ModifierGlyphs(m) <==> BitSet(m, 0)
    ensures CommandGlyph in ModifierGlyphs(m) <==> !BitSet(m, 3)
    ensures InDisplayOrder(ModifierGlyphs(m))
  {
    HeldGlyphsExact(BitSet(m, 2), BitSet(m, 1), BitSet(m, 0), !BitSet(m, 3));
    HeldGlyphsOrdered(BitSet(m, 2), BitSet(m, 1), BitSet(m, 0), !BitSet(m, 3));
  }

  /** The four modifier glyphs rank 0 to 3 in display order. */
  lemma GlyphRanks()
    ensures Rank(ControlGlyph) == 0 && Rank(OptionGlyph) == 1 && Rank(ShiftGlyph) == 2 && Rank(CommandGlyph) == 3
  {
    assert OptionGlyph[0] != ControlGlyph[0];
    assert ShiftGlyph[0] != ControlGlyph[0] && ShiftGlyph[0] != OptionGlyph[0];
    assert CommandGlyph[0] != ControlGlyph[0] && CommandGlyph[0] != OptionGlyph[0] && CommandGlyph[0] != ShiftGlyph[0];
  }

  /** What `decodeModifiers` returns: "fn" for the fn-only mask, else the held glyphs joined by a thin space. */
  function ModifierString(m: int): string
  {
    if m == FunctionOnly then "fn" else Join(ModifierGlyphs(m), ThinSpace)
  }

  /** `decodeModifiers`: collects the held modifiers in display order and joins them. */
  method DecodeModifiers(modifiers: int) returns (r: string)
    ensures r == ModifierString(modifiers)
  {
    if modifiers == FunctionOnly {
      return "fn";
    }
    var result: seq<string> := [];
    if BitSet(modifiers, 2) {
      result := result + [ControlGlyph];
    }
    if BitSet(modifiers, 1) {
      result := result + [OptionGlyph];
    }
    if BitSet(modifiers, 0) {
      result := result + [ShiftGlyph];
    }
    if !BitSet(modifiers, 3) {
      result := result + [CommandGlyph];
    }
    assert result == ModifierGlyphs(modifiers);
    r := Join(result, ThinSpace);
  }

  /** A one-character modifier glyph is in a joined display-ordered list exactly when it is one of its entries. */
  lemma GlyphInJoin(gs: seq<string>, g: string)
    requires InDisplayOrder(gs)
    requires Rank(g) < 4
    ensures g[0] in Join(gs, ThinSpace) <==> g in gs
  {
    InJoin(gs, ThinSpace, g[0]);
    assert g[0] !in ThinSpace;
    assert forall i :: 0 <= i < |gs| ==> (g[0] in gs[i] <==> gs[i] == g) by {
      forall i | 0 <= i < |gs| ensures g[0] in gs[i] <==> gs[i] == g {
        assert Rank(gs[i]) < 4;
      }
    }
  }

  /**
   * Outside the fn-only mask, each modifier glyph character appears in the
   * decoded string exactly when that modifier is held (Command: bit 0x08 clear).
   */
  lemma ModifierStringShowsHeld(m: int)
    requires m != FunctionOnly
    ensures ControlGlyph[0] in ModifierString(m) <==> BitSet(m, 2)
    ensures OptionGlyph[0] in ModifierString(m) <==> BitSet(m, 1)
    ensures ShiftGlyph[0] in ModifierString(m) <==> BitSet(m, 0)
    ensures CommandGlyph[0] in ModifierString(m) <==> !BitSet(m, 3)
  {
    ModifierGlyphsHeld(m);
    GlyphRanks();
    GlyphShown(m, ControlGlyph);
    GlyphShown(m, OptionGlyph);
    GlyphShown(m, ShiftGlyph);
    GlyphShown(m, CommandGlyph);
  }

  /** A modifier glyph character is in the decoded string exactly when the glyph is listed. */
  lemma GlyphShown(m: int, g: string)
    requires m != FunctionOnly && Rank(g) < 4
    ensures g[0] in ModifierString(m) <==> g in ModifierGlyphs(m)
  {
    HeldGlyphsOrdered(BitSet(m, 2), BitSet(m, 1), BitSet(m, 0), !BitSet(m, 3));
    GlyphInJoin(ModifierGlyphs(m), g);
  }

  /** The decoded modifiers are empty exactly for a mask with Command's bit set and no other modifier bit. */
  lemma ModifierStringEmpty(m: int)
    ensures ModifierString(m) == "" <==>
      m != FunctionOnly && BitSet(m, 3) && !BitSet(m, 2) && !BitSet(m, 1) && !BitSet(m, 0)
  {
    var gs := ModifierGlyphs(m);
    ModifierGlyphsHeld(m);
    if m != FunctionOnly && |gs| >= 1 {
      assert Join(gs, ThinSpace) == if |gs| == 1 then gs[0] else gs[0] + ThinSpace + Join(gs[1..], ThinSpace);
      assert |gs[0]| >= 1 by {
        assert Rank(gs[0]) < 4;
      }
    }
  }

  /**
   * The key glyph `getShortcut` settles on: the forward-delete glyph for a
   * literal starting with DEL, else the named key of the virtual key code,
   * else the literal itself (possibly absent).
   */
  function KeyGlyph(cmd: Option<string>, virtualKey: int): Option<string>
  {
    if cmd.Some? && |cmd.value| > 0 && cmd.value[0] == Del then Some(ForwardDeleteGlyph)
    else if virtualKey in VirtualKeys then Some(VirtualKeys[virtualKey])
    else cmd
  }

  /** What `getShortcut` returns: the decoded modifiers followed by the key glyph, or "" without a key. */
  function Shortcut(cmd: Option<string>, modifiers: int, virtualKey: int): string
  {
    match KeyGlyph(cmd, virtualKey)
    case Some(key) => ModifierString(modifiers) + key
    case None => ""
  }

  /** `getShortcut`. */
  method GetShortcut(cmd: Option<string>, modifiers: int, virtualKey: int) returns (r: string)
    ensures r == Shortcut(cmd, modifiers, virtualKey)
  {
    var shortcut := cmd;
    if shortcut.Some? && |shortcut.value| > 0 && shortcut.value[0] == Del {
      shortcut := Some(ForwardDeleteGlyph);
    } else if virtualKey in VirtualKeys {
      shortcut := Some(VirtualKeys[virtualKey]);
    }
    var mods := DecodeModifiers(modifiers);
    if shortcut.Some? {
      return mods + shortcut.value;
    }
    return "";
  }

  /** Every named key has a non-empty glyph. */
  lemma NamedKeysNonEmpty(vk: int)
    requires vk in VirtualKeys
    ensures |VirtualKeys[vk]| >= 1
  {
  }

  /**
   * The key glyph decides the shape of the shortcut: DEL beats the table, the
   * table beats the literal, and the decoded modifiers always come first.
   */
  lemma ShortcutCases(cmd: Option<string>, m: int, vk: int)
    ensures cmd.Some? && |cmd.value| > 0 && cmd.value[0] == Del ==>
      Shortcut(cmd, m, vk) == ModifierString(m) + ForwardDeleteGlyph
    ensures !(cmd.Some? && |cmd.value| > 0 && cmd.value[0] == Del) && vk in VirtualKeys ==>
      Shortcut(cmd, m, vk) == ModifierString(m) + VirtualKeys[vk]
    ensures !(cmd.Some? && |cmd.value| > 0 && cmd.value[0] == Del) && vk !in VirtualKeys && cmd.Some? ==>
      Shortcut(cmd, m, vk) == ModifierString(m) + cmd.value
    ensures cmd.None? && vk !in VirtualKeys ==> Shortcut(cmd, m, vk) == ""
  {
  }

  /**
   * A shortcut is empty only without a key (no literal, no named key) or with
   * an empty literal and no modifier to show.
   */
  lemma ShortcutEmpty(cmd: Option<string>, m: int, vk: int)
    ensures Shortcut(cmd, m, vk) == "" <==>
      vk !in VirtualKeys && (cmd.None? || (cmd == Some("") && ModifierString(m) == ""))
  {
    if vk in VirtualKeys {
      NamedKeysNonEmpty(vk);
    }
  }
}
