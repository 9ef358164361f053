/**
 * The five built-in templates, written as pieces: literal text (with its braces
 * single, as it reads once filled) and fields naming palette slots. The Python
 * literal of each template is the `Unparse` of its pieces, so a doubled brace in
 * the source is a single brace in a `Literal` here.
 */
module Templates {
  import opened Text
  import opened Format
  import opened Palette

  /** The template stored as `alacritty.yml`. */
  const AlacrittyParts: seq<Part> := [
    Literal("# Alacritty colors - Generated by nwg-look\ncolors:\n  primary:\n    background: '"),
    Field("background"),
    Literal("'\n    foreground: '"),
    Field("foreground"),
    Literal("'\n  cursor:\n    text: '"),
    Field("background"),
    Literal("'\n    cursor: '"),
    Field("cursor"),
    Literal("'\n  normal:\n    black:   '"),
    Field("color0"),
    Literal("'\n    red:     '"),
    Field("color1"),
    Literal("'\n    green:   '"),
    Field("color2"),
    Literal("'\n    yellow:  '"),
    Field("color3"),
    Literal("'\n    blue:    '"),
    Field("color4"),
    Literal("'\n    magenta: '"),
    Field("color5"),
    Literal("'\n    cyan:    '"),
    Field("color6"),
    Literal("'\n    white:   '"),
    Field("color7"),
    Literal("'\n  bright:\n    black:   '"),
    Field("color8"),
    Literal("'\n    red:     '"),
    Field("color9"),
    Literal("'\n    green:   '"),
    Field("color10"),
    Literal("'\n    yellow:  '"),
    Field("color11"),
    Literal("'\n    blue:    '"),
    Field("color12"),
    Literal("'\n    magenta: '"),
    Field("color13"),
    Literal("'\n    cyan:    '"),
    Field("color14"),
    Literal("'\n    white:   '"),
    Field("color15"),
    Literal("'\n")
  ]

  /** The template stored as `waybar-colors.css`. */
  const WaybarParts: seq<Part> := [
    Literal("/* Waybar colors - Generated by nwg-look */\n@define-color background "),
    Field("background"),
    Literal(";\n@define-color foreground "),
    Field("foreground"),
    Literal(";\n@define-color color0 "),
    Field("color0"),
    Literal(";\n@define-color color1 "),
    Field("color1"),
    Literal(";\n@define-color color2 "),
    Field("color2"),
    Literal(";\n@define-color color3 "),
    Field("color3"),
    Literal(";\n@define-color color4 "),
    Field("color4"),
    Literal(";\n@define-color color5 "),
    Field("color5"),
    Literal(";\n@define-color color6 "),
    Field("color6"),
    Literal(";\n@define-color color7 "),
    Field("color7"),
    Literal(";\n@define-color color8 "),
    Field("color8"),
    Literal(";\n\nwindow#waybar {\n    background-color: @background;\n    color: @foreground;\n}\n")
  ]

  /** The template stored as `kitty.conf`. */
  const KittyParts: seq<Part> := [
    Literal("# Kitty colors - Generated by nwg-look\nforeground "),
    Field("foreground"),
    Literal("\nbackground "),
    Field("background"),
    Literal("\ncursor "),
    Field("cursor"),
    Literal("\n\ncolor0 "),
    Field("color0"),
    Literal("\ncolor1 "),
    Field("color1"),
    Literal("\ncolor2 "),
    Field("color2"),
    Literal("\ncolor3 "),
    Field("color3"),
    Literal("\ncolor4 "),
    Field("color4"),
    Literal("\ncolor5 "),
    Field("color5"),
    Literal("\ncolor6 "),
    Field("color6"),
    Literal("\ncolor7 "),
    Field("color7"),
    Literal("\ncolor8 "),
    Field("color8"),
    Literal("\ncolor9 "),
    Field("color9"),
    Literal("\ncolor10 "),
    Field("color10"),
    Literal("\ncolor11 "),
    Field("color11"),
    Literal("\ncolor12 "),
    Field("color12"),
    Literal("\ncolor13 "),
    Field("color13"),
    Literal("\ncolor14 "),
    Field("color14"),
    Literal("\ncolor15 "),
    Field("color15"),
    Literal("\n")
  ]

  /** The template stored as `rofi-colors.rasi`. */
  const RofiParts: seq<Part> := [
    Literal("/* Rofi colors - Generated by nwg-look */\n* {\n    background: "),
    Field("background"),
    Literal(";\n    foreground: "),
    Field("foreground"),
    Literal(";\n    selected: "),
    Field("color4"),
    Literal(";\n    active: "),
    Field("color2"),
    Literal(";\n    urgent: "),
    Field("color1"),
    Literal(";\n}\n")
  ]

  /** The template stored as `dunst.conf`. */
  const DunstParts: seq<Part> := [
    Literal("# Dunst colors - Generated by nwg-look\n[global]\n    background = \""),
    Field("background"),
    Literal("\"\n    foreground = \""),
    Field("foreground"),
    Literal("\"\n    \n[urgency_low]\n    background = \""),
    Field("background"),
    Literal("\"\n    foreground = \""),
    Field("foreground"),
    Literal("\"\n\n[urgency_normal]\n    background = \""),
    Field("color4"),
    Literal("\"\n    foreground = \""),
    Field("foreground"),
    Literal("\"\n\n[urgency_critical]\n    background = \""),
    Field("color1"),
    Literal("\"\n    foreground = \""),
    Field("foreground"),
    Literal("\"\n")
  ]

  /** The five templates, in the order they are seeded and applied. */
  const BuiltIn: seq<seq<Part>> := [AlacrittyParts, WaybarParts, KittyParts, RofiParts, DunstParts]

  /** Every field of `parts` names a palette slot. */
  predicate UsesPaletteSlots(parts: seq<Part>) {
    forall i :: 0 <= i < |parts| && parts[i].Field? ==> parts[i].name in Defaults
  }

  /** A name that starts with something other than a digit and is made of word characters is a plain keyword field. */
  lemma WordName(name: string)
    requires name != [] && !IsDigit(name[0]) && AllChars(name, IsWordChar)
    ensures IsKeywordName(name)
  {
    assert !IsDigit(name[0]);
  }

  /** The first ten slot names are plain keyword fields. */
  lemma FirstSlotNames()
    ensures forall name | name in {"background", "foreground", "cursor", "color0", "color1", "color2", "color3", "color4", "color5", "color6"} :: IsKeywordName(name)
  {
    forall name | name in {"background", "foreground", "cursor", "color0", "color1", "color2", "color3", "color4", "color5", "color6"} ensures IsKeywordName(name) {
      WordName(name);
    }
  }

  /** The last nine slot names are plain keyword fields. */
  lemma LastSlotNames()
    ensures forall name | name in {"color7", "color8", "color9", "color10", "color11", "color12", "color13", "color14", "color15"} :: IsKeywordName(name)
  {
    forall name | name in {"color7", "color8", "color9", "color10", "color11", "color12", "color13", "color14", "color15"} ensures IsKeywordName(name) {
      WordName(name);
    }
  }

  /** Every slot name can be used as a plain keyword field. */
  lemma SlotNamesAreKeywords()
    ensures forall name :: name in Defaults ==> IsKeywordName(name)
  {
    FirstSlotNames();
    LastSlotNames();
  }

  /** Pieces that use palette slots are well formed, and their field names are slots. */
  lemma PaletteSlotsWellFormed(parts: seq<Part>)
    requires UsesPaletteSlots(parts)
    ensures WellFormed(parts)
    ensures FieldNames(parts) <= Defaults.Keys
  {
    SlotNamesAreKeywords();
  }

  /** The Alacritty template refers only to palette slots. */
  lemma AlacrittySlots()
    ensures UsesPaletteSlots(AlacrittyParts)
  {
  }

  /** The Waybar template refers only to palette slots. */
  lemma WaybarSlots()
    ensures UsesPaletteSlots(WaybarParts)
  {
  }

  /** The Kitty template refers only to palette slots. */
  lemma KittySlots()
    ensures UsesPaletteSlots(KittyParts)
  {
  }

  /** The Rofi template refers only to palette slots. */
  lemma RofiSlots()
    ensures UsesPaletteSlots(RofiParts)
  {
  }

  /** The Dunst template refers only to palette slots. */
  lemma DunstSlots()
    ensures UsesPaletteSlots(DunstParts)
  {
  }

  /** Every built-in template refers only to palette slots. */
  lemma BuiltInSlots()
    ensures forall k :: 0 <= k < |BuiltIn| ==> UsesPaletteSlots(BuiltIn[k])
  {
    AlacrittySlots();
    WaybarSlots();
    KittySlots();
    RofiSlots();
    DunstSlots();
  }

  /**
   * Filling a built-in template with any map that has every palette slot never
   * fails, and gives the template's text with each field replaced by its value.
   */
  lemma FillBuiltIn(k: nat, kwargs: map<string, string>)
    requires k < |BuiltIn| && Defaults.Keys <= kwargs.Keys
    ensures Fill(Unparse(BuiltIn[k]), kwargs).Ok?
    ensures Fill(Unparse(BuiltIn[k]), kwargs) == Render(BuiltIn[k], kwargs)
  {
    BuiltInSlots();
    PaletteSlotsWellFormed(BuiltIn[k]);
    FillSucceeds(BuiltIn[k], kwargs);
    FillUnparse(BuiltIn[k], kwargs);
  }
}
