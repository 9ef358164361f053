/**
 * `_generate_standard_palette`: nineteen slots start at fixed defaults, and the
 * nine GTK theme colours of the mapping, taken in their listed order, overwrite
 * their slot with their normalised value whenever they are present. Several
 * theme colours share a slot, so the last present one in the list wins.
 */
module Palette {
  import opened Results
  import opened Text
  import opened Normalizer

  /** The nineteen slots of the standard palette and their default values. */
  const Defaults: map<string, string> := map[
    "background" := "#1e1e1e",
    "foreground" := "#d4d4d4",
    "cursor" := "#d4d4d4",
    "color0" := "#000000",
    "color1" := "#cd3131",
    "color2" := "#0dbc79",
    "color3" := "#e5e510",
    "color4" := "#2472c8",
    "color5" := "#bc3fbc",
    "color6" := "#11a8cd",
    "color7" := "#e5e5e5",
    "color8" := "#666666",
    "color9" := "#f14c4c",
    "color10" := "#23d18b",
    "color11" := "#f5f543",
    "color12" := "#3b8eea",
    "color13" := "#d670d6",
    "color14" := "#29b8db",
    "color15" := "#e5e5e5"
  ]

  /** A theme colour and the slot it fills. */
  datatype Link = Link(gtk: string, slot: string)

  /** The mapping from theme colours to slots, in the order it is applied. */
  const Mapping: seq<Link> := [
    Link("theme_bg_color", "background"),
    Link("theme_fg_color", "foreground"),
    Link("theme_base_color", "background"),
    Link("theme_text_color", "foreground"),
    Link("theme_selected_bg_color", "color4"),
    Link("theme_selected_fg_color", "foreground"),
    Link("warning_color", "color3"),
    Link("error_color", "color1"),
    Link("success_color", "color2")
  ]

  /** Every link of the mapping fills a slot of `base`. */
  predicate HasAllSlots(base: map<string, string>) {
    forall i :: 0 <= i < |Mapping| ==> Mapping[i].slot in base
  }

  /** The palette after the first `n` links of the mapping have been applied to `colors`, starting from `base`. */
  function PaletteAfter(base: map<string, string>, colors: map<string, string>, n: nat): (p: map<string, string>)
    requires n <= |Mapping| && HasAllSlots(base)
    ensures p.Keys == base.Keys
  {
    if n == 0 then base
    else
      var p := PaletteAfter(base, colors, n - 1);
      var link := Mapping[n - 1];
      if link.gtk in colors then p[link.slot := Normalize(colors[link.gtk])] else p
  }

  /** Every link of the mapping fills one of the nineteen slots. */
  lemma MappingSlots()
    ensures HasAllSlots(Defaults)
  {
  }

  /** The palette `_generate_standard_palette` returns for the theme colours `colors`. */
  function StandardPalette(colors: map<string, string>): (p: map<string, string>)
    ensures p.Keys == Defaults.Keys
  {
    MappingSlots();
    PaletteAfter(Defaults, colors, |Mapping|)
  }

  /** `_generate_standard_palette(colors)`. */
  method GenerateStandardPalette(colors: map<string, string>) returns (palette: map<string, string>)
    ensures palette == StandardPalette(colors)
  {
    MappingSlots();
    palette := Defaults;
    for i := 0 to |Mapping|
      invariant palette == PaletteAfter(Defaults, colors, i)
    {
      var link := Mapping[i];
      if link.gtk in colors {
        palette := palette[link.slot := Normalize(colors[link.gtk])];
      }
    }
  }

  /**
   * The reference definition of a slot: the index of the last link among the first
   * `n` whose slot is `slot` and whose theme colour is present, if there is one.
   */
  function LastSource(colors: map<string, string>, slot: string, n: nat): (r: Option<nat>)
    requires n <= |Mapping|
    ensures r.Some? ==> r.value < n && Mapping[r.value].slot == slot && Mapping[r.value].gtk in colors
    ensures r.Some? ==> forall i :: r.value < i < n ==> !(Mapping[i].slot == slot && Mapping[i].gtk in colors)
    ensures r.None? ==> forall i :: 0 <= i < n ==> !(Mapping[i].slot == slot && Mapping[i].gtk in colors)
  {
    if n == 0 then None
    else if Mapping[n - 1].slot == slot && Mapping[n - 1].gtk in colors then Some(n - 1)
    else LastSource(colors, slot, n - 1)
  }

  /** The value a slot ends up with: the normalised value of its last present source, or its value in `base`. */
  function SlotValue(base: map<string, string>, colors: map<string, string>, slot: string, n: nat): string
    requires n <= |Mapping| && slot in base
  {
    match LastSource(colors, slot, n)
    case Some(i) => Normalize(colors[Mapping[i].gtk])
    case None => base[slot]
  }

  /** Each slot of the palette holds the normalised value of its last present source, or its starting value if none is present. */
  lemma {:induction false} PaletteAfterSlot(base: map<string, string>, colors: map<string, string>, slot: string, n: nat)
    requires n <= |Mapping| && HasAllSlots(base) && slot in base
    ensures PaletteAfter(base, colors, n)[slot] == SlotValue(base, colors, slot, n)
  {
    if n > 0 {
      PaletteAfterSlot(base, colors, slot, n - 1);
      var link := Mapping[n - 1];
      if link.gtk in colors && link.slot == slot {
        assert LastSource(colors, slot, n) == Some(n - 1);
        assert PaletteAfter(base, colors, n)[slot] == Normalize(colors[link.gtk]);
      } else {
        assert LastSource(colors, slot, n) == LastSource(colors, slot, n - 1);
        assert PaletteAfter(base, colors, n)[slot] == PaletteAfter(base, colors, n - 1)[slot];
      }
    }
  }

  /** The palette's slots, stated by the reference definition. */
  lemma PaletteSlot(colors: map<string, string>, slot: string)
    requires slot in Defaults
    ensures StandardPalette(colors)[slot] == SlotValue(Defaults, colors, slot, |Mapping|)
  {
    MappingSlots();
    PaletteAfterSlot(Defaults, colors, slot, |Mapping|);
  }

  /** The slots no theme colour maps to. */
  predicate FixedSlot(slot: string) {
    slot in Defaults && slot !in {"background", "foreground", "color1", "color2", "color3", "color4"}
  }

  /** `cursor`, `color0` and `color5` to `color15` keep their defaults for every input. */
  lemma FixedSlotsKeepDefaults(colors: map<string, string>, slot: string)
    requires FixedSlot(slot)
    ensures StandardPalette(colors)[slot] == Defaults[slot]
  {
    PaletteSlot(colors, slot);
    assert forall i :: 0 <= i < |Mapping| ==> Mapping[i].slot != slot;
  }

  /** An empty theme gives exactly the defaults. */
  lemma EmptyThemeDefaults()
    ensures StandardPalette(map[]) == Defaults
  {
    var p := StandardPalette(map[]);
    forall slot | slot in Defaults ensures p[slot] == Defaults[slot] {
      PaletteSlot(map[], slot);
    }
  }

  /** The links of the mapping, one by one. */
  lemma MappingLinks()
    ensures |Mapping| == 9
    ensures Mapping[0] == Link("theme_bg_color", "background")
    ensures Mapping[1] == Link("theme_fg_color", "foreground")
    ensures Mapping[2] == Link("theme_base_color", "background")
    ensures Mapping[3] == Link("theme_text_color", "foreground")
    ensures Mapping[4] == Link("theme_selected_bg_color", "color4")
    ensures Mapping[5] == Link("theme_selected_fg_color", "foreground")
    ensures Mapping[6] == Link("warning_color", "color3")
    ensures Mapping[7] == Link("error_color", "color1")
    ensures Mapping[8] == Link("success_color", "color2")
  {
  }

  /** Links that fill other slots do not change which source a slot takes. */
  lemma {:induction false} LastSourceSkip(colors: map<string, string>, slot: string, lo: nat, hi: nat)
    requires lo <= hi <= |Mapping|
    requires forall i :: lo <= i < hi ==> Mapping[i].slot != slot
    ensures LastSource(colors, slot, hi) == LastSource(colors, slot, lo)
    decreases hi
  {
    if lo < hi {
      LastSourceSkip(colors, slot, lo, hi - 1);
    }
  }

  /** A slot filled by the single link at index `k`, and by no other, takes that link's colour when it is present. */
  lemma SingleSource(colors: map<string, string>, k: nat)
    requires k < |Mapping| && Mapping[k].slot in Defaults
    requires forall i :: 0 <= i < |Mapping| && i != k ==> Mapping[i].slot != Mapping[k].slot
    ensures StandardPalette(colors)[Mapping[k].slot] ==
      if Mapping[k].gtk in colors then Normalize(colors[Mapping[k].gtk]) else Defaults[Mapping[k].slot]
  {
    var slot := Mapping[k].slot;
    PaletteSlot(colors, slot);
    LastSourceSkip(colors, slot, k + 1, |Mapping|);
    LastSourceSkip(colors, slot, 0, k);
  }

  /** `background` comes from `theme_base_color` if present, else from `theme_bg_color`, else its default. */
  lemma BackgroundPrecedence(colors: map<string, string>)
    ensures StandardPalette(colors)["background"] ==
      if "theme_base_color" in colors then Normalize(colors["theme_base_color"])
      else if "theme_bg_color" in colors then Normalize(colors["theme_bg_color"])
      else "#1e1e1e"
  {
    MappingLinks();
    PaletteSlot(colors, "background");
    LastSourceSkip(colors, "background", 3, 9);
    assert LastSource(colors, "background", 1) == LastSource(colors, "background", 2);
  }

  /**
   * `foreground` comes from `theme_selected_fg_color` if present, else from
   * `theme_text_color`, else from `theme_fg_color`, else its default.
   */
  lemma ForegroundPrecedence(colors: map<string, string>)
    ensures StandardPalette(colors)["foreground"] ==
      if "theme_selected_fg_color" in colors then Normalize(colors["theme_selected_fg_color"])
      else if "theme_text_color" in colors then Normalize(colors["theme_text_color"])
      else if "theme_fg_color" in colors then Normalize(colors["theme_fg_color"])
      else "#d4d4d4"
  {
    MappingLinks();
    PaletteSlot(colors, "foreground");
    LastSourceSkip(colors, "foreground", 6, 9);
    LastSourceSkip(colors, "foreground", 4, 5);
    LastSourceSkip(colors, "foreground", 2, 3);
    LastSourceSkip(colors, "foreground", 0, 1);
  }

  /** `color4` has `theme_selected_bg_color` as its only source. */
  lemma SelectedBackgroundSlot(colors: map<string, string>)
    ensures StandardPalette(colors)["color4"] ==
      if "theme_selected_bg_color" in colors then Normalize(colors["theme_selected_bg_color"]) else "#2472c8"
  {
    MappingLinks();
    SingleSource(colors, 4);
  }

  /** `color3` has `warning_color` as its only source. */
  lemma WarningSlot(colors: map<string, string>)
    ensures StandardPalette(colors)["color3"] ==
      if "warning_color" in colors then Normalize(colors["warning_color"]) else "#e5e510"
  {
    MappingLinks();
    SingleSource(colors, 6);
  }

  /** `color1` has `error_color` as its only source. */
  lemma ErrorSlot(colors: map<string, string>)
    ensures StandardPalette(colors)["color1"] ==
      if "error_color" in colors then Normalize(colors["error_color"]) else "#cd3131"
  {
    MappingLinks();
    SingleSource(colors, 7);
  }

  /** `color2` has `success_color` as its only source. */
  lemma SuccessSlot(colors: map<string, string>)
    ensures StandardPalette(colors)["color2"] ==
      if "success_color" in colors then Normalize(colors["success_color"]) else "#0dbc79"
  {
    MappingLinks();
    SingleSource(colors, 8);
  }

  /**
   * A theme colour stored as the empty string (a value of blanks only) empties its slot:
   * with `theme_bg_color` empty and no `theme_base_color`, `background` is empty.
   */
  lemma BlankBackground(colors: map<string, string>)
    requires "theme_bg_color" in colors && colors["theme_bg_color"] == ""
    requires "theme_base_color" !in colors
    ensures StandardPalette(colors)["background"] == ""
  {
    BackgroundPrecedence(colors);
    StripTrimmed("");
  }

  /** Every value of the palette is free of surrounding whitespace. */
  lemma PaletteTrimmed(colors: map<string, string>, slot: string)
    requires slot in Defaults
    ensures IsTrimmed(StandardPalette(colors)[slot])
  {
    PaletteSlot(colors, slot);
  }
}
