/**
 * `extract_colors` once the stylesheet has been read: the declarations are
 * scanned, their references resolved and the standard palette built; and the
 * fill of `apply_colors`, which formats each template with that palette.
 */
module Pipeline {
  import opened Results
  import opened Scanner
  import opened Resolver
  import opened Palette
  import opened Format
  import opened Templates

  /** The palette `extract_colors` builds from the stylesheet text `content`. */
  function ThemePalette(content: string): map<string, string> {
    StandardPalette(Resolved(DeclarationTable(content)))
  }

  /** The body of `extract_colors` after the file has been read. */
  method ExtractColors(content: string) returns (palette: map<string, string>)
    ensures palette == ThemePalette(content)
    ensures palette.Keys == Defaults.Keys
  {
    var colors := ExtractDeclarations(content);
    var resolved := ResolveColorReferences(colors);
    palette := GenerateStandardPalette(resolved);
  }

  /**
   * Resolving changes nothing on what the scanner stores, since no stored value holds
   * an `@`: the palette is built straight from the scanned declarations.
   */
  lemma ThemePaletteFromDeclarations(content: string)
    ensures ThemePalette(content) == StandardPalette(DeclarationTable(content).values)
  {
    DeclarationValuesClean(content);
    ResolvedWithoutReferences(DeclarationTable(content));
  }

  /** The palette is never empty, whatever the stylesheet holds. */
  lemma ThemePaletteNotEmpty(content: string)
    ensures ThemePalette(content) != map[]
  {
    assert "background" in Defaults;
  }

  /** `template.format(**colors)` for each of the five built-in templates, with the palette of a stylesheet. */
  function ApplyColors(content: string): (outputs: seq<Result<string, FillError>>)
    ensures |outputs| == |BuiltIn|
    ensures forall k :: 0 <= k < |BuiltIn| ==> outputs[k].Ok? && outputs[k] == Render(BuiltIn[k], ThemePalette(content))
  {
    var palette := ThemePalette(content);
    var outputs := seq(|BuiltIn|, k requires 0 <= k < |BuiltIn| => Fill(Unparse(BuiltIn[k]), palette));
    forall k | 0 <= k < |BuiltIn| ensures outputs[k].Ok? && outputs[k] == Render(BuiltIn[k], palette) {
      FillBuiltIn(k, palette);
    }
    outputs
  }
}
