# Colour-scheme extraction from GTK themes

This project models the colour pipeline of the GTK theme colour extractor,
`colorextractor.go` in the repository (Python source despite its extension).
It is modelled in Dafny, and the model's properties are proved.

The model follows the steps from the text of a theme's `gtk.css` to the five
configuration files:

1. `Scanner` covers the two regular-expression scans of `extract_colors`.
   - One scan finds `@define-color name value;` and the other `--word-word: value;`.
   - Each scan is a left-to-right `findall`.
   - Each value is stripped and stored in a table that keeps Python's dict insertion order.
   - The method `ExtractDeclarations` runs the two storing loops. It is proved against the function `DeclarationTable`.
2. `Resolver` covers `_resolve_color_references`.
   - At most ten passes run over the table. Each pass visits the names in insertion order.
   - A visit rewrites the table in place, replacing every occurrence of the first `@ref`. It sets the `changed` flag. A value with no resolvable reference goes into the separate `resolved` dict.
   - The method `ResolveColorReferences` holds the outer loop and `ResolvePass` the inner one. Both are proved against the functions `Resolved` and `Pass`.
3. `Normalizer` covers `_normalize_color`.
   - The value is stripped. A value starting with `#` is kept.
   - Otherwise, when a case-insensitive test finds `rgb`, the first match of the case-sensitive pattern `rgba?\((\d+),\s*(\d+),\s*(\d+)` becomes `#rrggbb`. Each component is written in lower-case hex, padded to at least two digits.
4. `Palette` covers `_generate_standard_palette`.
   - The palette starts from the nineteen default slots.
   - The nine theme colours of the mapping then overwrite their slots in listed order.
   - The method `GenerateStandardPalette` holds the loop. It is proved against `StandardPalette`, and each slot is characterised by the reference definition `SlotValue`.
5. `Format` covers the part of `str.format(**colors)` that the templates rely on: literal text, `{{` and `}}`, and `{name}` fields. Every other use of the format language is reported as an error, in left-to-right order.
6. `Templates` holds the five built-in templates as sequences of pieces. `Pipeline` composes scanning, resolution and the palette, as `extract_colors` does after reading the file. It also fills the five templates, as `apply_colors` does.

Characters are treated as ASCII:
- `\w` is `[A-Za-z0-9_]`;
- `\d` is `[0-9]`;
- `\s` and `str.strip()` use the ASCII characters for which `str.isspace()` holds;
- `str.lower()` lowers `A` to `Z` only.

Neither scan can capture a colour reference. The value class `[#\w(),.\s]` of both scan patterns (colorextractor.go:52, 62) excludes `@`. So a line such as `@define-color x @y;` is never captured, and no stored value holds a reference. On scanner output the resolver is therefore the identity (`Pipeline.ThemePaletteFromDeclarations`). The resolver is still modelled and proved on its own, for any table.

A palette slot can end up empty. Take a value made only of blanks, as in `@define-color theme_bg_color  ;`. The `\s+` before the value gives back one blank, so the value captured is that blank, and stripping stores the empty string (`Scanner.MatchDefineColorBlankValue`). `_normalize_color` returns the empty string unchanged. Without a `theme_base_color`, `background` is then empty (`Palette.BlankBackground`).

## Model

| member | source | states |
|---|---|---|
| Text.Strip | colorextractor.go:57 | `str.strip()` gives a string with no whitespace at either end, made of characters of its input and no longer than it |
| Text.StripRemovesOuterBlanks | colorextractor.go:57 | the stripped string is a slice of its input with only blanks before and only blanks after it |
| Text.IsSpace | colorextractor.go:52-62 | the characters `\s` and `str.strip()` treat as whitespace: blank, tab, newline, vertical tab, form feed, carriage return, and the four ASCII separators |
| Text.IsWordChar | colorextractor.go:52-62 | the characters `\w` matches: ASCII letters, digits and `_` |
| Text.IsDigit | colorextractor.go:162 | the characters `\d` matches: `0` to `9` |
| Text.StripTrimmed | colorextractor.go:57 | stripping a string without surrounding whitespace leaves it unchanged, so stripping twice is stripping once |
| Text.Lower | colorextractor.go:161 | `str.lower()` keeps the length and maps exactly the letters `A`–`Z` to lower case |
| Text.ReplaceAll | colorextractor.go:92 | `str.replace(pat, rep)`: every non-overlapping occurrence of `pat`, left to right, is replaced by `rep` |
| Text.ReplaceWhole | colorextractor.go:92 | replacing a whole string by `rep` gives `rep` |
| Scanner.MatchDefineColorAt | colorextractor.go:52 | a match of the `@define-color` pattern captures a `\w+` name and a value made of the value class, and ends after the `;` |
| Scanner.MatchVariableAt | colorextractor.go:62 | a match of the `--` pattern captures a name of at least two hyphen-separated word groups and a value of the value class |
| Scanner.MatchAt | colorextractor.go:52-62 | a match of either pattern at a position ends after it and within the text, with the pattern's name shape and a value of the value class |
| Scanner.MatchValueTail | colorextractor.go:52-62 | the `\s+([#\w(),.\s]+);` tail ends after the required blanks and within the text, and captures a non-empty value of the value class |
| Scanner.HyphenGroupsEnd | colorextractor.go:62 | the `\w+-\w+(?:-\w+)*` run stays within the text, holds only word characters and `-`, and ends on a word character |
| Scanner.MatchValueTailBlank | colorextractor.go:52 | two or more blanks before `;` are captured as the last blank |
| Scanner.MatchDefineColorBlankValue | colorextractor.go:52-59 | `@define-color name` followed by two or more blanks and `;` matches with a value of one blank, which strips to the empty string |
| Scanner.FindAll | colorextractor.go:53 | every declaration `findall` returns has the pattern's name shape and value shape |
| Scanner.Put | colorextractor.go:59 | `colors[name] = value` sets the value; a new name goes to the end of the insertion order, an existing one keeps its place |
| Scanner.StoreAll | colorextractor.go:55-67 | storing a list of declarations keeps the table well formed: no name twice in the insertion order, and the keys are exactly the names in it |
| Scanner.StoreAllStep | colorextractor.go:55-59 | storing one more declaration is storing its stripped value on top of the earlier ones |
| Scanner.DeclarationTable | colorextractor.go:46-67 | the table after both scans and storing loops is well formed (no name twice in the insertion order, keys exactly its names); its keys, values and order are characterised by ScanKeys, ScanLastDeclarationWins and DeclarationValuesClean |
| Scanner.ExtractDeclarations | colorextractor.go:46-67 | the two storing loops build `DeclarationTable(content)`; every stored value is stripped and holds no `@` |
| Scanner.DeclarationValuesClean | colorextractor.go:52-67 | every stored value is stripped, made only of value-class characters and free of `@` |
| Scanner.StoreAllValues | colorextractor.go:55-67 | storing declarations whose values have the value shape gives stripped values without `@` |
| Scanner.StoreAllLastWins | colorextractor.go:55-59 | a name ends up with the stripped value of its last declaration |
| Scanner.StoreAllUntouched | colorextractor.go:55-59 | a name that no declaration mentions keeps its presence and its value |
| Scanner.StoreAllKeys | colorextractor.go:55-59 | the table's keys are the earlier keys plus the declared names |
| Scanner.StoreAllKeysStep | colorextractor.go:55-59 | storing one more declaration adds exactly its name to the keys |
| Scanner.ScanLastDeclarationWins | colorextractor.go:52-67 | in the scanned table a name holds the stripped value of its last declaration in its scan; the later `--` scan never overwrites an `@define-color` name |
| Scanner.ScanKeys | colorextractor.go:52-67 | the scanned table's keys are exactly the names both scans found |
| Scanner.PatternNamesDiffer | colorextractor.go:52-62 | no name can be captured by both patterns (one never holds `-`, the other always does), so the scans never overwrite each other's keys |
| Scanner.MatchDefineColorLine | colorextractor.go:52 | a written line `@define-color name value;` is matched there with exactly its name and value |
| Scanner.MatchDefineColorPieces | colorextractor.go:52 | `@define-color`, a blank, a word name, a blank, a value that does not start with a blank, and `;` is matched with exactly that name and value, ending after the `;` |
| Scanner.FindAllStylesheet | colorextractor.go:53 | `findall` over a stylesheet of `@define-color` lines returns its declarations in order |
| Scanner.StylesheetNoDoubleHyphen | colorextractor.go:62 | such a stylesheet holds no `--` |
| Scanner.FindVariablesNone | colorextractor.go:63 | text without `--` yields no variable declarations |
| Scanner.ScanStylesheet | colorextractor.go:52-67 | scanning a stylesheet written from declarations stores exactly those declarations, the last one of a name winning |
| Resolver.FirstRef | colorextractor.go:87 | the reference `re.search(r'@(\w+)')` captures is a non-empty run of word characters |
| Resolver.FirstRefFrom | colorextractor.go:87 | a reference found from an index on is a non-empty run of word characters |
| Resolver.FirstRefFromFinds | colorextractor.go:87 | there is no reference exactly when no `@` is followed by a word character; otherwise the capture is the greedy word run after the first such `@` |
| Resolver.FirstRefFromNone | colorextractor.go:87 | the search from an index finds no reference exactly when no later `@` is followed by a word character |
| Resolver.FirstRefFromSome | colorextractor.go:87 | a search that finds a reference takes the first `@` followed by a word character, with the whole word run after it |
| Resolver.NoAtNoRef | colorextractor.go:86-87 | a value without `@` has no reference |
| Resolver.RefOfName | colorextractor.go:87-92 | the value `@name` refers to `name` |
| Resolver.Visit | colorextractor.go:84-101 | visiting one name keeps the key set, changes no other entry and never clears `changed` |
| Resolver.Pass | colorextractor.go:84-101 | a pass over the names keeps the key set |
| Resolver.ResolvePasses | colorextractor.go:82-106 | the remaining passes of the bounded loop, stopping after a pass without change; its result is characterised by ResolvePassesSound and ResolvePassesSettled |
| Resolver.Resolved | colorextractor.go:77-106 | the `resolved` dict after at most ten passes; ResolvedSound, ResolvedKeepsSettled and ResolvedIdempotent state its properties |
| Resolver.ResolvePass | colorextractor.go:83-101 | the inner loop, following the source's branches, computes `Pass` of the table in insertion order and keeps the key set |
| Resolver.ResolveColorReferences | colorextractor.go:77-106 | the bounded loop of at most ten passes, stopping at the first pass without change, returns `Resolved(t)` |
| Resolver.OuterStep | colorextractor.go:82-104 | a pass that changes something continues with one pass fewer; a pass that changes nothing ends the loop with its `resolved` |
| Resolver.PassStep | colorextractor.go:84 | a pass over one more name is a visit after the shorter pass |
| Resolver.VisitInv | colorextractor.go:84-101 | a visit keeps `resolved` holding only settled values of the table, keeps settled values, and records a settled name |
| Resolver.PassInv | colorextractor.go:84-101 | a pass keeps the invariant and records every visited settled name |
| Resolver.ResolvePassesSound | colorextractor.go:82-106 | whatever the number of passes, every resolved value is settled: it has no reference, or its reference names an absent key |
| Resolver.ResolvePassesSettled | colorextractor.go:86-101 | a name whose value is settled is resolved to that value |
| Resolver.ResolvedSound | colorextractor.go:77-106 | the result's keys are input keys and every result value is settled |
| Resolver.ResolvedKeepsSettled | colorextractor.go:86-101 | an entry without `@`, or whose first reference names an absent key, is in the result with exactly its input value |
| Resolver.ResolvedAllSettled | colorextractor.go:77-106 | a table whose values are all settled resolves to itself |
| Resolver.ResolvedIdempotent | colorextractor.go:77-106 | resolving a resolved table again changes nothing |
| Resolver.ResolvedWithoutReferences | colorextractor.go:86-101 | a table without any `@` resolves to itself |
| Resolver.AliasRef | colorextractor.go:87 | a value that is `@` followed by a word name refers to that name |
| Resolver.VisitAlias | colorextractor.go:88-95 | visiting an alias copies the aliased value and leaves `resolved` alone |
| Resolver.VisitAliases | colorextractor.go:88-95 | when every value is an alias, a visit keeps it so |
| Resolver.PassAliases | colorextractor.go:84-101 | when every value is an alias, a pass keeps it so and resolves nothing |
| Resolver.ResolvePassesAliases | colorextractor.go:82-106 | when every value is an alias, the loop resolves nothing |
| Resolver.ResolvedAliasesDropped | colorextractor.go:77-106 | a table made only of aliases (cycles included) resolves to the empty dict |
| Resolver.ResolvedCycle | colorextractor.go:77-106 | `a: @b, b: @a` resolves to the empty dict |
| Resolver.ResolvedSelfReference | colorextractor.go:77-106 | `a: @a` resolves to the empty dict |
| Resolver.VisitReplacesAlias | colorextractor.go:90-95 | visiting `a: @b` with `b` settled gives `a` the value of `b` and sets `changed` |
| Resolver.PassReplacesAlias | colorextractor.go:84-101 | a pass gives such an alias the value of `b` exactly when it visits `a` |
| Resolver.ResolvedAlias | colorextractor.go:77-106 | `a: @b` with `b` settled resolves `a` to the value of `b` |
| Normalizer.Decimal | colorextractor.go:165 | the decimal digits of a number are non-empty, all digits and without leading zero |
| Normalizer.DecimalValue | colorextractor.go:164-165 | `int()` of a digit string, read in base 10; DecimalRoundTrip proves it inverts Decimal |
| Normalizer.DecimalRoundTrip | colorextractor.go:164-165 | `int()` of the decimal digits of `n` is `n` |
| Normalizer.HexDigit | colorextractor.go:165 | a hex digit is one of `0`–`9`, `a`–`f` |
| Normalizer.HexDigitRoundTrip | colorextractor.go:165 | reading back a hex digit gives its value |
| Normalizer.Hex | colorextractor.go:165 | `format(n, 'x')` gives lower-case hex digits without leading zero |
| Normalizer.HexRoundTrip | colorextractor.go:165 | reading back the hex digits of `n` gives `n` |
| Normalizer.HexLength | colorextractor.go:165 | `n` has one hex digit below 16 and two from 16 to 255 |
| Normalizer.Hex2 | colorextractor.go:165 | `:02x` gives lower-case hex digits |
| Normalizer.Hex2RoundTrip | colorextractor.go:165 | the padded field reads back as `n` and is two digits wide exactly when `n` is at most 255 |
| Normalizer.Hex2Wide | colorextractor.go:165 | the padded field has at least two digits |
| Normalizer.HexColor | colorextractor.go:165 | the hex colour starts with `#` |
| Normalizer.HexColorComponents | colorextractor.go:165 | the hex colour is seven characters exactly when every component is at most 255, and each pair then reads back as its component |
| Normalizer.HexComponentsTrimmed | colorextractor.go:165 | a hex colour has no surrounding whitespace |
| Normalizer.ComponentThenComma | colorextractor.go:162 | `(\d+),\s*` consumes at least one character |
| Normalizer.OpenAt | colorextractor.go:162 | `rgba?\(` ends after its start and within the text |
| Normalizer.LastComponent | colorextractor.go:162 | the last `(\d+)` group takes the whole digit run at its position; LastComponentAt states its value |
| Normalizer.MatchRgbAt | colorextractor.go:162 | `rgba?\((\d+),\s*(\d+),\s*(\d+)` tried at one position gives the three components read in decimal; MatchRgbPieces and MatchRgbText state when it matches |
| Normalizer.SearchRgb | colorextractor.go:162 | `re.search` of that pattern: the match at the first position where one exists; SearchRgbFinds states this |
| Normalizer.SearchRgbNone | colorextractor.go:162 | the search finds nothing exactly when the pattern matches at no position from the start index on |
| Normalizer.SearchRgbSome | colorextractor.go:162 | a search that finds a colour returns the match at some position, before which the pattern matches nowhere |
| Normalizer.SearchRgbLeftmost | colorextractor.go:162 | a match with no match before it is what the search returns |
| Normalizer.SearchRgbFinds | colorextractor.go:162 | the search returns `c` exactly when `c` is the match at some position and the pattern matches at no earlier position |
| Normalizer.MatchRgbAtOccurs | colorextractor.go:162 | a match starts with the letters `rgb` |
| Normalizer.MatchRgbPieces | colorextractor.go:162 | `rgba?(`, two components each followed by a comma and blanks, and a last component make a match with those three values |
| Normalizer.NoMatchWithoutR | colorextractor.go:162 | the pattern does not match at a position that does not hold `r` |
| Normalizer.Normalize | colorextractor.go:152-167 | the normalised colour has no surrounding whitespace |
| Normalizer.NormalizeStripped | colorextractor.go:156-167 | the branches after stripping give a value without surrounding whitespace; which branch gives what is stated through Normalize by NormalizeKeepsHex, NormalizeLeftmostMatch, NormalizeNoMatch and NormalizeWithoutRgb |
| Normalizer.NormalizeIdempotent | colorextractor.go:152-167 | normalising a normalised colour changes nothing |
| Normalizer.NormalizeKeepsHex | colorextractor.go:154-158 | a value that starts with `#` once stripped is returned stripped |
| Normalizer.LowerFindsRgbAt | colorextractor.go:161 | a text holding `rgb` at some position passes the case-insensitive test |
| Normalizer.NormalizeLeftmostMatch | colorextractor.go:152-165 | a value not starting with `#` once stripped, whose leftmost match is `c`, normalises to the hex colour of `c` |
| Normalizer.NormalizeNoMatch | colorextractor.go:152-167 | a value not starting with `#` once stripped, where the pattern matches nowhere, is only stripped |
| Normalizer.NormalizeWithoutRgb | colorextractor.go:152-167 | a value whose stripped form holds no `rgb` is only stripped |
| Normalizer.NormalizeNameExample | colorextractor.go:152-167 | the colour name `seagreen` is returned unchanged |
| Normalizer.ComponentAt | colorextractor.go:162 | a written component with its comma and blanks is read, and the match goes on at the next digit |
| Normalizer.LastComponentAt | colorextractor.go:162 | the last component is the whole digit run there, read in decimal |
| Normalizer.RgbPrefix | colorextractor.go:162 | `rgb(` or `rgba(` after any text is accepted there as the start of the pattern |
| Normalizer.TwoComponentsAt | colorextractor.go:162 | the first two written components are read one after the other |
| Normalizer.MatchRgbText | colorextractor.go:162-164 | after any text, written components are matched at their position and read in decimal |
| Normalizer.MatchRgbTextAtStart | colorextractor.go:162-164 | written components at the start of a text are matched there and read in decimal |
| Normalizer.NormalizeMatchAtStart | colorextractor.go:152-165 | a stripped text with a match at its start is normalised to that match's hex colour |
| Normalizer.RgbTextTrimmed | colorextractor.go:154 | written `rgb(...)` text with a tail not ending in a blank has no surrounding whitespace |
| Normalizer.NormalizeRgbText | colorextractor.go:152-165 | `rgb(r, g, b` or `rgba(r, g, b` written with any digits and blanks, and any tail that does not continue the last number, normalises to `#` and the three components in hex |
| Normalizer.NormalizeRgbRoundTrip | colorextractor.go:152-165 | writing a colour's components in decimal as `rgb(...)` and normalising gives its hex colour |
| Normalizer.NormalizeWideComponent | colorextractor.go:165 | a component of 256 or more makes the result longer than `#rrggbb` |
| Normalizer.SearchWithoutR | colorextractor.go:162 | without a lower-case `r` from some index on, `re.search` finds nothing there |
| Normalizer.NormalizeWithoutR | colorextractor.go:161-167 | a value without a lower-case `r` is only stripped (the search is case-sensitive) |
| Normalizer.NormalizeAfterText | colorextractor.go:152-165 | written `rgb(...)` components after text without `r` that does not start with `#` normalise to the components' hex colour: the search skips the leading text |
| Normalizer.NormalizeInnerMatchExample | colorextractor.go:152-165 | `shade(rgb(1,2,3), 0.5)` normalises to `#010203` |
| Normalizer.InnerExampleText | colorextractor.go:162 | `shade(rgb(1,2,3), 0.5)` is text followed by written components |
| Normalizer.InnerExampleValues | colorextractor.go:164-165 | its components read as 1, 2 and 3 and are written `#010203` |
| Normalizer.NormalizeExample | colorextractor.go:152-165 | `rgb(255, 128, 0)` normalises to `#ff8000` |
| Normalizer.ExampleText | colorextractor.go:162 | `rgb(255, 128, 0)` is a written component text |
| Normalizer.ExampleValues | colorextractor.go:164-165 | its components read as 255, 128 and 0 and are written `ff`, `80`, `00` |
| Normalizer.ExampleHex | colorextractor.go:165 | 255, 128 and 0 are written `ff`, `80` and `00` |
| Normalizer.NormalizeAlphaExample | colorextractor.go:152-165 | `rgba(0,0,0,1)` normalises to `#000000` |
| Normalizer.AlphaExampleText | colorextractor.go:162 | `rgba(0,0,0,1)` is a written component text |
| Normalizer.BlackHexColor | colorextractor.go:165 | black is written `#000000` |
| Normalizer.NormalizeUpperCaseExample | colorextractor.go:161-167 | `RGB(1, 2, 3)` passes the case-insensitive test but is returned unchanged |
| Normalizer.NormalizeBlankAfterParenthesis | colorextractor.go:161-167 | `rgb( 1,2,3)` is returned unchanged |
| Palette.PaletteAfter | colorextractor.go:145-147 | applying links of the mapping keeps the key set |
| Palette.StandardPalette | colorextractor.go:108-149 | the palette built from `Defaults` and `Mapping` has exactly the nineteen default slots |
| Palette.GenerateStandardPalette | colorextractor.go:108-149 | the loop over the mapping builds `StandardPalette(colors)` |
| Palette.MappingSlots | colorextractor.go:110-143 | every slot of the mapping is a default slot |
| Palette.LastSource | colorextractor.go:133-147 | the last link for a slot whose theme colour is present, if any |
| Palette.SlotValue | colorextractor.go:133-147 | the reference value of a slot: the normalised value of the last present source among the first links of `Mapping`, or its starting value; PaletteAfterSlot ties the loop to it |
| Palette.PaletteAfterSlot | colorextractor.go:145-147 | after the links applied so far, each slot holds the normalised value of its last present source, or its starting value |
| Palette.PaletteSlot | colorextractor.go:108-149 | each slot holds the normalised value of its last present source, or its default |
| Palette.FixedSlotsKeepDefaults | colorextractor.go:110-147 | `cursor`, `color0` and `color5`–`color15` keep their defaults for every input |
| Palette.EmptyThemeDefaults | colorextractor.go:108-149 | an empty input gives exactly the defaults |
| Palette.MappingLinks | colorextractor.go:133-143 | the mapping's nine links in their listed order |
| Palette.LastSourceSkip | colorextractor.go:145-147 | links for other slots do not change which source a slot takes |
| Palette.SingleSource | colorextractor.go:145-147 | a slot with a single source takes its normalised value when present, and its default otherwise |
| Palette.BackgroundPrecedence | colorextractor.go:133-147 | `background` comes from `theme_base_color` if present, else from `theme_bg_color`, else its default |
| Palette.BlankBackground | colorextractor.go:133-147 | an empty `theme_bg_color`, without `theme_base_color`, gives an empty `background` |
| Palette.ForegroundPrecedence | colorextractor.go:133-147 | `foreground` comes from `theme_selected_fg_color`, else `theme_text_color`, else `theme_fg_color`, else its default |
| Palette.SelectedBackgroundSlot | colorextractor.go:138 | `color4` comes from `theme_selected_bg_color` if present, else its default |
| Palette.WarningSlot | colorextractor.go:140 | `color3` comes from `warning_color` if present, else its default |
| Palette.ErrorSlot | colorextractor.go:141 | `color1` comes from `error_color` if present, else its default |
| Palette.SuccessSlot | colorextractor.go:142 | `color2` comes from `success_color` if present, else its default |
| Palette.PaletteTrimmed | colorextractor.go:108-149 | every palette value is free of surrounding whitespace |
| Format.FieldEnd | colorextractor.go:318 | the end of a field is a `}` within the template |
| Format.Fill | colorextractor.go:318 | `template.format(**kwargs)` on literal text, `{{`, `}}` and `{name}` fields, left to right; its behaviour is stated by FillUnparse, FillSucceeds, FillField, FillEscapes and FillStrayBraces |
| Format.Escape | colorextractor.go:268-275 | literal text as a template writes it, each brace doubled (as in the Rofi template), never shorter than the text |
| Format.Unparse | colorextractor.go:194-295 | the template text of a sequence of pieces; FillUnparse states that filling it gives Render |
| Format.Render | colorextractor.go:318 | the reference meaning of pieces: the literal texts and the looked-up values in order, or `KeyError` for the first absent field; RenderOk states when it fails |
| Format.Lookup | colorextractor.go:318 | a field succeeds exactly when it is a plain keyword name present among the arguments, and gives its value; a plain name that is absent raises `KeyError` |
| Format.FillEscaped | colorextractor.go:318 | escaped literal text fills to itself, in front of the rest |
| Format.FillEscapedStep | colorextractor.go:318 | the first character of escaped text, doubled when a brace, fills to that one character |
| Format.FillDoubledBrace | colorextractor.go:318 | `{{` and `}}` fill to a single brace |
| Format.FillOtherChar | colorextractor.go:318 | any character other than a brace fills to itself |
| Format.FieldEndPlain | colorextractor.go:318 | a field without inner braces ends at the first `}` |
| Format.FillField | colorextractor.go:318 | `{name}` fills to the value of `name`, or fails with `KeyError` when it is absent |
| Format.FillUnparse | colorextractor.go:318 | filling the text of well-formed pieces gives their reference meaning `Render` |
| Format.RenderOk | colorextractor.go:318 | the reference meaning fails exactly when some field names an absent key, and then with `KeyError` |
| Format.FillSucceeds | colorextractor.go:318 | a template made of pieces fills without error exactly when every field names a present key |
| Format.FillPlainText | colorextractor.go:318 | text without braces is left unchanged |
| Format.EscapePlain | colorextractor.go:318 | text without braces is its own escaped form |
| Format.FillEscapes | colorextractor.go:318 | `{{` fills to `{` and `}}` to `}` |
| Format.FillStrayBraces | colorextractor.go:318 | a single `}` and a trailing `{` fail |
| Templates.WordName | colorextractor.go:194-295 | a word name not starting with a digit is a plain keyword field |
| Templates.FirstSlotNames | colorextractor.go:111-120 | the names `background` to `color6` are plain keyword fields |
| Templates.LastSlotNames | colorextractor.go:121-129 | the names `color7` to `color15` are plain keyword fields |
| Templates.SlotNamesAreKeywords | colorextractor.go:111-129 | every slot name is a plain keyword field |
| Templates.PaletteSlotsWellFormed | colorextractor.go:194-295 | templates that only name slots are well formed and their fields are slots |
| Templates.AlacrittySlots | colorextractor.go:194-220 | the Alacritty template, held as the pieces `AlacrittyParts`, only names palette slots |
| Templates.WaybarSlots | colorextractor.go:223-240 | the Waybar template only names palette slots |
| Templates.KittySlots | colorextractor.go:243-264 | the Kitty template only names palette slots |
| Templates.RofiSlots | colorextractor.go:267-275 | the Rofi template only names palette slots |
| Templates.DunstSlots | colorextractor.go:278-295 | the Dunst template only names palette slots |
| Templates.BuiltInSlots | colorextractor.go:194-295 | every template of `BuiltIn`, the five built-in templates in order, only names palette slots |
| Templates.FillBuiltIn | colorextractor.go:194-295 | filling any built-in template with a map holding every slot never fails and gives the template with each field replaced |
| Pipeline.ExtractColors | colorextractor.go:46-75 | scanning, resolving and building the palette gives `ThemePalette(content)`, which has exactly the nineteen slots |
| Pipeline.ThemePalette | colorextractor.go:46-75 | the palette of a stylesheet: scan, resolve, build the palette; ExtractColors and ThemePaletteFromDeclarations state its properties |
| Pipeline.ThemePaletteFromDeclarations | colorextractor.go:52-73 | resolution changes nothing on scanner output: the palette is built from the scanned declarations |
| Pipeline.ThemePaletteNotEmpty | colorextractor.go:73-75 | the palette of any stylesheet is non-empty |
| Pipeline.ApplyColors | colorextractor.go:318 | formatting each built-in template with the palette of a stylesheet always succeeds and gives its reference rendering |

## Left out

- Reading the theme is left out. This covers the theme directory search, the existence checks and the file read (colorextractor.go:26-49): the model starts from the stylesheet's text.
- The template store is left out: seeding the files, reading them back, creating directories and writing the results (colorextractor.go:173-192, 299-327). The fill is applied to the built-in templates, not to files a user may have edited.
- JSON persistence, the `main` command line and all console output are left out. They are I/O.
- `colorui.go` is left out. It is GTK widget construction and callbacks.
- Format.Fill: only literal text, `{{`, `}}` and `{name}` are modelled.
  - A field that uses a conversion, a format spec, an attribute or an index is reported as `Unsupported`. Python would render it or raise a different error.
  - An empty or all-digit field is reported as the `IndexError` Python raises when no positional arguments are given.
- Unicode character classes, Unicode case mapping and Unicode digits in `\w`, `\s`, `\d`, `str.lower()`, `str.strip()` and `int()` are not modelled. The model is ASCII only.
- Resolver.ResolveColorReferences: the returned `resolved` dict is a map, so its insertion order is not modelled. Nothing downstream reads it in order.
- Resolver.ResolveColorReferences: the in-place update of the caller's dict is not observable. The caller replaces the dict by the result, and the model passes the table by value.
- The regular-expression engine is not modelled in general. Each pattern is modelled by a function computing the match the engine returns at a position: greedy runs, with `\s+` giving back one blank only where the value would otherwise be empty. `findall` and `re.search` are scans over positions.
