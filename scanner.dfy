/**
 * The stylesheet declaration scanner of `extract_colors`: two `re.findall`
 * scans over the text of `gtk.css`, each followed by a loop that stores the
 * stripped value under its name in one table.
 */
module Scanner {
  import opened Results
  import opened Text

  /** The two patterns the scanner runs, in the order it runs them. */
  datatype Pattern =
    | DefineColor  // @define-color\s+(\w+)\s+([#\w(),.\s]+);
    | Variable     // --(\w+-\w+(?:-\w+)*)\s*:\s*([#\w(),.\s]+);

  /** The two groups a successful match captures, and the index just past the match. */
  datatype Match = Match(name: string, value: string, end: nat)

  /** One `(name, value)` tuple of the list `re.findall` returns. */
  datatype Declaration = Declaration(name: string, value: string)

  /**
   * A Python dict from colour name to value: `values` holds the entries and
   * `order` the keys in insertion order (overwriting a key keeps its place).
   */
  datatype Table = Table(order: seq<string>, values: map<string, string>) {
    predicate Valid() {
      && (forall i, j :: 0 <= i < j < |order| ==> order[i] != order[j])
      && values.Keys == (set k | k in order)
    }
  }

  const EmptyTable := Table([], map[])

  /** The value class `[#\w(),.\s]`: note that it has no `@` and no `;`. */
  predicate IsValueChar(c: char) {
    c == '#' || IsWordChar(c) || c == '(' || c == ')' || c == ',' || c == '.' || IsSpace(c)
  }

  /** What a match of either pattern guarantees about the name it captures. */
  predicate NameShape(p: Pattern, name: string) {
    match p
    case DefineColor => name != [] && AllChars(name, IsWordChar)
    case Variable =>
      && 3 <= |name| && IsWordChar(name[0]) && IsWordChar(name[|name| - 1]) && '-' in name
      && AllChars(name, c => IsWordChar(c) || c == '-')
  }

  /** What a match guarantees about the value it captures: one or more characters of the value class. */
  predicate ValueShape(value: string) {
    value != [] && AllChars(value, IsValueChar)
  }

  /**
   * The common tail `\s+([#\w(),.\s]+);` (with `minSpaces` 1) or `\s*([#\w(),.\s]+);`
   * (with `minSpaces` 0) tried at index `p`: the value group and the index past the `;`.
   * The whitespace run is greedy; it gives back one character only when the value
   * would otherwise be empty.
   */
  function MatchValueTail(s: string, p: nat, minSpaces: nat): (r: Option<(string, nat)>)
    requires p <= |s|
    ensures r.Some? ==> p + minSpaces < r.value.1 <= |s| && ValueShape(r.value.0)
  {
    var k := SkipWhile(s, p, IsSpace);
    if k - p < minSpaces then None
    else
      var e := SkipWhile(s, k, IsValueChar);
      if e == |s| || s[e] != ';' then None
      else if k < e then Some((s[k..e], e + 1))
      else if k - p > minSpaces then Some((s[k - 1..e], e + 1))
      else None
  }

  /** The end of the longest run of `-\w+` groups starting at `j`, as the greedy `(?:-\w+)*` takes it. */
  function HyphenGroupsEnd(s: string, j: nat): (e: nat)
    requires j <= |s|
    ensures j <= e <= |s|
    ensures forall k :: j <= k < e ==> IsWordChar(s[k]) || s[k] == '-'
    ensures e > j ==> IsWordChar(s[e - 1])
    decreases |s| - j
  {
    if j + 1 < |s| && s[j] == '-' && IsWordChar(s[j + 1]) then HyphenGroupsEnd(s, SkipWhile(s, j + 1, IsWordChar))
    else j
  }

  const DefineColorKeyword := "@define-color"

  /** The pattern `p` tried at index `i` of `s`, as `re.findall` tries it at each position. */
  function MatchAt(p: Pattern, s: string, i: nat): (m: Option<Match>)
    requires i <= |s|
    ensures m.Some? ==> i < m.value.end <= |s| && NameShape(p, m.value.name) && ValueShape(m.value.value)
  {
    match p
    case DefineColor => MatchDefineColorAt(s, i)
    case Variable => MatchVariableAt(s, i)
  }

  /** `@define-color\s+(\w+)\s+([#\w(),.\s]+);` tried at index `i`: the name is the whole word run after the blanks. */
  function MatchDefineColorAt(s: string, i: nat): (m: Option<Match>)
    requires i <= |s|
    ensures m.Some? ==> i < m.value.end <= |s| && NameShape(DefineColor, m.value.name) && ValueShape(m.value.value)
  {
    if !OccursAt(s, DefineColorKeyword, i) then None
    else
      var n0 := SkipWhile(s, i + |DefineColorKeyword|, IsSpace);
      var n1 := SkipWhile(s, n0, IsWordChar);
      if n0 == i + |DefineColorKeyword| || n1 == n0 then None
      else
        match MatchValueTail(s, n1, 1)
        case None => None
        case Some((value, end)) =>
          assert AllChars(s[n0..n1], IsWordChar);
          Some(Match(s[n0..n1], value, end))
  }

  /**
   * `--(\w+-\w+(?:-\w+)*)\s*:\s*([#\w(),.\s]+);` tried at index `i`: the name is the
   * longest run of word groups joined by single hyphens, and it needs at least two groups.
   */
  function MatchVariableAt(s: string, i: nat): (m: Option<Match>)
    requires i <= |s|
    ensures m.Some? ==> i < m.value.end <= |s| && NameShape(Variable, m.value.name) && ValueShape(m.value.value)
  {
    if !OccursAt(s, "--", i) then None
    else
      var w := SkipWhile(s, i + 2, IsWordChar);
      if w == i + 2 || !(w + 1 < |s| && s[w] == '-' && IsWordChar(s[w + 1])) then None
      else
        var n := HyphenGroupsEnd(s, w);
        var c := SkipWhile(s, n, IsSpace);
        if c == |s| || s[c] != ':' then None
        else
          match MatchValueTail(s, c + 1, 0)
          case None => None
          case Some((value, end)) =>
            var name := s[i + 2..n];
            NameOfVariable(s, i, w, n);
            Some(Match(name, value, end))
  }

  lemma NameOfVariable(s: string, i: nat, w: nat, n: nat)
    requires i + 2 < w && w + 1 < |s| && s[w] == '-' && IsWordChar(s[w + 1])
    requires forall k :: i + 2 <= k < w ==> IsWordChar(s[k])
    requires n == HyphenGroupsEnd(s, w)
    ensures i + 2 <= n <= |s| && NameShape(Variable, s[i + 2..n])
  {
    var name := s[i + 2..n];
    assert n > w;
    assert name[w - (i + 2)] == '-';
    assert AllChars(name, c => IsWordChar(c) || c == '-') by {
      forall k | 0 <= k < |name| ensures IsWordChar(name[k]) || name[k] == '-' {
        assert name[k] == s[i + 2 + k];
      }
    }
  }

  /**
   * `re.findall(p, s[i..])`: the tuples of the leftmost non-overlapping matches.
   * After a match the search resumes at its end, otherwise one character further on.
   */
  function FindAll(p: Pattern, s: string, i: nat): (ds: seq<Declaration>)
    requires i <= |s|
    ensures forall k :: 0 <= k < |ds| ==> NameShape(p, ds[k].name) && ValueShape(ds[k].value)
    decreases |s| - i
  {
    if i == |s| then []
    else
      match MatchAt(p, s, i)
      case Some(m) => [Declaration(m.name, m.value)] + FindAll(p, s, m.end)
      case None => FindAll(p, s, i + 1)
  }

  /** `colors[name] = value` on a Python dict. */
  function Put(t: Table, name: string, value: string): (r: Table)
    requires t.Valid()
    ensures r.Valid()
    ensures r.values == t.values[name := value]
    ensures name in t.values ==> r.order == t.order
    ensures name !in t.values ==> r.order == t.order + [name]
  {
    if name in t.values then t.(values := t.values[name := value])
    else Table(t.order + [name], t.values[name := value])
  }

  /** The table after the loop `for name, value in ds: colors[name] = value.strip()`. */
  function StoreAll(t: Table, ds: seq<Declaration>): (r: Table)
    requires t.Valid()
    ensures r.Valid()
    decreases |ds|
  {
    if ds == [] then t
    else
      var last := ds[|ds| - 1];
      Put(StoreAll(t, ds[..|ds| - 1]), last.name, Strip(last.value))
  }

  /** One more turn of the storing loop stores the next declaration. */
  lemma StoreAllStep(t: Table, ds: seq<Declaration>, k: nat)
    requires t.Valid() && k < |ds|
    ensures StoreAll(t, ds[..k + 1]) == Put(StoreAll(t, ds[..k]), ds[k].name, Strip(ds[k].value))
  {
    assert ds[..k + 1][..k] == ds[..k];
  }

  /** The table `extract_colors` builds from the stylesheet text `content`. */
  function DeclarationTable(content: string): (t: Table)
    ensures t.Valid()
  {
    StoreAll(StoreAll(EmptyTable, FindAll(DefineColor, content, 0)), FindAll(Variable, content, 0))
  }

  /** The scanning part of `extract_colors`: both scans and their storing loops. */
  method ExtractDeclarations(content: string) returns (colors: Table)
    ensures colors == DeclarationTable(content)
    ensures colors.Valid()
    ensures forall n :: n in colors.values ==> IsTrimmed(colors.values[n]) && '@' !in colors.values[n]
  {
    colors := EmptyTable;
    var matches := FindAll(DefineColor, content, 0);
    for k := 0 to |matches|
      invariant colors == StoreAll(EmptyTable, matches[..k])
    {
      StoreAllStep(EmptyTable, matches, k);
      var name, value := matches[k].name, matches[k].value;
      value := Strip(value);
      colors := Put(colors, name, value);
    }
    assert matches[..|matches|] == matches;
    var varMatches := FindAll(Variable, content, 0);
    ghost var afterDefines := colors;
    for k := 0 to |varMatches|
      invariant colors == StoreAll(afterDefines, varMatches[..k])
    {
      StoreAllStep(afterDefines, varMatches, k);
      var name, value := varMatches[k].name, varMatches[k].value;
      value := Strip(value);
      colors := Put(colors, name, value);
    }
    assert varMatches[..|varMatches|] == varMatches;
    DeclarationValuesClean(content);
  }

  /** Every value the scanner stores is stripped and holds only characters of the value class, so never an `@`. */
  lemma DeclarationValuesClean(content: string)
    ensures forall n :: n in DeclarationTable(content).values ==>
      IsTrimmed(DeclarationTable(content).values[n]) && AllChars(DeclarationTable(content).values[n], IsValueChar)
      && '@' !in DeclarationTable(content).values[n]
  {
    var ds1 := FindAll(DefineColor, content, 0);
    var ds2 := FindAll(Variable, content, 0);
    StoreAllValues(EmptyTable, ds1);
    StoreAllValues(StoreAll(EmptyTable, ds1), ds2);
  }

  /** Storing stripped values of the value class keeps every value stripped and inside the class. */
  lemma {:induction false} StoreAllValues(t: Table, ds: seq<Declaration>)
    requires t.Valid()
    requires forall n :: n in t.values ==> IsTrimmed(t.values[n]) && AllChars(t.values[n], IsValueChar)
    requires forall k :: 0 <= k < |ds| ==> AllChars(ds[k].value, IsValueChar)
    ensures forall n :: n in StoreAll(t, ds).values ==>
      IsTrimmed(StoreAll(t, ds).values[n]) && AllChars(StoreAll(t, ds).values[n], IsValueChar)
    decreases |ds|
  {
    if ds != [] {
      var init := ds[..|ds| - 1];
      var last := ds[|ds| - 1];
      assert forall k :: 0 <= k < |init| ==> init[k] == ds[k];
      StoreAllValues(t, init);
      StrippedValueChars(last.value);
      assert StoreAll(t, ds).values == StoreAll(t, init).values[last.name := Strip(last.value)];
    }
  }

  /** Stripping a run of value characters leaves value characters. */
  lemma StrippedValueChars(value: string)
    requires AllChars(value, IsValueChar)
    ensures AllChars(Strip(value), IsValueChar)
  {
    var v := Strip(value);
    assert forall k :: 0 <= k < |v| ==> v[k] in value;
  }

  /** A name captured by `@define-color` is never one captured by `--`: the first has no `-`, the second always has one. */
  lemma PatternNamesDiffer(name: string)
    ensures !(NameShape(DefineColor, name) && NameShape(Variable, name))
  {
  }

  /** The last declaration of a name decides its stored value (later declarations overwrite earlier ones). */
  lemma {:induction false} StoreAllLastWins(t: Table, ds: seq<Declaration>, j: nat)
    requires t.Valid()
    requires j < |ds|
    requires forall k :: j < k < |ds| ==> ds[k].name != ds[j].name
    ensures ds[j].name in StoreAll(t, ds).values
    ensures StoreAll(t, ds).values[ds[j].name] == Strip(ds[j].value)
    decreases |ds|
  {
    if j < |ds| - 1 {
      StoreAllLastWins(t, ds[..|ds| - 1], j);
    }
  }

  /** A name that no declaration mentions keeps its entry, or its absence, in the table. */
  lemma {:induction false} StoreAllUntouched(t: Table, ds: seq<Declaration>, name: string)
    requires t.Valid()
    requires forall k :: 0 <= k < |ds| ==> ds[k].name != name
    ensures (name in StoreAll(t, ds).values) == (name in t.values)
    ensures name in t.values ==> StoreAll(t, ds).values[name] == t.values[name]
    decreases |ds|
  {
    if ds != [] {
      StoreAllUntouched(t, ds[..|ds| - 1], name);
    }
  }

  /** The names a list of declarations mentions. */
  function Names(ds: seq<Declaration>): set<string> {
    set d | d in ds :: d.name
  }

  /** Storing adds exactly the declared names to the keys. */
  lemma {:induction false} StoreAllKeys(t: Table, ds: seq<Declaration>)
    requires t.Valid()
    ensures StoreAll(t, ds).values.Keys == t.values.Keys + Names(ds)
    decreases |ds|
  {
    if ds != [] {
      StoreAllKeys(t, ds[..|ds| - 1]);
      StoreAllKeysStep(t, ds);
      NamesLast(ds);
    }
  }

  /** Storing one more declaration adds its name to the keys. */
  lemma StoreAllKeysStep(t: Table, ds: seq<Declaration>)
    requires t.Valid() && ds != []
    ensures StoreAll(t, ds).values.Keys == StoreAll(t, ds[..|ds| - 1]).values.Keys + {ds[|ds| - 1].name}
  {
  }

  /** The names of a list are those of all but its last declaration, and the last one's. */
  lemma NamesLast(ds: seq<Declaration>)
    requires ds != []
    ensures Names(ds) == Names(ds[..|ds| - 1]) + {ds[|ds| - 1].name}
  {
    var init := ds[..|ds| - 1];
    assert ds == init + [ds[|ds| - 1]];
    assert forall e :: e in ds <==> e in init || e == ds[|ds| - 1];
  }

  /**
   * The scanner's table maps exactly the names found by the two scans, and the
   * last declaration of a name, whichever scan found it, gives its stripped value:
   * the two scans never overwrite each other's names.
   */
  lemma ScanLastDeclarationWins(content: string, p: Pattern, j: nat)
    requires j < |FindAll(p, content, 0)|
    requires forall k :: j < k < |FindAll(p, content, 0)| ==> FindAll(p, content, 0)[k].name != FindAll(p, content, 0)[j].name
    ensures FindAll(p, content, 0)[j].name in DeclarationTable(content).values
    ensures DeclarationTable(content).values[FindAll(p, content, 0)[j].name] == Strip(FindAll(p, content, 0)[j].value)
  {
    var defines := FindAll(DefineColor, content, 0);
    var vars := FindAll(Variable, content, 0);
    if p == DefineColor {
      var name := defines[j].name;
      StoreAllLastWins(EmptyTable, defines, j);
      forall k | 0 <= k < |vars| ensures vars[k].name != name {
        PatternNamesDiffer(name);
      }
      StoreAllUntouched(StoreAll(EmptyTable, defines), vars, name);
    } else {
      StoreAllLastWins(StoreAll(EmptyTable, defines), vars, j);
    }
  }

  /** The key set of the scanner's table: the names of both scans. */
  lemma ScanKeys(content: string)
    ensures DeclarationTable(content).values.Keys == Names(FindAll(DefineColor, content, 0)) + Names(FindAll(Variable, content, 0))
  {
    var defines := FindAll(DefineColor, content, 0);
    StoreAllKeys(EmptyTable, defines);
    StoreAllKeys(StoreAll(EmptyTable, defines), FindAll(Variable, content, 0));
  }

  /** A declaration that `@define-color name value;` states literally: a word name and a value-class value not starting with a blank. */
  predicate Declarable(d: Declaration) {
    NameShape(DefineColor, d.name) && ValueShape(d.value) && !IsSpace(d.value[0])
  }

  /** The stylesheet line `@define-color name value;`. */
  function DefineColorLine(d: Declaration): string {
    DefineColorKeyword + " " + d.name + " " + d.value + ";\n"
  }

  /** A stylesheet made of `@define-color` lines only. */
  function Stylesheet(ds: seq<Declaration>): string
    decreases |ds|
  {
    if ds == [] then [] else DefineColorLine(ds[0]) + Stylesheet(ds[1..])
  }

  /** What `@define-color` captures at `i` when the text there has the shape of a declaration with single blanks. */
  /** One blank, then a value run that does not start with a blank and ends at `;`: the tail matches that value. */
  lemma MatchValueTailShape(s: string, valueAt: nat, semi: nat)
    requires 0 < valueAt < semi < |s|
    requires s[valueAt - 1] == ' ' && s[semi] == ';'
    requires forall k :: valueAt <= k < semi ==> IsValueChar(s[k])
    requires !IsSpace(s[valueAt])
    ensures MatchValueTail(s, valueAt - 1, 1) == Some((s[valueAt..semi], semi + 1))
  {
    SkipWhileStops(s, valueAt - 1, valueAt, IsSpace);
    SkipWhileStops(s, valueAt, semi, IsValueChar);
  }

  lemma MatchDefineColorShape(s: string, i: nat, valueAt: nat, semi: nat)
    requires OccursAt(s, DefineColorKeyword, i)
    requires i + |DefineColorKeyword| + 1 < valueAt - 1 < valueAt < semi < |s|
    requires s[i + |DefineColorKeyword|] == ' ' && s[valueAt - 1] == ' ' && s[semi] == ';'
    requires forall k :: i + |DefineColorKeyword| + 1 <= k < valueAt - 1 ==> IsWordChar(s[k])
    requires forall k :: valueAt <= k < semi ==> IsValueChar(s[k])
    requires !IsSpace(s[valueAt])
    ensures MatchDefineColorAt(s, i) == Some(Match(s[i + |DefineColorKeyword| + 1..valueAt - 1], s[valueAt..semi], semi + 1))
  {
    var nameAt := i + |DefineColorKeyword| + 1;
    SkipWhileStops(s, nameAt - 1, nameAt, IsSpace);
    SkipWhileStops(s, nameAt, valueAt - 1, IsWordChar);
    MatchValueTailShape(s, valueAt, semi);
  }

  /** A text made of `x`, a `@define-color` line and `y` holds that line right after `x`. */
  lemma DefineColorLineOccurs(s: string, x: string, d: Declaration, y: string)
    requires s == x + DefineColorLine(d) + y
    ensures OccursAt(s, DefineColorLine(d), |x|)
  {
    assert s[|x|..|x| + |DefineColorLine(d)|] == DefineColorLine(d);
  }

  /** Two or more blanks before the `;`: the value group gives back the last blank. */
  lemma MatchValueTailBlank(s: string, p: nat, semi: nat)
    requires p + 2 <= semi < |s| && s[semi] == ';'
    requires forall k :: p <= k < semi ==> IsSpace(s[k])
    ensures MatchValueTail(s, p, 1) == Some((s[semi - 1..semi], semi + 1))
  {
    SkipWhileStops(s, p, semi, IsSpace);
    SkipWhileStops(s, semi, semi, IsValueChar);
  }

  /**
   * `@define-color name` followed by two or more blanks and `;` matches with a value of
   * one blank, which the storing loop strips to the empty string.
   */
  lemma MatchDefineColorBlankValue(s: string, i: nat, nameEnd: nat, semi: nat)
    requires i + |DefineColorKeyword| + 1 < nameEnd && nameEnd + 2 <= semi < |s| && s[semi] == ';'
    requires OccursAt(s, DefineColorKeyword, i) && s[i + |DefineColorKeyword|] == ' '
    requires forall k :: i + |DefineColorKeyword| + 1 <= k < nameEnd ==> IsWordChar(s[k])
    requires forall k :: nameEnd <= k < semi ==> IsSpace(s[k])
    ensures MatchDefineColorAt(s, i) == Some(Match(s[i + |DefineColorKeyword| + 1..nameEnd], s[semi - 1..semi], semi + 1))
    ensures Strip(s[semi - 1..semi]) == ""
  {
    var nameAt := i + |DefineColorKeyword| + 1;
    SkipWhileStops(s, nameAt - 1, nameAt, IsSpace);
    SkipWhileStops(s, nameAt, nameEnd, IsWordChar);
    MatchValueTailBlank(s, nameEnd, semi);
    assert IsSpace(s[semi - 1..semi][0]);
  }

  /** Where the pieces of a `@define-color` line sit inside it. */
  lemma DefineColorLinePieces(d: Declaration)
    ensures |DefineColorLine(d)| == |DefineColorKeyword| + |d.name| + |d.value| + 4
    ensures DefineColorLine(d)[..|DefineColorKeyword|] == DefineColorKeyword
    ensures DefineColorLine(d)[|DefineColorKeyword|] == ' '
    ensures DefineColorLine(d)[|DefineColorKeyword| + 1..|DefineColorKeyword| + 1 + |d.name|] == d.name
    ensures DefineColorLine(d)[|DefineColorKeyword| + 1 + |d.name|] == ' '
    ensures DefineColorLine(d)[|DefineColorKeyword| + 2 + |d.name|..|DefineColorKeyword| + 2 + |d.name| + |d.value|] == d.value
    ensures DefineColorLine(d)[|DefineColorKeyword| + 2 + |d.name| + |d.value|] == ';'
    ensures DefineColorLine(d)[|DefineColorKeyword| + 3 + |d.name| + |d.value|] == '\n'
  {
  }

  /** A slice of a text that occurs at `i` is the same slice of the text around it, shifted by `i`. */
  lemma SliceOfOccurrence(s: string, t: string, i: nat, lo: nat, hi: nat)
    requires OccursAt(s, t, i) && lo <= hi <= |t|
    ensures s[i + lo..i + hi] == t[lo..hi]
  {
    forall k | 0 <= k < hi - lo ensures s[i + lo..i + hi][k] == t[lo..hi][k] {
      assert s[i + lo + k] == s[i..i + |t|][lo + k];
    }
  }

  /** A character of a text that occurs at `i` sits at its index shifted by `i`. */
  lemma CharOfOccurrence(s: string, t: string, i: nat, k: nat)
    requires OccursAt(s, t, i) && k < |t|
    ensures s[i + k] == t[k]
  {
    assert s[i + k] == s[i..i + |t|][k];
  }

  /** Where the pieces of a `@define-color` line sit inside a text that holds it at `i`. */
  lemma DefineColorLineLayout(s: string, i: nat, d: Declaration)
    requires OccursAt(s, DefineColorLine(d), i)
    ensures |DefineColorLine(d)| == |DefineColorKeyword| + |d.name| + |d.value| + 4
    ensures OccursAt(s, DefineColorKeyword, i)
    ensures s[i + |DefineColorKeyword|] == ' ' && s[i + |DefineColorKeyword| + 1 + |d.name|] == ' '
    ensures s[i + |DefineColorKeyword| + 2 + |d.name| + |d.value|] == ';'
    ensures s[i + |DefineColorLine(d)| - 1] == '\n'
    ensures s[i + |DefineColorKeyword| + 1..i + |DefineColorKeyword| + 1 + |d.name|] == d.name
    ensures s[i + |DefineColorKeyword| + 2 + |d.name|..i + |DefineColorKeyword| + 2 + |d.name| + |d.value|] == d.value
  {
    var line := DefineColorLine(d);
    var n := |DefineColorKeyword|;
    DefineColorLinePieces(d);
    SliceOfOccurrence(s, line, i, 0, n);
    SliceOfOccurrence(s, line, i, n + 1, n + 1 + |d.name|);
    SliceOfOccurrence(s, line, i, n + 2 + |d.name|, n + 2 + |d.name| + |d.value|);
    CharOfOccurrence(s, line, i, n);
    CharOfOccurrence(s, line, i, n + 1 + |d.name|);
    CharOfOccurrence(s, line, i, n + 2 + |d.name| + |d.value|);
    CharOfOccurrence(s, line, i, n + 3 + |d.name| + |d.value|);
  }

  /** `@define-color`, one blank, a name, one blank, a value that does not start with a blank, and `;` at `i`: the match captures that name and value. */
  lemma MatchDefineColorPieces(s: string, i: nat, name: string, value: string, end: nat)
    requires NameShape(DefineColor, name) && ValueShape(value) && !IsSpace(value[0])
    requires i + |DefineColorKeyword| + |name| + |value| + 2 < |s|
    requires OccursAt(s, DefineColorKeyword, i)
    requires s[i + |DefineColorKeyword|] == ' ' && s[i + |DefineColorKeyword| + 1 + |name|] == ' '
    requires s[i + |DefineColorKeyword| + 2 + |name| + |value|] == ';'
    requires s[i + |DefineColorKeyword| + 1..i + |DefineColorKeyword| + 1 + |name|] == name
    requires s[i + |DefineColorKeyword| + 2 + |name|..i + |DefineColorKeyword| + 2 + |name| + |value|] == value
    requires end == i + |DefineColorKeyword| + |name| + |value| + 3
    ensures MatchDefineColorAt(s, i) == Some(Match(name, value, end))
  {
    var nameAt := i + |DefineColorKeyword| + 1;
    var valueAt := nameAt + |name| + 1;
    var semi := valueAt + |value|;
    forall k | nameAt <= k < valueAt - 1 ensures IsWordChar(s[k]) {
      assert s[k] == name[k - nameAt];
    }
    forall k | valueAt <= k < semi ensures IsValueChar(s[k]) {
      assert s[k] == value[k - valueAt];
    }
    assert s[valueAt] == value[0];
    MatchDefineColorShape(s, i, valueAt, semi);
  }

  /** `@define-color` matches its own line wherever the line sits, and the match ends before the newline. */
  lemma MatchDefineColorLine(s: string, i: nat, d: Declaration)
    requires Declarable(d)
    requires OccursAt(s, DefineColorLine(d), i)
    ensures MatchDefineColorAt(s, i) == Some(Match(d.name, d.value, i + |DefineColorLine(d)| - 1))
    ensures s[i + |DefineColorLine(d)| - 1] == '\n'
  {
    DefineColorLineLayout(s, i, d);
    MatchDefineColorPieces(s, i, d.name, d.value, i + |DefineColorLine(d)| - 1);
  }

  /** A stylesheet of `@define-color` lines only has no `--` anywhere. */
  predicate NoDoubleHyphen(s: string) {
    forall k :: 0 <= k < |s| - 1 ==> !(s[k] == '-' && s[k + 1] == '-')
  }

  /** The only hyphen of a `@define-color` line is the one inside the keyword, and a letter follows it. */
  lemma DefineColorLineHyphen(d: Declaration, k: nat)
    requires Declarable(d)
    requires k < |DefineColorLine(d)| && DefineColorLine(d)[k] == '-'
    ensures k == 7 && DefineColorLine(d)[k + 1] == 'c'
  {
    var line := DefineColorLine(d);
    assert line[..|DefineColorKeyword|] == DefineColorKeyword;
    if k < |DefineColorKeyword| {
      assert DefineColorKeyword[k] == '-';
    }
  }

  lemma {:induction false} StylesheetNoDoubleHyphen(ds: seq<Declaration>)
    requires forall d | d in ds :: Declarable(d)
    ensures NoDoubleHyphen(Stylesheet(ds))
    decreases |ds|
  {
    if ds != [] {
      var line := DefineColorLine(ds[0]);
      var rest := Stylesheet(ds[1..]);
      StylesheetNoDoubleHyphen(ds[1..]);
      var s := line + rest;
      forall k | 0 <= k < |s| - 1 ensures !(s[k] == '-' && s[k + 1] == '-') {
        if k >= |line| {
          assert s[k] == rest[k - |line|] && s[k + 1] == rest[k + 1 - |line|];
        } else if s[k] == '-' {
          DefineColorLineHyphen(ds[0], k);
        }
      }
    }
  }

  /** Without `--` in the text, the `--name: value;` scan finds nothing. */
  lemma {:induction false} FindVariablesNone(s: string, i: nat)
    requires i <= |s|
    requires NoDoubleHyphen(s)
    ensures FindAll(Variable, s, i) == []
    decreases |s| - i
  {
    if i < |s| {
      assert !OccursAt(s, "--", i) by {
        if i + 2 <= |s| {
          assert s[i..i + 2][0] == s[i] && s[i..i + 2][1] == s[i + 1];
        }
      }
      FindVariablesNone(s, i + 1);
    }
  }

  /** One step of `re.findall` at a position where the pattern matches. */
  lemma FindAllMatched(p: Pattern, s: string, i: nat, m: Match)
    requires i < |s| && MatchAt(p, s, i) == Some(m)
    ensures FindAll(p, s, i) == [Declaration(m.name, m.value)] + FindAll(p, s, m.end)
  {
  }

  /** One step of `re.findall` at a position where the pattern does not match. */
  lemma FindAllSkipped(p: Pattern, s: string, i: nat)
    requires i < |s| && MatchAt(p, s, i) == None
    ensures FindAll(p, s, i) == FindAll(p, s, i + 1)
  {
  }

  /** `@define-color` cannot match where the text has a newline. */
  lemma NoDefineColorAtNewline(s: string, i: nat)
    requires i < |s| && s[i] == '\n'
    ensures MatchAt(DefineColor, s, i) == None
  {
    if i + |DefineColorKeyword| <= |s| {
      assert s[i..i + |DefineColorKeyword|][0] == s[i];
    }
  }

  /** After a `@define-color` match that ends at a newline, the scan resumes past the newline. */
  lemma FindAllOverMatch(s: string, a: nat, d: Declaration, nl: nat, after: nat)
    requires a < nl < |s| && s[nl] == '\n' && after == nl + 1
    requires MatchDefineColorAt(s, a) == Some(Match(d.name, d.value, nl))
    ensures FindAll(DefineColor, s, a) == [d] + FindAll(DefineColor, s, after)
  {
    FindAllMatched(DefineColor, s, a, Match(d.name, d.value, nl));
    NoDefineColorAtNewline(s, nl);
    FindAllSkipped(DefineColor, s, nl);
    assert Declaration(d.name, d.value) == d;
  }

  /** The scan finds a `@define-color` line's declaration and resumes at `after`, just past the line's newline. */
  lemma FindAllOverLine(s: string, x: string, d: Declaration, y: string, after: nat)
    requires Declarable(d)
    requires s == x + DefineColorLine(d) + y
    requires after == |x| + |DefineColorLine(d)|
    ensures FindAll(DefineColor, s, |x|) == [d] + FindAll(DefineColor, s, after)
  {
    DefineColorLineOccurs(s, x, d, y);
    MatchDefineColorLine(s, |x|, d);
    FindAllOverMatch(s, |x|, d, after - 1, after);
  }

  /** Scanning the lines of a stylesheet from any point where they start gives back their declarations, in order. */
  lemma {:induction false} FindAllStylesheet(s: string, x: string, ds: seq<Declaration>)
    requires forall d | d in ds :: Declarable(d)
    requires s == x + Stylesheet(ds)
    ensures FindAll(DefineColor, s, |x|) == ds
    decreases |ds|
  {
    if ds != [] {
      var line := DefineColorLine(ds[0]);
      var rest := Stylesheet(ds[1..]);
      assert s == x + line + rest;
      FindAllOverLine(s, x, ds[0], rest, |x + line|);
      assert s == (x + line) + rest;
      FindAllStylesheet(s, x + line, ds[1..]);
    }
  }

  /**
   * A stylesheet of `@define-color` lines yields the table that storing its
   * declarations in order builds: one entry per distinct name, the last
   * declaration of a name winning (see StoreAllLastWins and StoreAllKeys).
   */
  lemma ScanStylesheet(ds: seq<Declaration>)
    requires forall d | d in ds :: Declarable(d)
    ensures DeclarationTable(Stylesheet(ds)) == StoreAll(EmptyTable, ds)
  {
    FindAllStylesheet(Stylesheet(ds), [], ds);
    StylesheetNoDoubleHyphen(ds);
    FindVariablesNone(Stylesheet(ds), 0);
  }
}
