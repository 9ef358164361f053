/**
 * `_normalize_color`: a colour value is stripped; a value starting with `#`
 * is kept, and a value that holds `rgb(r, g, b` or `rgba(r, g, b` (found by a
 * case-sensitive search, once a case-insensitive test has seen `rgb`) becomes
 * `#` followed by each component as at least two lower-case hex digits.
 * Any other value comes back stripped.
 */
module Normalizer {
  import opened Results
  import opened Text

  /** The three components captured by `rgba?\((\d+),\s*(\d+),\s*(\d+)`, read with `int()`. */
  datatype Rgb = Rgb(r: nat, g: nat, b: nat)

  /** The value of a decimal digit. */
  function DigitValue(c: char): nat
    requires IsDigit(c)
  {
    c as int - '0' as int
  }

  /** `int(ds)` for a string of decimal digits. */
  function DecimalValue(ds: string): nat
    requires AllChars(ds, IsDigit)
    decreases |ds|
  {
    if ds == [] then 0 else 10 * DecimalValue(ds[..|ds| - 1]) + DigitValue(ds[|ds| - 1])
  }

  /** `str(n)`: the decimal digits of `n`, without leading zeros. */
  function Decimal(n: nat): (ds: string)
    ensures ds != [] && AllChars(ds, IsDigit)
    ensures |ds| > 1 ==> ds[0] != '0'
  {
    if n < 10 then [('0' as int + n) as char] else Decimal(n / 10) + [('0' as int + n % 10) as char]
  }

  /** The lower-case hex digit of a value below 16, as `format` writes it. */
  function HexDigit(d: nat): (c: char)
    requires d < 16
    ensures IsHexDigit(c)
  {
    "0123456789abcdef"[d]
  }

  /** A lower-case hex digit. */
  predicate IsHexDigit(c: char) {
    ('0' <= c <= '9') || ('a' <= c <= 'f')
  }

  /** The value of a lower-case hex digit. */
  function HexDigitValue(c: char): nat
    requires IsHexDigit(c)
  {
    if c <= '9' then c as int - '0' as int else c as int - 'a' as int + 10
  }

  /** The value of a string of lower-case hex digits. */
  function HexValue(hs: string): nat
    requires AllChars(hs, IsHexDigit)
    decreases |hs|
  {
    if hs == [] then 0 else 16 * HexValue(hs[..|hs| - 1]) + HexDigitValue(hs[|hs| - 1])
  }

  /** `format(n, 'x')`: the lower-case hex digits of `n`, without leading zeros. */
  function Hex(n: nat): (hs: string)
    ensures hs != [] && AllChars(hs, IsHexDigit)
    ensures |hs| > 1 ==> hs[0] != '0'
  {
    if n < 16 then [HexDigit(n)] else Hex(n / 16) + [HexDigit(n % 16)]
  }

  /** `format(n, '02x')`: the hex digits of `n`, padded with zeros on the left to at least two. */
  function Hex2(n: nat): (hs: string)
    ensures AllChars(hs, IsHexDigit)
  {
    if n < 16 then "0" + Hex(n) else Hex(n)
  }

  /** `f'#{r:02x}{g:02x}{b:02x}'`. */
  function HexColor(c: Rgb): (s: string)
    ensures |s| > 0 && s[0] == '#'
  {
    "#" + Hex2(c.r) + Hex2(c.g) + Hex2(c.b)
  }

  /**
   * `(\d+),\s*` at index `j`: the value of the digit run and the index after the
   * blanks that follow its comma. Both runs are greedy and nothing after them could
   * be matched by giving characters back, so this is the only way the part matches.
   */
  function ComponentThenComma(s: string, j: nat): (r: Option<(nat, nat)>)
    requires j <= |s|
    ensures r.Some? ==> j < r.value.1 <= |s|
  {
    var d := SkipWhile(s, j, IsDigit);
    if d == j || d == |s| || s[d] != ',' then None
    else Some((DecimalValue(s[j..d]), SkipWhile(s, d + 1, IsSpace)))
  }

  /** `rgba?\(` at index `i`: the index just after the parenthesis. */
  function OpenAt(s: string, i: nat): (r: Option<nat>)
    requires i <= |s|
    ensures r.Some? ==> i < r.value <= |s|
  {
    if !OccursAt(s, "rgb", i) then None
    else
      var open := if i + 3 < |s| && s[i + 3] == 'a' then i + 4 else i + 3;
      if open == |s| || s[open] != '(' then None else Some(open + 1)
  }

  /** The last `(\d+)` at index `k`: the value of the digit run, which must not be empty. */
  function LastComponent(s: string, k: nat): Option<nat>
    requires k <= |s|
  {
    var e := SkipWhile(s, k, IsDigit);
    if e == k then None else Some(DecimalValue(s[k..e]))
  }

  /** `rgba?\((\d+),\s*(\d+),\s*(\d+)` tried at index `i`. */
  function MatchRgbAt(s: string, i: nat): Option<Rgb>
    requires i <= |s|
  {
    match OpenAt(s, i)
    case None => None
    case Some(p) =>
      match ComponentThenComma(s, p)
      case None => None
      case Some((r, j)) =>
        match ComponentThenComma(s, j)
        case None => None
        case Some((g, k)) =>
          match LastComponent(s, k)
          case None => None
          case Some(b) => Some(Rgb(r, g, b))
  }

  /** The first value among `f(i)`, `f(i + 1)`, ..., `f(n)`: the leftmost index where a search succeeds. */
  function FirstFound<T>(f: nat -> Option<T>, i: nat, n: nat): Option<T>
    decreases n + 1 - i
  {
    if i > n then None
    else if f(i).Some? then f(i)
    else FirstFound(f, i + 1, n)
  }

  /** The pattern tried at each index of `s`; there is nothing past its end. */
  function MatchesIn(s: string): nat -> Option<Rgb> {
    (k: nat) => if k <= |s| then MatchRgbAt(s, k) else None
  }

  /** `re.search` of the pattern from index `i` on: the match at the first index where there is one. */
  function SearchRgb(s: string, i: nat): (m: Option<Rgb>)
    requires i <= |s|
  {
    FirstFound(MatchesIn(s), i, |s|)
  }

  /** `_normalize_color(color)`. */
  function Normalize(color: string): (r: string)
    ensures IsTrimmed(r)
  {
    NormalizeStripped(Strip(color))
  }

  /** `_normalize_color` once the value has been stripped to `c`. */
  function NormalizeStripped(c: string): (r: string)
    requires IsTrimmed(c)
    ensures IsTrimmed(r)
  {
    if |c| > 0 && c[0] == '#' then c
    else if Contains(Lower(c), "rgb") then
      match SearchRgb(c, 0)
      case Some(rgb) => HexComponentsTrimmed(rgb); HexColor(rgb)
      case None => c
    else c
  }

  /** A hex colour has no blank at either end. */
  lemma HexComponentsTrimmed(c: Rgb)
    ensures IsTrimmed(HexColor(c))
  {
    var s := HexColor(c);
    var last := s[|s| - 1];
    assert IsHexDigit(last) by {
      assert s == "#" + Hex2(c.r) + Hex2(c.g) + Hex2(c.b);
      assert Hex(c.b) != [];
      assert last == Hex2(c.b)[|Hex2(c.b)| - 1];
    }
  }

  /** Reading back the decimal digits of `n` gives `n`. */
  lemma {:induction false} DecimalRoundTrip(n: nat)
    ensures DecimalValue(Decimal(n)) == n
  {
    if n >= 10 {
      DecimalRoundTrip(n / 10);
      var ds := Decimal(n);
      assert ds[..|ds| - 1] == Decimal(n / 10);
    }
  }

  /** Reading back the hex digits of `n` gives `n`. */
  lemma {:induction false} HexRoundTrip(n: nat)
    ensures HexValue(Hex(n)) == n
  {
    if n >= 16 {
      HexRoundTrip(n / 16);
      var hs := Hex(n);
      assert hs[..|hs| - 1] == Hex(n / 16);
      HexDigitRoundTrip(n % 16);
    } else {
      HexDigitRoundTrip(n);
    }
  }

  /** Reading back the hex digit of `d` gives `d`. */
  lemma HexDigitRoundTrip(d: nat)
    requires d < 16
    ensures HexDigitValue(HexDigit(d)) == d
  {
  }

  /** The number of hex digits of `n` is one below 16, two from 16 to 255 and more from 256 on. */
  lemma {:induction false} HexLength(n: nat)
    ensures |Hex(n)| == 1 <==> n < 16
    ensures |Hex(n)| == 2 <==> 16 <= n < 256
  {
    if n >= 16 {
      HexLength(n / 16);
    }
  }

  /** The padded field reads back as `n` and is exactly two digits wide precisely for the values 0 to 255. */
  lemma Hex2RoundTrip(n: nat)
    ensures HexValue(Hex2(n)) == n
    ensures |Hex2(n)| == 2 <==> n < 256
  {
    HexRoundTrip(n);
    HexLength(n);
    if n < 16 {
      var hs := Hex2(n);
      assert hs[..1] == "0";
      assert HexValue("0") == 0;
    }
  }

  /** A hex colour is the seven characters `#rrggbb` exactly when every component is at most 255, and each pair reads back as its component. */
  lemma HexColorComponents(c: Rgb)
    ensures |HexColor(c)| == 7 <==> c.r < 256 && c.g < 256 && c.b < 256
    ensures c.r < 256 && c.g < 256 && c.b < 256 ==>
      HexValue(HexColor(c)[1..3]) == c.r && HexValue(HexColor(c)[3..5]) == c.g && HexValue(HexColor(c)[5..7]) == c.b
  {
    Hex2RoundTrip(c.r);
    Hex2RoundTrip(c.g);
    Hex2RoundTrip(c.b);
    Hex2Wide(c.r);
    Hex2Wide(c.g);
    Hex2Wide(c.b);
    if c.r < 256 && c.g < 256 && c.b < 256 {
      var s := HexColor(c);
      assert s[1..3] == Hex2(c.r);
      assert s[3..5] == Hex2(c.g);
      assert s[5..7] == Hex2(c.b);
    }
  }

  /** The padded field has at least two digits. */
  lemma Hex2Wide(n: nat)
    ensures |Hex2(n)| >= 2
  {
    HexLength(n);
  }

  /** `_normalize_color` is idempotent: a normalised value normalises to itself. */
  lemma NormalizeIdempotent(color: string)
    ensures Normalize(Normalize(color)) == Normalize(color)
  {
    var r := Normalize(color);
    StripTrimmed(r);
    var c := Strip(color);
    if !(|c| > 0 && c[0] == '#') && Contains(Lower(c), "rgb") && SearchRgb(c, 0).Some? {
      assert r[0] == '#';
    }
  }

  /** A run of decimal digits, as `\d+` matches it. */
  predicate IsNumeral(ds: string) {
    ds != [] && AllChars(ds, IsDigit)
  }

  /** A component written as the digits `ds`, its comma and the blanks `sep`, before the text `rest`. */
  function ComponentText(ds: string, sep: string, rest: string): string {
    ds + "," + sep + rest
  }

  /**
   * The text `rgb(` (or `rgba(`) with the three components written as the digits
   * `dr`, `dg` and `db`, each comma followed by the blanks `sep1` and `sep2`, and
   * then the text `tail`.
   */
  function RgbText(alpha: bool, dr: string, sep1: string, dg: string, sep2: string, db: string, tail: string): string {
    (if alpha then "rgba(" else "rgb(") + ComponentText(dr, sep1, ComponentText(dg, sep2, db + tail))
  }

  /** Regrouping a text that contains a written component. */
  lemma ComponentTextSplit(x: string, ds: string, sep: string, y: string)
    ensures x + ComponentText(ds, sep, y) == x + ds + "," + sep + y
    ensures x + ComponentText(ds, sep, y) == (x + ds + "," + sep) + y
  {
  }

  /** A component written as the digits `ds` after `x`, then a comma and the blanks `sep`, before a digit: it is read and the match goes on at that digit. */
  lemma {:induction false} ComponentAt(s: string, x: string, ds: string, sep: string, y: string, next: nat)
    requires s == x + ds + "," + sep + y
    requires IsNumeral(ds) && AllChars(sep, IsSpace) && y != [] && IsDigit(y[0])
    requires next == |x + ds + "," + sep|
    ensures |x| <= |s|
    ensures ComponentThenComma(s, |x|) == Some((DecimalValue(ds), next))
  {
    var d := |x| + |ds|;
    forall k | |x| <= k < d ensures IsDigit(s[k]) {
      assert s[k] == ds[k - |x|];
    }
    assert s[d] == ',';
    SkipWhileStops(s, |x|, d, IsDigit);
    forall k | d + 1 <= k < next ensures IsSpace(s[k]) {
      assert s[k] == sep[k - d - 1];
    }
    assert s[next] == y[0];
    SkipWhileStops(s, d + 1, next, IsSpace);
    assert s[|x|..d] == ds;
  }

  /** The last component, written as the digits `ds` after `x` and not followed by a digit, is the whole digit run there. */
  lemma LastComponentAt(s: string, x: string, ds: string, y: string)
    requires s == x + (ds + y)
    requires IsNumeral(ds) && (y == [] || !IsDigit(y[0]))
    ensures |x| <= |s| && LastComponent(s, |x|) == Some(DecimalValue(ds))
  {
    var e := |x| + |ds|;
    forall i | |x| <= i < e ensures IsDigit(s[i]) {
      assert s[i] == ds[i - |x|];
    }
    if y != [] {
      assert s[e] == y[0];
    }
    SkipWhileStops(s, |x|, e, IsDigit);
    assert s[|x|..e] == ds;
  }

  /** The prefix `rgb(` or `rgba(` after `x`, as the pattern sees it. */
  lemma RgbPrefix(s: string, x: string, alpha: bool, rest: string)
    requires s == x + (if alpha then "rgba(" else "rgb(") + rest
    ensures OccursAt(s, "rgb", |x|)
    ensures OpenAt(s, |x|) == Some(|x| + if alpha then 5 else 4)
  {
    assert s[|x|..|x| + 3] == "rgb";
  }

  /** The first two components and their commas, written after `x`, are read one after the other. */
  lemma {:induction false} TwoComponentsAt(s: string, x: string, dr: string, sep1: string, dg: string, sep2: string, y: string, j: nat, k: nat)
    requires s == x + ComponentText(dr, sep1, ComponentText(dg, sep2, y))
    requires IsNumeral(dr) && IsNumeral(dg) && AllChars(sep1, IsSpace) && AllChars(sep2, IsSpace) && y != [] && IsDigit(y[0])
    requires j == |x| + |dr| + 1 + |sep1| && k == j + |dg| + 1 + |sep2|
    ensures ComponentThenComma(s, |x|) == Some((DecimalValue(dr), j))
    ensures k <= |s| && ComponentThenComma(s, j) == Some((DecimalValue(dg), k))
    ensures s == s[..k] + y
  {
    var y2 := ComponentText(dg, sep2, y);
    var x2 := x + dr + "," + sep1;
    ComponentTextSplit(x, dr, sep1, y2);
    ComponentAt(s, x, dr, sep1, y2, j);
    ComponentTextSplit(x2, dg, sep2, y);
    ComponentAt(s, x2, dg, sep2, y, k);
    assert s[..k] == x2 + dg + "," + sep2;
  }

  /** The three components written after `w` are read one after the other, ending at `j` and `k`. */
  lemma ComponentsAt(s: string, w: string, dr: string, sep1: string, dg: string, sep2: string, db: string, tail: string) returns (j: nat, k: nat)
    requires IsNumeral(dr) && IsNumeral(dg) && IsNumeral(db)
    requires AllChars(sep1, IsSpace) && AllChars(sep2, IsSpace)
    requires tail == [] || !IsDigit(tail[0])
    requires s == w + ComponentText(dr, sep1, ComponentText(dg, sep2, db + tail))
    ensures |w| <= |s| && j <= |s| && k <= |s|
    ensures ComponentThenComma(s, |w|) == Some((DecimalValue(dr), j))
    ensures ComponentThenComma(s, j) == Some((DecimalValue(dg), k))
    ensures LastComponent(s, k) == Some(DecimalValue(db))
  {
    j := |w| + |dr| + 1 + |sep1|;
    k := j + |dg| + 1 + |sep2|;
    TwoComponentsAt(s, w, dr, sep1, dg, sep2, db + tail, j, k);
    LastComponentAt(s, s[..k], db, tail);
  }

  /** The pattern matches at `i` when its opening, its two comma-ended components and its last component are found in turn. */
  lemma MatchRgbPieces(s: string, i: nat, p: nat, j: nat, k: nat, c: Rgb)
    requires i <= |s| && p <= |s| && j <= |s| && k <= |s|
    requires OpenAt(s, i) == Some(p)
    requires ComponentThenComma(s, p) == Some((c.r, j))
    requires ComponentThenComma(s, j) == Some((c.g, k))
    requires LastComponent(s, k) == Some(c.b)
    ensures MatchRgbAt(s, i) == Some(c)
  {
  }

  /** The pattern matches components written after any text `x` and reads them in decimal. */
  lemma {:induction false} MatchRgbText(s: string, x: string, alpha: bool, dr: string, sep1: string, dg: string, sep2: string, db: string, tail: string)
    requires IsNumeral(dr) && IsNumeral(dg) && IsNumeral(db)
    requires AllChars(sep1, IsSpace) && AllChars(sep2, IsSpace)
    requires tail == [] || !IsDigit(tail[0])
    requires s == x + RgbText(alpha, dr, sep1, dg, sep2, db, tail)
    ensures |x| <= |s| && MatchRgbAt(s, |x|) == Some(Rgb(DecimalValue(dr), DecimalValue(dg), DecimalValue(db)))
  {
    var prefix := if alpha then "rgba(" else "rgb(";
    var rest := ComponentText(dr, sep1, ComponentText(dg, sep2, db + tail));
    assert s == (x + prefix) + rest;
    RgbPrefix(s, x, alpha, rest);
    var j, k := ComponentsAt(s, x + prefix, dr, sep1, dg, sep2, db, tail);
    var c := Rgb(DecimalValue(dr), DecimalValue(dg), DecimalValue(db));
    MatchRgbPieces(s, |x|, |x + prefix|, j, k, c);
  }

  /** A trimmed text that starts with the pattern's match is normalised to the hex colour of that match. */
  lemma NormalizeMatchAtStart(s: string, c: Rgb)
    requires IsTrimmed(s) && MatchRgbAt(s, 0) == Some(c)
    ensures Normalize(s) == HexColor(c)
  {
    StripTrimmed(s);
    MatchRgbAtOccurs(s, 0);
    assert s[0] == s[..3][0] == 'r';
    NormalizeLeftmostMatch(s, 0, c);
  }

  /** The written components at the start of the text are matched there. */
  lemma MatchRgbTextAtStart(alpha: bool, dr: string, sep1: string, dg: string, sep2: string, db: string, tail: string)
    requires IsNumeral(dr) && IsNumeral(dg) && IsNumeral(db)
    requires AllChars(sep1, IsSpace) && AllChars(sep2, IsSpace)
    requires tail == [] || !IsDigit(tail[0])
    ensures MatchRgbAt(RgbText(alpha, dr, sep1, dg, sep2, db, tail), 0) == Some(Rgb(DecimalValue(dr), DecimalValue(dg), DecimalValue(db)))
  {
    var s := RgbText(alpha, dr, sep1, dg, sep2, db, tail);
    assert s == [] + s;
    MatchRgbText(s, [], alpha, dr, sep1, dg, sep2, db, tail);
  }

  /** A match of the pattern at `j` starts with `rgb` there. */
  lemma MatchRgbAtOccurs(s: string, j: nat)
    requires j <= |s| && MatchRgbAt(s, j).Some?
    ensures OccursAt(s, "rgb", j)
  {
  }

  /** A search finds nothing exactly when no index up to `n` succeeds. */
  lemma {:induction false} FirstFoundNone<T>(f: nat -> Option<T>, i: nat, n: nat)
    ensures FirstFound(f, i, n).None? <==> forall k :: i <= k <= n ==> f(k).None?
    decreases n + 1 - i
  {
    if i <= n && f(i).None? {
      FirstFoundNone(f, i + 1, n);
    }
  }

  /** A search that succeeds takes the first index that succeeds. */
  lemma {:induction false} FirstFoundSome<T>(f: nat -> Option<T>, i: nat, n: nat) returns (j: nat)
    requires FirstFound(f, i, n).Some?
    ensures i <= j <= n && f(j) == FirstFound(f, i, n)
    ensures forall k :: i <= k < j ==> f(k).None?
    decreases n + 1 - i
  {
    if f(i).Some? {
      j := i;
    } else {
      j := FirstFoundSome(f, i + 1, n);
    }
  }

  /** Where the first index that succeeds is `j`, the search takes the value there. */
  lemma {:induction false} FirstFoundLeftmost<T>(f: nat -> Option<T>, i: nat, j: nat, n: nat)
    requires i <= j <= n && f(j).Some?
    requires forall k :: i <= k < j ==> f(k).None?
    ensures FirstFound(f, i, n) == f(j)
    decreases j - i
  {
    if i < j {
      FirstFoundLeftmost(f, i + 1, j, n);
    }
  }

  /** The search from `i` finds nothing exactly when the pattern matches at no index from `i` on. */
  lemma SearchRgbNone(s: string, i: nat)
    requires i <= |s|
    ensures SearchRgb(s, i).None? <==> forall k :: i <= k <= |s| ==> MatchRgbAt(s, k).None?
  {
    FirstFoundNone(MatchesIn(s), i, |s|);
    assert forall k :: i <= k <= |s| ==> MatchesIn(s)(k) == MatchRgbAt(s, k);
  }

  /** A search that finds a colour found it at the first index where the pattern matches. */
  lemma SearchRgbSome(s: string, i: nat) returns (j: nat)
    requires i <= |s| && SearchRgb(s, i).Some?
    ensures i <= j <= |s| && MatchRgbAt(s, j) == SearchRgb(s, i)
    ensures forall k :: i <= k < j ==> MatchRgbAt(s, k).None?
  {
    j := FirstFoundSome(MatchesIn(s), i, |s|);
    assert forall k :: i <= k <= |s| ==> MatchesIn(s)(k) == MatchRgbAt(s, k);
  }

  /** Where the pattern first matches from `i` on, the search takes that match. */
  lemma SearchRgbLeftmost(s: string, i: nat, j: nat)
    requires i <= j <= |s| && MatchRgbAt(s, j).Some?
    requires forall k :: i <= k < j ==> MatchRgbAt(s, k).None?
    ensures SearchRgb(s, i) == MatchRgbAt(s, j)
  {
    assert forall k :: i <= k <= |s| ==> MatchesIn(s)(k) == MatchRgbAt(s, k);
    FirstFoundLeftmost(MatchesIn(s), i, j, |s|);
  }

  /** `re.search` finds `c` exactly when `c` is the match at the leftmost index where the pattern matches. */
  lemma SearchRgbFinds(s: string, i: nat, c: Rgb)
    requires i <= |s|
    ensures SearchRgb(s, i) == Some(c) <==>
      exists j :: i <= j <= |s| && MatchRgbAt(s, j) == Some(c) && forall k :: i <= k < j ==> MatchRgbAt(s, k).None?
  {
    if SearchRgb(s, i) == Some(c) {
      var j := SearchRgbSome(s, i);
    }
    if exists j :: i <= j <= |s| && MatchRgbAt(s, j) == Some(c) && forall k :: i <= k < j ==> MatchRgbAt(s, k).None? {
      var j :| i <= j <= |s| && MatchRgbAt(s, j) == Some(c) && forall k :: i <= k < j ==> MatchRgbAt(s, k).None?;
      SearchRgbLeftmost(s, i, j);
    }
  }

  /** A text holding `rgb` at `j` passes the case-insensitive test. */
  lemma LowerFindsRgbAt(s: string, j: nat)
    requires OccursAt(s, "rgb", j)
    ensures Contains(Lower(s), "rgb")
  {
    var l := Lower(s);
    assert s[j] == s[j..j + 3][0] && s[j + 1] == s[j..j + 3][1] && s[j + 2] == s[j..j + 3][2];
    assert l[j..j + 3] == "rgb";
    assert OccursAt(l, "rgb", j);
  }

  /**
   * A value that does not start with `#` once stripped, and in which the pattern first
   * matches at `j` with the colour `c`, wherever `j` lies, is normalised to the hex colour of `c`.
   */
  lemma NormalizeLeftmostMatch(color: string, j: nat, c: Rgb)
    requires !(|Strip(color)| > 0 && Strip(color)[0] == '#')
    requires j <= |Strip(color)| && MatchRgbAt(Strip(color), j) == Some(c)
    requires forall k :: 0 <= k < j ==> MatchRgbAt(Strip(color), k).None?
    ensures Normalize(color) == HexColor(c)
  {
    var s := Strip(color);
    SearchRgbLeftmost(s, 0, j);
    MatchRgbAtOccurs(s, j);
    LowerFindsRgbAt(s, j);
  }

  /** A value that does not start with `#` and in which the pattern matches nowhere is returned stripped. */
  lemma NormalizeNoMatch(color: string)
    requires !(|Strip(color)| > 0 && Strip(color)[0] == '#')
    requires forall k :: 0 <= k <= |Strip(color)| ==> MatchRgbAt(Strip(color), k).None?
    ensures Normalize(color) == Strip(color)
  {
    SearchRgbNone(Strip(color), 0);
  }

  /** A value whose stripped text holds no `rgb` is returned stripped, whatever else it holds. */
  lemma NormalizeWithoutRgb(color: string)
    requires !Contains(Strip(color), "rgb")
    ensures Normalize(color) == Strip(color)
  {
    var s := Strip(color);
    forall k | 0 <= k <= |s| ensures MatchRgbAt(s, k).None? {
      if MatchRgbAt(s, k).Some? {
        MatchRgbAtOccurs(s, k);
      }
    }
    SearchRgbNone(s, 0);
  }

  /** A colour name such as `seagreen` is returned as it is. */
  lemma NormalizeNameExample()
    ensures Normalize("seagreen") == "seagreen"
  {
    var s := "seagreen";
    StripTrimmed(s);
    forall k | 0 <= k <= |s| ensures !OccursAt(s, "rgb", k) {
      if k + 3 <= |s| {
        assert s[k..k + 3][2] == s[k + 2];
      }
    }
    NormalizeWithoutRgb(s);
  }

  /** The written text has no blank at either end. */
  lemma RgbTextTrimmed(s: string, alpha: bool, dr: string, sep1: string, dg: string, sep2: string, db: string, tail: string)
    requires IsNumeral(db)
    requires tail == [] || !IsSpace(tail[|tail| - 1])
    requires s == RgbText(alpha, dr, sep1, dg, sep2, db, tail)
    ensures IsTrimmed(s)
  {
    assert s[0] == 'r';
    if tail == [] {
      assert s[|s| - 1] == db[|db| - 1];
    } else {
      assert s[|s| - 1] == tail[|tail| - 1];
    }
  }

  /**
   * Writing three components as `rgb(r, g, b` or `rgba(r, g, b` followed by any text that
   * does not continue the last number and does not end in a blank, `_normalize_color`
   * gives back `#` and the three components in hex.
   */
  lemma {:induction false} NormalizeRgbText(alpha: bool, dr: string, sep1: string, dg: string, sep2: string, db: string, tail: string)
    requires IsNumeral(dr) && IsNumeral(dg) && IsNumeral(db)
    requires AllChars(sep1, IsSpace) && AllChars(sep2, IsSpace)
    requires tail == [] || (!IsDigit(tail[0]) && !IsSpace(tail[|tail| - 1]))
    ensures Normalize(RgbText(alpha, dr, sep1, dg, sep2, db, tail)) == HexColor(Rgb(DecimalValue(dr), DecimalValue(dg), DecimalValue(db)))
  {
    var s := RgbText(alpha, dr, sep1, dg, sep2, db, tail);
    MatchRgbTextAtStart(alpha, dr, sep1, dg, sep2, db, tail);
    RgbTextTrimmed(s, alpha, dr, sep1, dg, sep2, db, tail);
    NormalizeMatchAtStart(s, Rgb(DecimalValue(dr), DecimalValue(dg), DecimalValue(db)));
  }

  /** Writing the components of `c` in decimal as `rgb(...)` or `rgba(...)` and normalising gives the hex colour of `c`. */
  lemma NormalizeRgbRoundTrip(alpha: bool, c: Rgb, sep1: string, sep2: string, tail: string)
    requires AllChars(sep1, IsSpace) && AllChars(sep2, IsSpace)
    requires tail == [] || (!IsDigit(tail[0]) && !IsSpace(tail[|tail| - 1]))
    ensures Normalize(RgbText(alpha, Decimal(c.r), sep1, Decimal(c.g), sep2, Decimal(c.b), tail)) == HexColor(c)
  {
    DecimalRoundTrip(c.r);
    DecimalRoundTrip(c.g);
    DecimalRoundTrip(c.b);
    NormalizeRgbText(alpha, Decimal(c.r), sep1, Decimal(c.g), sep2, Decimal(c.b), tail);
  }

  /** `rgb(255, 128, 0)` normalises to `#ff8000`. */
  lemma NormalizeExample()
    ensures Normalize("rgb(255, 128, 0)") == "#ff8000"
  {
    var dr, dg, db := "255", "128", "0";
    assert AllChars(dr, IsDigit) && AllChars(dg, IsDigit) && AllChars(db, IsDigit);
    NormalizeRgbText(false, dr, " ", dg, " ", db, ")");
    ExampleText();
    ExampleValues();
  }

  /** The example's text is written as `RgbText` writes it. */
  lemma ExampleText()
    ensures RgbText(false, "255", " ", "128", " ", "0", ")") == "rgb(255, 128, 0)"
  {
    assert "0" + ")" == "0)";
    assert ComponentText("128", " ", "0)") == "128, 0)";
    assert ComponentText("255", " ", "128, 0)") == "255, 128, 0)";
    assert "rgb(" + "255, 128, 0)" == "rgb(255, 128, 0)";
  }

  /** The example's components read as 255, 128 and 0 and are written back as `ff`, `80` and `00`. */
  lemma ExampleValues()
    ensures DecimalValue("255") == 255 && DecimalValue("128") == 128 && DecimalValue("0") == 0
    ensures HexColor(Rgb(255, 128, 0)) == "#ff8000"
  {
    assert "255"[..2] == "25" && "25"[..1] == "2" && "2"[..0] == "";
    assert "128"[..2] == "12" && "12"[..1] == "1" && "1"[..0] == "";
    assert "0"[..0] == "";
    ExampleHex();
  }

  /** The hex fields of the example. */
  lemma ExampleHex()
    ensures Hex2(255) == "ff" && Hex2(128) == "80" && Hex2(0) == "00"
  {
    assert Hex(15) == "f" && Hex(8) == "8" && Hex(0) == "0";
    assert Hex(255) == "ff" && Hex(128) == "80";
    assert Hex2(0) == "00";
  }

  /** Without a lower-case `r` the case-sensitive pattern matches nowhere from `i` on. */
  lemma {:induction false} SearchWithoutR(s: string, i: nat)
    requires i <= |s| && forall k :: i <= k < |s| ==> s[k] != 'r'
    ensures SearchRgb(s, i) == None
    decreases |s| - i
  {
    assert !OccursAt(s, "rgb", i) by {
      if i + 3 <= |s| {
        assert s[i..i + 3][0] == s[i] != 'r';
      }
    }
    assert MatchesIn(s)(i) == None;
    if i < |s| {
      SearchWithoutR(s, i + 1);
    }
    assert SearchRgb(s, i) == FirstFound(MatchesIn(s), i + 1, |s|);
  }

  /**
   * A value without a lower-case `r` is only stripped: in particular `RGB(1, 2, 3)` passes
   * the case-insensitive test but is not matched by the case-sensitive pattern.
   */
  lemma NormalizeWithoutR(color: string)
    requires 'r' !in color
    ensures Normalize(color) == Strip(color)
  {
    var c := Strip(color);
    assert forall k :: 0 <= k < |c| ==> c[k] in c;
    SearchWithoutR(c, 0);
  }

  /** Where the text has no `r`, the pattern does not match. */
  lemma NoMatchWithoutR(s: string, k: nat)
    requires k < |s| && s[k] != 'r'
    ensures MatchRgbAt(s, k).None?
  {
    if k + 3 <= |s| {
      assert s[k..k + 3][0] == s[k];
    }
  }

  /**
   * Components written after a text `x` without `r` are the leftmost match, so a value
   * of that form that does not start with `#` normalises to their hex colour.
   */
  lemma NormalizeAfterText(x: string, alpha: bool, dr: string, sep1: string, dg: string, sep2: string, db: string, tail: string)
    requires IsNumeral(dr) && IsNumeral(dg) && IsNumeral(db)
    requires AllChars(sep1, IsSpace) && AllChars(sep2, IsSpace)
    requires tail == [] || !IsDigit(tail[0])
    requires 'r' !in x && (x == [] || x[0] != '#')
    requires IsTrimmed(x + RgbText(alpha, dr, sep1, dg, sep2, db, tail))
    ensures Normalize(x + RgbText(alpha, dr, sep1, dg, sep2, db, tail)) == HexColor(Rgb(DecimalValue(dr), DecimalValue(dg), DecimalValue(db)))
  {
    var s := x + RgbText(alpha, dr, sep1, dg, sep2, db, tail);
    var c := Rgb(DecimalValue(dr), DecimalValue(dg), DecimalValue(db));
    MatchRgbText(s, x, alpha, dr, sep1, dg, sep2, db, tail);
    forall k | 0 <= k < |x| ensures MatchRgbAt(s, k).None? {
      assert s[k] == x[k];
      NoMatchWithoutR(s, k);
    }
    StripTrimmed(s);
    if x == [] {
      MatchRgbAtOccurs(s, 0);
      assert s[0] == s[..3][0];
    } else {
      assert s[0] == x[0];
    }
    NormalizeLeftmostMatch(s, |x|, c);
  }

  /** A colour written inside other text is found there: `shade(rgb(1,2,3), 0.5)` normalises to `#010203`. */
  lemma NormalizeInnerMatchExample()
    ensures Normalize("shade(rgb(1,2,3), 0.5)") == "#010203"
  {
    var x := "shade(";
    InnerExampleText();
    InnerExampleValues();
    assert 'r' !in x && x[0] != '#';
    NormalizeAfterText(x, false, "1", "", "2", "", "3", "), 0.5)");
  }

  /** The inner example's text is `shade(` followed by the text `RgbText` writes. */
  lemma InnerExampleText()
    ensures "shade(" + RgbText(false, "1", "", "2", "", "3", "), 0.5)") == "shade(rgb(1,2,3), 0.5)"
  {
    assert "3" + "), 0.5)" == "3), 0.5)";
    assert ComponentText("2", "", "3), 0.5)") == "2,3), 0.5)";
    assert ComponentText("1", "", "2,3), 0.5)") == "1,2,3), 0.5)";
    assert "shade(" + ("rgb(" + "1,2,3), 0.5)") == "shade(rgb(1,2,3), 0.5)";
  }

  /** The inner example's components read as 1, 2 and 3 and are written back as `01`, `02` and `03`. */
  lemma InnerExampleValues()
    ensures DecimalValue("1") == 1 && DecimalValue("2") == 2 && DecimalValue("3") == 3
    ensures HexColor(Rgb(1, 2, 3)) == "#010203"
  {
    assert "1"[..0] == "" && "2"[..0] == "" && "3"[..0] == "";
    assert Hex(1) == "1" && Hex(2) == "2" && Hex(3) == "3";
    assert Hex2(1) == "01" && Hex2(2) == "02" && Hex2(3) == "03";
    assert "#" + "01" + "02" + "03" == "#010203";
  }

  /** `RGB(1, 2, 3)` is left as it is. */
  lemma NormalizeUpperCaseExample()
    ensures Normalize("RGB(1, 2, 3)") == "RGB(1, 2, 3)"
  {
    var s := "RGB(1, 2, 3)";
    assert 'r' !in s;
    NormalizeWithoutR(s);
    StripTrimmed(s);
  }

  /** A value that starts with `#` once stripped is returned stripped. */
  lemma NormalizeKeepsHex(color: string)
    requires |Strip(color)| > 0 && Strip(color)[0] == '#'
    ensures Normalize(color) == Strip(color)
  {
  }

  /** `rgba(0,0,0,1)` normalises to `#000000`: the fourth component is not read. */
  lemma NormalizeAlphaExample()
    ensures Normalize("rgba(0,0,0,1)") == "#000000"
  {
    var d := "0";
    assert AllChars(d, IsDigit);
    NormalizeRgbText(true, d, "", d, "", d, ",1)");
    AlphaExampleText();
    ExampleValues();
    BlackHexColor();
  }

  /** Black is written `#000000`. */
  lemma BlackHexColor()
    ensures HexColor(Rgb(0, 0, 0)) == "#000000"
  {
    ExampleHex();
    var z := Hex2(0);
    assert HexColor(Rgb(0, 0, 0)) == "#" + z + z + z;
    assert "#" + "00" + "00" + "00" == "#000000";
  }

  /** The text of the alpha example is written as `RgbText` writes it. */
  lemma AlphaExampleText()
    ensures RgbText(true, "0", "", "0", "", "0", ",1)") == "rgba(0,0,0,1)"
  {
    assert "0" + ",1)" == "0,1)";
    assert ComponentText("0", "", "0,1)") == "0,0,1)";
    assert ComponentText("0", "", "0,0,1)") == "0,0,0,1)";
    assert "rgba(" + "0,0,0,1)" == "rgba(0,0,0,1)";
  }

  /** A component of 256 or more is written with three or more hex digits, so the result is longer than `#rrggbb`. */
  lemma NormalizeWideComponent(sep1: string, sep2: string, c: Rgb)
    requires AllChars(sep1, IsSpace) && AllChars(sep2, IsSpace)
    requires c.r >= 256
    ensures |Normalize(RgbText(false, Decimal(c.r), sep1, Decimal(c.g), sep2, Decimal(c.b), ")"))| > 7
  {
    NormalizeRgbRoundTrip(false, c, sep1, sep2, ")");
    HexColorComponents(c);
    Hex2Wide(c.r);
    Hex2Wide(c.g);
    Hex2Wide(c.b);
  }

  /** A blank between the parenthesis and the first number stops the match: `rgb( 1,2,3)` is left as it is. */
  lemma NormalizeBlankAfterParenthesis()
    ensures Normalize("rgb( 1,2,3)") == "rgb( 1,2,3)"
  {
    var s := "rgb( 1,2,3)";
    StripTrimmed(s);
    assert s[..3] == "rgb";
    assert OpenAt(s, 0) == Some(4);
    assert SkipWhile(s, 4, IsDigit) == 4;
    assert ComponentThenComma(s, 4) == None;
    assert MatchRgbAt(s, 0) == None;
    SearchWithoutR(s, 1);
  }
}
