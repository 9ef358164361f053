/**
 * `_resolve_color_references`: up to ten passes over the colour table. Each
 * pass visits the names in insertion order; a value whose first `@name`
 * reference names a colour of the table has that reference replaced by the
 * colour's current value, and every other value is copied into the result.
 */
module Resolver {
  import opened Results
  import opened Text
  import opened Scanner

  /** `max_iterations`: the number of passes the resolver makes at most. */
  const MaxIterations := 10

  /** An `@` at index `i` followed by a word character: where `@(\w+)` can match. */
  predicate RefAt(v: string, i: nat) {
    i + 1 < |v| && v[i] == '@' && IsWordChar(v[i + 1])
  }

  /** `re.search(r'@(\w+)', v)` from index `i` on: the captured name of the first match. */
  function FirstRefFrom(v: string, i: nat): (r: Option<string>)
    requires i <= |v|
    ensures r.Some? ==> r.value != [] && AllChars(r.value, IsWordChar)
    decreases |v| - i
  {
    if i == |v| then None
    else if RefAt(v, i) then Some(v[i + 1..SkipWhile(v, i + 1, IsWordChar)])
    else FirstRefFrom(v, i + 1)
  }

  /** The group of `re.search(r'@(\w+)', v)`: the whole word run after the first `@` that a word character follows. */
  function FirstRef(v: string): (r: Option<string>)
    ensures r.Some? ==> r.value != [] && AllChars(r.value, IsWordChar)
  {
    FirstRefFrom(v, 0)
  }

  /** The search from `i` finds nothing exactly when no `@` after `i` is followed by a word character. */
  lemma {:induction false} FirstRefFromNone(v: string, i: nat)
    requires i <= |v|
    ensures FirstRefFrom(v, i).None? <==> forall k :: i <= k < |v| ==> !RefAt(v, k)
    decreases |v| - i
  {
    if i < |v| {
      if RefAt(v, i) {
        assert FirstRefFrom(v, i).Some?;
      } else {
        FirstRefFromNone(v, i + 1);
        assert FirstRefFrom(v, i) == FirstRefFrom(v, i + 1);
      }
    }
  }

  /** A search from `i` that finds something takes the first `@` followed by a word character, with its whole word run. */
  lemma {:induction false} FirstRefFromSome(v: string, i: nat) returns (k: nat)
    requires i <= |v| && FirstRefFrom(v, i).Some?
    ensures i <= k < |v| && RefAt(v, k) && (forall j :: i <= j < k ==> !RefAt(v, j))
    ensures FirstRefFrom(v, i).value == v[k + 1..SkipWhile(v, k + 1, IsWordChar)]
    decreases |v| - i
  {
    if RefAt(v, i) {
      k := i;
    } else {
      assert FirstRefFrom(v, i) == FirstRefFrom(v, i + 1);
      k := FirstRefFromSome(v, i + 1);
    }
  }

  /** The search from `i` finds nothing exactly when no `@` after `i` is followed by a word character, and otherwise it takes the first one with its whole word run. */
  lemma FirstRefFromFinds(v: string, i: nat)
    requires i <= |v|
    ensures FirstRefFrom(v, i).None? <==> forall k :: i <= k < |v| ==> !RefAt(v, k)
    ensures FirstRefFrom(v, i).Some? ==>
      exists k :: (i <= k < |v| && RefAt(v, k) && (forall j :: i <= j < k ==> !RefAt(v, j))
                   && FirstRefFrom(v, i).value == v[k + 1..SkipWhile(v, k + 1, IsWordChar)])
  {
    FirstRefFromNone(v, i);
    if FirstRefFrom(v, i).Some? {
      var k := FirstRefFromSome(v, i);
    }
  }

  /** A value the resolver copies to the result: no reference, or a reference to a name the table lacks. */
  predicate Settled(v: string, names: set<string>) {
    FirstRef(v).None? || FirstRef(v).value !in names
  }

  /** The variables of the resolver while a pass runs: the working table, the result so far and `changed`. */
  datatype PassState = PassState(colors: map<string, string>, resolved: map<string, string>, changed: bool)

  /** The body of the inner loop for the entry `name`. */
  function Visit(st: PassState, name: string): (r: PassState)
    requires name in st.colors
    ensures r.colors.Keys == st.colors.Keys
    ensures forall n :: n in st.colors && n != name ==> r.colors[n] == st.colors[n]
    ensures st.changed ==> r.changed
  {
    var value := st.colors[name];
    match FirstRef(value)
    case None => st.(resolved := st.resolved[name := value])
    case Some(ref) =>
      if ref in st.colors then
        var newValue := ReplaceAll(value, "@" + ref, st.colors[ref]);
        if newValue != value then st.(colors := st.colors[name := newValue], changed := true)
        else st
      else st.(resolved := st.resolved[name := value])
  }

  /** One pass of the inner loop over `names`, started from `st`. */
  function Pass(st: PassState, names: seq<string>): (r: PassState)
    requires forall n | n in names :: n in st.colors
    ensures r.colors.Keys == st.colors.Keys
    decreases |names|
  {
    if names == [] then st
    else Visit(Pass(st, names[..|names| - 1]), names[|names| - 1])
  }

  /** The outer loop with `passes` iterations left: each pass starts with `changed` false and the loop stops after a pass that changed nothing. */
  function ResolvePasses(order: seq<string>, colors: map<string, string>, resolved: map<string, string>, passes: nat): map<string, string>
    requires forall n | n in order :: n in colors
    decreases passes
  {
    if passes == 0 then resolved
    else
      var st := Pass(PassState(colors, resolved, false), order);
      if st.changed then ResolvePasses(order, st.colors, st.resolved, passes - 1) else st.resolved
  }

  /** The dict `_resolve_color_references(colors)` returns. */
  function Resolved(t: Table): map<string, string>
    requires t.Valid()
  {
    ResolvePasses(t.order, t.values, map[], MaxIterations)
  }

  /** `_resolve_color_references`: the outer loop of at most `max_iterations` passes. */
  method ResolveColorReferences(t: Table) returns (resolved: map<string, string>)
    requires t.Valid()
    ensures resolved == Resolved(t)
  {
    var colors := t.values;
    resolved := map[];
    var maxIterations := MaxIterations;
    var i := 0;
    while i < maxIterations
      invariant 0 <= i <= maxIterations
      invariant colors.Keys == t.values.Keys
      invariant ResolvePasses(t.order, colors, resolved, maxIterations - i) == Resolved(t)
    {
      ghost var st := Pass(PassState(colors, resolved, false), t.order);
      OuterStep(t.order, colors, resolved, maxIterations - i, st);
      var changed;
      colors, resolved, changed := ResolvePass(t.order, colors, resolved);
      if !changed {
        break;
      }
      i := i + 1;
    }
  }

  /** The inner loop of `_resolve_color_references`: one pass over the names in `order`, with `changed` reset first. */
  method ResolvePass(order: seq<string>, colors0: map<string, string>, resolved0: map<string, string>)
      returns (colors: map<string, string>, resolved: map<string, string>, changed: bool)
    requires forall n | n in order :: n in colors0
    ensures PassState(colors, resolved, changed) == Pass(PassState(colors0, resolved0, false), order)
    ensures colors.Keys == colors0.Keys
  {
    ghost var start := PassState(colors0, resolved0, false);
    colors, resolved, changed := colors0, resolved0, false;
    for k := 0 to |order|
      invariant colors.Keys == colors0.Keys
      invariant Pass(start, order[..k]) == PassState(colors, resolved, changed)
    {
      PassStep(start, order, k);
      ghost var before := PassState(colors, resolved, changed);
      var name := order[k];
      var value := colors[name];
      if '@' in value {
        var refMatch := FirstRef(value);
        if refMatch.Some? {
          var refName := refMatch.value;
          if refName in colors {
            var newValue := ReplaceAll(value, "@" + refName, colors[refName]);
            if newValue != value {
              colors := colors[name := newValue];
              changed := true;
            }
          } else {
            resolved := resolved[name := value];
          }
        } else {
          resolved := resolved[name := value];
        }
      } else {
        NoAtNoRef(value);
        resolved := resolved[name := value];
      }
      assert PassState(colors, resolved, changed) == Visit(before, name);
    }
    assert order[..|order|] == order;
  }

  /** One turn of the outer loop: the pass `st`, then either the remaining passes or the result. */
  lemma OuterStep(order: seq<string>, colors: map<string, string>, resolved: map<string, string>, passes: nat, st: PassState)
    requires passes > 0 && forall n | n in order :: n in colors
    requires st == Pass(PassState(colors, resolved, false), order)
    ensures st.changed ==> ResolvePasses(order, colors, resolved, passes) == ResolvePasses(order, st.colors, st.resolved, passes - 1)
    ensures !st.changed ==> ResolvePasses(order, colors, resolved, passes) == st.resolved
  {
  }

  /** One more turn of the inner loop visits the next name. */
  lemma PassStep(st: PassState, names: seq<string>, k: nat)
    requires k < |names| && forall n | n in names :: n in st.colors
    ensures Pass(st, names[..k + 1]) == Visit(Pass(st, names[..k]), names[k])
  {
    assert names[..k + 1][..k] == names[..k];
  }

  /** Without an `@` there is no reference: the `'@' in value` test and the search agree. */
  lemma NoAtNoRef(v: string)
    requires '@' !in v
    ensures FirstRef(v).None?
  {
    FirstRefFromFinds(v, 0);
    forall k | 0 <= k < |v| ensures !RefAt(v, k) {
      assert v[k] in v;
    }
  }

  /** A reference to a word, on its own: the search finds that word. */
  lemma RefOfName(name: string)
    requires name != [] && AllChars(name, IsWordChar)
    ensures FirstRef("@" + name) == Some(name)
  {
    var v := "@" + name;
    assert RefAt(v, 0);
    assert FirstRef(v) == Some(v[1..SkipWhile(v, 1, IsWordChar)]);
    SkipWhileStops(v, 1, |v|, IsWordChar);
    assert v[1..|v|] == name;
  }

  /** Every entry of `m` is under one of `names` and holds a value settled with respect to `names`. */
  predicate AllSettled(m: map<string, string>, names: set<string>) {
    forall n :: n in m ==> n in names && Settled(m[n], names)
  }

  /** A settled value stays settled when the table has fewer names. */
  lemma SettledFewerNames(v: string, names: set<string>, fewer: set<string>)
    requires Settled(v, names) && fewer <= names
    ensures Settled(v, fewer)
  {
  }

  /**
   * What holds between the variables throughout: the table keeps its names and
   * every entry of the result is a settled value, equal to the table's current one.
   */
  predicate Inv(st: PassState, names: set<string>) {
    && st.colors.Keys == names
    && forall n :: n in st.resolved ==> n in st.colors && st.resolved[n] == st.colors[n] && Settled(st.colors[n], names)
  }

  /** A visit keeps the invariant, leaves settled entries alone and never drops an entry of the result. */
  lemma VisitInv(st: PassState, name: string, names: set<string>)
    requires Inv(st, names) && name in st.colors
    ensures Inv(Visit(st, name), names)
    ensures st.resolved.Keys <= Visit(st, name).resolved.Keys
    ensures st.changed ==> Visit(st, name).changed
    ensures forall n :: n in st.colors && Settled(st.colors[n], names) ==> Visit(st, name).colors[n] == st.colors[n]
    ensures Settled(st.colors[name], names) ==> name in Visit(st, name).resolved
  {
  }

  /** A pass keeps the invariant, leaves settled entries alone, never drops an entry and puts every settled name it visits in the result. */
  lemma {:induction false} PassInv(st: PassState, names: seq<string>, keys: set<string>)
    requires Inv(st, keys) && forall n | n in names :: n in st.colors
    ensures Inv(Pass(st, names), keys)
    ensures st.resolved.Keys <= Pass(st, names).resolved.Keys
    ensures st.changed ==> Pass(st, names).changed
    ensures forall n :: n in st.colors && Settled(st.colors[n], keys) ==> Pass(st, names).colors[n] == st.colors[n]
    ensures forall n :: n in names && Settled(st.colors[n], keys) ==> n in Pass(st, names).resolved
    decreases |names|
  {
    if names != [] {
      var init := names[..|names| - 1];
      var last := names[|names| - 1];
      PassInv(st, init, keys);
      VisitInv(Pass(st, init), last, keys);
      forall n | n in names && Settled(st.colors[n], keys) ensures n in Pass(st, names).resolved {
        if n != last {
          assert n in init;
        }
      }
    }
  }

  /** Every entry of the result holds a settled value, under a name of the table. */
  lemma {:induction false} ResolvePassesSound(order: seq<string>, colors: map<string, string>, resolved: map<string, string>, passes: nat)
    requires forall n | n in order :: n in colors
    requires Inv(PassState(colors, resolved, false), colors.Keys)
    ensures AllSettled(ResolvePasses(order, colors, resolved, passes), colors.Keys)
    decreases passes
  {
    if passes > 0 {
      var st := Pass(PassState(colors, resolved, false), order);
      PassInv(PassState(colors, resolved, false), order, colors.Keys);
      if st.changed {
        ResolvePassesSound(order, st.colors, st.resolved, passes - 1);
      } else {
        assert AllSettled(st.resolved, colors.Keys);
      }
    }
  }

  /** A settled entry of the table at the start of a pass is in the result with that value. */
  lemma {:induction false} ResolvePassesSettled(order: seq<string>, colors: map<string, string>, resolved: map<string, string>, passes: nat, n: string)
    requires forall m | m in order :: m in colors
    requires Inv(PassState(colors, resolved, false), colors.Keys)
    requires passes > 0 && n in order && Settled(colors[n], colors.Keys)
    ensures n in ResolvePasses(order, colors, resolved, passes)
    ensures ResolvePasses(order, colors, resolved, passes)[n] == colors[n]
    decreases passes
  {
    var st := Pass(PassState(colors, resolved, false), order);
    PassInv(PassState(colors, resolved, false), order, colors.Keys);
    if st.changed && passes > 1 {
      ResolvePassesSettled(order, st.colors, st.resolved, passes - 1, n);
    }
  }

  /** Every value of the result is settled and belongs to a name of the input table. */
  lemma ResolvedSound(t: Table)
    requires t.Valid()
    ensures forall n :: n in Resolved(t) ==> n in t.values && Settled(Resolved(t)[n], t.values.Keys)
  {
    ResolvePassesSound(t.order, t.values, map[], MaxIterations);
  }

  /** An entry that is settled in the input table comes out unchanged. */
  lemma ResolvedKeepsSettled(t: Table, n: string)
    requires t.Valid() && n in t.values && Settled(t.values[n], t.values.Keys)
    ensures n in Resolved(t) && Resolved(t)[n] == t.values[n]
  {
    assert n in t.values.Keys;
    ResolvePassesSettled(t.order, t.values, map[], MaxIterations, n);
  }

  /** A table whose every value is settled resolves to itself: in particular every table the scanner builds. */
  lemma ResolvedAllSettled(t: Table)
    requires t.Valid()
    requires forall n :: n in t.values ==> Settled(t.values[n], t.values.Keys)
    ensures Resolved(t) == t.values
  {
    ResolvedSound(t);
    forall n | n in t.values ensures n in Resolved(t) && Resolved(t)[n] == t.values[n] {
      ResolvedKeepsSettled(t, n);
    }
  }

  /** Resolving is idempotent: the result, in any key order, resolves to itself. */
  lemma ResolvedIdempotent(t: Table, order: seq<string>)
    requires t.Valid() && Table(order, Resolved(t)).Valid()
    ensures Resolved(Table(order, Resolved(t))) == Resolved(t)
  {
    var r := Resolved(t);
    ResolvedSound(t);
    forall n | n in r ensures Settled(r[n], r.Keys) {
      SettledFewerNames(r[n], t.values.Keys, r.Keys);
    }
    ResolvedAllSettled(Table(order, r));
  }

  /** Values without an `@`, such as every value the scanner stores, are all settled, so resolving them changes nothing. */
  lemma ResolvedWithoutReferences(t: Table)
    requires t.Valid()
    requires forall n :: n in t.values ==> '@' !in t.values[n]
    ensures Resolved(t) == t.values
  {
    forall n | n in t.values ensures Settled(t.values[n], t.values.Keys) {
      NoAtNoRef(t.values[n]);
    }
    ResolvedAllSettled(t);
  }

  /** A value that is nothing but a reference to one of `names`. */
  predicate IsAlias(v: string, names: set<string>) {
    2 <= |v| && v[0] == '@' && AllChars(v[1..], IsWordChar) && v[1..] in names
  }

  /** The search finds the name an alias is made of. */
  lemma AliasRef(v: string, names: set<string>)
    requires IsAlias(v, names)
    ensures FirstRef(v) == Some(v[1..]) && v == "@" + v[1..]
  {
    assert v == "@" + v[1..];
    RefOfName(v[1..]);
  }

  /** Every value of `m` is an alias of an entry of `m`. */
  predicate AllAliases(m: map<string, string>) {
    forall n {:trigger IsAlias(m[n], m.Keys)} :: n in m ==> IsAlias(m[n], m.Keys)
  }

  /** Visiting an alias replaces it by the value it names and adds nothing to the result. */
  lemma VisitAlias(st: PassState, name: string)
    requires name in st.colors && IsAlias(st.colors[name], st.colors.Keys)
    ensures Visit(st, name).resolved == st.resolved
    ensures Visit(st, name).colors[name] == st.colors[st.colors[name][1..]]
  {
    var v := st.colors[name];
    AliasRef(v, st.colors.Keys);
    ReplaceWhole(v, st.colors[v[1..]]);
  }

  /** While all values are aliases, a visit keeps them so and adds nothing to the result. */
  lemma VisitAliases(st: PassState, name: string)
    requires name in st.colors && AllAliases(st.colors)
    ensures AllAliases(Visit(st, name).colors)
    ensures Visit(st, name).resolved == st.resolved
  {
    VisitAlias(st, name);
  }

  /** A pass over a table of aliases leaves only aliases and adds nothing to the result. */
  lemma {:induction false} PassAliases(st: PassState, names: seq<string>)
    requires forall n | n in names :: n in st.colors
    requires AllAliases(st.colors)
    ensures AllAliases(Pass(st, names).colors)
    ensures Pass(st, names).resolved == st.resolved
    decreases |names|
  {
    if names != [] {
      PassAliases(st, names[..|names| - 1]);
      VisitAliases(Pass(st, names[..|names| - 1]), names[|names| - 1]);
    }
  }

  /** However many passes run over a table of aliases, nothing is added to the result. */
  lemma {:induction false} ResolvePassesAliases(order: seq<string>, colors: map<string, string>, resolved: map<string, string>, passes: nat)
    requires forall n | n in order :: n in colors
    requires AllAliases(colors)
    ensures ResolvePasses(order, colors, resolved, passes) == resolved
    decreases passes
  {
    if passes > 0 {
      var st := Pass(PassState(colors, resolved, false), order);
      PassAliases(PassState(colors, resolved, false), order);
      OuterStep(order, colors, resolved, passes, st);
      if st.changed {
        ResolvePassesAliases(order, st.colors, st.resolved, passes - 1);
      }
    }
  }

  /**
   * A table in which every value only names another entry (such as the cycles
   * `a: @b, b: @a` or `a: @a`) never settles: the resolver drops all of it.
   */
  lemma ResolvedAliasesDropped(t: Table)
    requires t.Valid()
    requires AllAliases(t.values)
    ensures Resolved(t) == map[]
  {
    ResolvePassesAliases(t.order, t.values, map[], MaxIterations);
  }

  /** The two-entry cycle `a: @b, b: @a` resolves to the empty dict. */
  lemma ResolvedCycle()
    ensures Resolved(Table(["a", "b"], map["a" := "@b", "b" := "@a"])) == map[]
  {
    var t := Table(["a", "b"], map["a" := "@b", "b" := "@a"]);
    assert "@b"[1..] == "b" && "@a"[1..] == "a";
    assert t.values.Keys == (set k | k in t.order);
    ResolvedAliasesDropped(t);
  }

  /** A self-reference `a: @a` is dropped too. */
  lemma ResolvedSelfReference()
    ensures Resolved(Table(["a"], map["a" := "@a"])) == map[]
  {
    var t := Table(["a"], map["a" := "@a"]);
    assert "@a"[1..] == "a";
    assert t.values.Keys == (set k | k in t.order);
    ResolvedAliasesDropped(t);
  }

  /** Visiting the alias `a` of a settled entry `b` gives `a` the value of `b` and reports a change. */
  lemma VisitReplacesAlias(st: PassState, keys: set<string>, a: string, b: string)
    requires st.colors.Keys == keys && a in keys && b in keys && b != [] && AllChars(b, IsWordChar)
    requires st.colors[a] == "@" + b && Settled(st.colors[b], keys)
    ensures Visit(st, a).colors[a] == st.colors[b] && Visit(st, a).changed
  {
    RefOfName(b);
    ReplaceWhole("@" + b, st.colors[b]);
  }

  /**
   * In one pass, the alias `a` of a settled entry `b` takes `b`'s value once the
   * pass has visited `a`, and the pass then reports a change.
   */
  lemma {:induction false} PassReplacesAlias(st: PassState, names: seq<string>, keys: set<string>, a: string, b: string)
    requires Inv(st, keys) && forall n | n in names :: n in st.colors
    requires forall i, j :: 0 <= i < j < |names| ==> names[i] != names[j]
    requires a in keys && b in keys && b != [] && AllChars(b, IsWordChar)
    requires st.colors[a] == "@" + b && Settled(st.colors[b], keys)
    ensures a in names ==> Pass(st, names).colors[a] == st.colors[b] && Pass(st, names).changed
    ensures a !in names ==> Pass(st, names).colors[a] == st.colors[a]
    decreases |names|
  {
    if names != [] {
      var init := names[..|names| - 1];
      var last := names[|names| - 1];
      var mid := Pass(st, init);
      PassReplacesAlias(st, init, keys, a, b);
      if last == a {
        assert a !in init by {
          forall i | 0 <= i < |init| ensures init[i] != a {
            assert names[i] != names[|names| - 1];
          }
        }
        PassInv(st, init, keys);
        VisitReplacesAlias(mid, keys, a, b);
      } else if a in init {
        assert Visit(mid, last).changed;
      }
    }
  }

  /** A reference to a settled entry is replaced by that entry's value: `a: @b` comes out with `b`'s value. */
  lemma ResolvedAlias(t: Table, a: string, b: string)
    requires t.Valid() && a in t.values && b in t.values
    requires b != [] && AllChars(b, IsWordChar)
    requires t.values[a] == "@" + b && Settled(t.values[b], t.values.Keys)
    ensures a in Resolved(t) && Resolved(t)[a] == t.values[b]
  {
    var keys := t.values.Keys;
    var start := PassState(t.values, map[], false);
    var st := Pass(start, t.order);
    assert a in t.order by {
      assert a in t.values.Keys;
    }
    PassReplacesAlias(start, t.order, keys, a, b);
    PassInv(start, t.order, keys);
    ResolvePassesSettled(t.order, st.colors, st.resolved, MaxIterations - 1, a);
  }
}
