/**
 * The part of Python's `str.format(**colors)` that the colour templates use:
 * literal text, the escapes `{{` and `}}`, and `{name}` fields looked up among
 * the keyword arguments. The template is read from left to right and the first
 * error met stops the fill, as Python's formatter does.
 */
module Format {
  import opened Results
  import opened Text

  /** Why a fill fails, with the exception Python raises for it. */
  datatype FillError =
    | SingleClose            // ValueError: a `}` not followed by another `}`
    | SingleOpen             // ValueError: a `{` as the last character
    | Unterminated           // ValueError: a field whose `{` is never closed
    | Unsupported(field: string) // a conversion, format spec, attribute or index: outside this model
    | Positional(field: string)  // IndexError: an automatic or numbered field, and no positional arguments
    | MissingKey(name: string)   // KeyError: a name that is not a keyword argument

  /** `t` in front of the text of a successful fill; an error is passed on. */
  function Prepend(t: string, r: Result<string, FillError>): Result<string, FillError> {
    match r
    case Ok(x) => Ok(t + x)
    case Err(e) => Err(e)
  }

  /**
   * The index of the `}` that closes a field whose inner text starts at `i`, with
   * `depth` braces open: nested `{` and `}` are counted as Python's formatter counts them.
   */
  function FieldEnd(s: string, i: nat, depth: nat): (r: Option<nat>)
    requires i <= |s| && depth > 0
    ensures r.Some? ==> i <= r.value < |s| && s[r.value] == '}'
    decreases |s| - i
  {
    if i == |s| then None
    else if s[i] == '{' then FieldEnd(s, i + 1, depth + 1)
    else if s[i] == '}' then (if depth == 1 then Some(i) else FieldEnd(s, i + 1, depth - 1))
    else FieldEnd(s, i + 1, depth)
  }

  /** A character that makes a field more than a plain name. */
  predicate IsFieldSyntax(c: char) {
    c == '{' || c == '}' || c == '!' || c == ':' || c == '.' || c == '['
  }

  /** A field that names a keyword argument and uses no other feature of the format language. */
  predicate IsKeywordName(name: string) {
    name != [] && !AllChars(name, IsDigit) && AllChars(name, c => !IsFieldSyntax(c))
  }

  /** The value of the field `name` among the keyword arguments `kwargs`. */
  function Lookup(name: string, kwargs: map<string, string>): (r: Result<string, FillError>)
    ensures r.Ok? <==> IsKeywordName(name) && name in kwargs
    ensures r.Ok? ==> r.value == kwargs[name]
    ensures IsKeywordName(name) && name !in kwargs ==> r == Err(MissingKey(name))
  {
    if !AllChars(name, c => !IsFieldSyntax(c)) then Err(Unsupported(name))
    else if name == [] || AllChars(name, IsDigit) then Err(Positional(name))
    else if name in kwargs then Ok(kwargs[name])
    else Err(MissingKey(name))
  }

  /** `template.format(**kwargs)`. */
  function Fill(template: string, kwargs: map<string, string>): Result<string, FillError>
    decreases |template|
  {
    if template == [] then Ok([])
    else if template[0] == '{' then
      if |template| == 1 then Err(SingleOpen)
      else if template[1] == '{' then Prepend("{", Fill(template[2..], kwargs))
      else
        match FieldEnd(template, 1, 1)
        case None => Err(Unterminated)
        case Some(e) =>
          match Lookup(template[1..e], kwargs)
          case Err(x) => Err(x)
          case Ok(v) => Prepend(v, Fill(template[e + 1..], kwargs))
    else if template[0] == '}' then
      if |template| > 1 && template[1] == '}' then Prepend("}", Fill(template[2..], kwargs))
      else Err(SingleClose)
    else Prepend([template[0]], Fill(template[1..], kwargs))
  }

  /** A piece of a template: literal text, or a field naming a keyword argument. */
  datatype Part = Literal(text: string) | Field(name: string)

  /** Literal text as a template writes it: each brace doubled. */
  function Escape(t: string): (r: string)
    ensures |r| >= |t|
  {
    if t == [] then []
    else if t[0] == '{' || t[0] == '}' then [t[0], t[0]] + Escape(t[1..])
    else [t[0]] + Escape(t[1..])
  }

  /** The template text of a piece. */
  function PartText(part: Part): string {
    match part
    case Literal(t) => Escape(t)
    case Field(name) => "{" + name + "}"
  }

  /** The template text of a sequence of pieces. */
  function Unparse(parts: seq<Part>): string {
    if parts == [] then [] else PartText(parts[0]) + Unparse(parts[1..])
  }

  /** Every field of `parts` names a keyword argument plainly. */
  predicate WellFormed(parts: seq<Part>) {
    forall i :: 0 <= i < |parts| && parts[i].Field? ==> IsKeywordName(parts[i].name)
  }

  /** The names the fields of `parts` refer to. */
  function FieldNames(parts: seq<Part>): set<string> {
    set i | 0 <= i < |parts| && parts[i].Field? :: parts[i].name
  }

  /** The reference meaning of a sequence of pieces: the literal texts and the looked-up values, in order. */
  function Render(parts: seq<Part>, kwargs: map<string, string>): Result<string, FillError> {
    if parts == [] then Ok([])
    else
      match parts[0]
      case Literal(t) => Prepend(t, Render(parts[1..], kwargs))
      case Field(name) => if name in kwargs then Prepend(kwargs[name], Render(parts[1..], kwargs)) else Err(MissingKey(name))
  }

  /** Prepending twice is prepending the concatenation. */
  lemma PrependTwice(a: string, b: string, r: Result<string, FillError>)
    ensures Prepend(a, Prepend(b, r)) == Prepend(a + b, r)
  {
    if r.Ok? {
      assert a + (b + r.value) == (a + b) + r.value;
    }
  }

  /** Prepending nothing changes nothing. */
  lemma PrependNothing(r: Result<string, FillError>)
    ensures Prepend([], r) == r
  {
    if r.Ok? {
      assert [] + r.value == r.value;
    }
  }

  /** A doubled brace fills to a single one. */
  lemma FillDoubledBrace(s: string, c: char, tail: string, kwargs: map<string, string>)
    requires c == '{' || c == '}'
    requires s == [c, c] + tail
    ensures Fill(s, kwargs) == Prepend([c], Fill(tail, kwargs))
  {
    assert s[0] == c && s[1] == c;
    assert s[2..] == tail;
  }

  /** A character other than a brace fills to itself. */
  lemma FillOtherChar(s: string, c: char, tail: string, kwargs: map<string, string>)
    requires c != '{' && c != '}'
    requires s == [c] + tail
    ensures Fill(s, kwargs) == Prepend([c], Fill(tail, kwargs))
  {
    assert s[0] == c;
    assert s[1..] == tail;
  }

  /** Escaped text starts with its first character, doubled when it is a brace. */
  lemma EscapeFront(t: string, rest: string)
    requires t != []
    ensures Escape(t) + rest ==
      (if t[0] == '{' || t[0] == '}' then [t[0], t[0]] else [t[0]]) + (Escape(t[1..]) + rest)
  {
  }

  /** The first character of escaped text fills to itself, in front of what the rest fills to. */
  lemma FillEscapedStep(t: string, rest: string, kwargs: map<string, string>)
    requires t != []
    ensures Fill(Escape(t) + rest, kwargs) == Prepend([t[0]], Fill(Escape(t[1..]) + rest, kwargs))
  {
    var s := Escape(t) + rest;
    var tail := Escape(t[1..]) + rest;
    EscapeFront(t, rest);
    if t[0] == '{' || t[0] == '}' {
      FillDoubledBrace(s, t[0], tail, kwargs);
    } else {
      FillOtherChar(s, t[0], tail, kwargs);
    }
  }

  /** Escaped literal text fills to itself, in front of whatever the rest of the template fills to. */
  lemma {:induction false} FillEscaped(t: string, rest: string, kwargs: map<string, string>)
    ensures Fill(Escape(t) + rest, kwargs) == Prepend(t, Fill(rest, kwargs))
    decreases |t|
  {
    if t == [] {
      assert Escape(t) + rest == rest;
      PrependNothing(Fill(rest, kwargs));
    } else {
      FillEscaped(t[1..], rest, kwargs);
      FillEscapedStep(t, rest, kwargs);
      PrependTwice([t[0]], t[1..], Fill(rest, kwargs));
      assert [t[0]] + t[1..] == t;
    }
  }

  /** A field without braces inside ends at the first `}`. */
  lemma {:induction false} FieldEndPlain(s: string, i: nat, e: nat)
    requires i <= e < |s| && s[e] == '}'
    requires forall k :: i <= k < e ==> s[k] != '{' && s[k] != '}'
    ensures FieldEnd(s, i, 1) == Some(e)
    decreases e - i
  {
    if i < e {
      FieldEndPlain(s, i + 1, e);
    }
  }

  /** A plain field fills to the value it names, in front of whatever the rest of the template fills to. */
  lemma FillField(name: string, rest: string, kwargs: map<string, string>)
    requires IsKeywordName(name)
    ensures Fill("{" + name + "}" + rest, kwargs) ==
      if name in kwargs then Prepend(kwargs[name], Fill(rest, kwargs)) else Err(MissingKey(name))
  {
    var s := "{" + name + "}" + rest;
    var e := |name| + 1;
    assert s[e] == '}';
    forall k | 1 <= k < e ensures s[k] != '{' && s[k] != '}' {
      assert s[k] == name[k - 1];
      assert !IsFieldSyntax(name[k - 1]);
    }
    FieldEndPlain(s, 1, e);
    assert s[1..e] == name;
    assert s[e + 1..] == rest;
  }

  /** Filling the text of well-formed pieces gives their reference meaning. */
  lemma {:induction false} FillUnparse(parts: seq<Part>, kwargs: map<string, string>)
    requires WellFormed(parts)
    ensures Fill(Unparse(parts), kwargs) == Render(parts, kwargs)
    decreases |parts|
  {
    if parts == [] {
    } else {
      var rest := Unparse(parts[1..]);
      assert WellFormed(parts[1..]) by {
        forall i | 0 <= i < |parts[1..]| && parts[1..][i].Field? ensures IsKeywordName(parts[1..][i].name) {
          assert parts[1..][i] == parts[i + 1];
        }
      }
      FillUnparse(parts[1..], kwargs);
      match parts[0]
      case Literal(t) =>
        FillEscaped(t, rest, kwargs);
      case Field(name) =>
        assert parts[0].Field?;
        FillField(name, rest, kwargs);
    }
  }

  /** The reference meaning fails exactly when some field names a key that is absent, and then with a `KeyError`. */
  lemma {:induction false} RenderOk(parts: seq<Part>, kwargs: map<string, string>)
    ensures Render(parts, kwargs).Ok? <==> FieldNames(parts) <= kwargs.Keys
    ensures Render(parts, kwargs).Err? ==> Render(parts, kwargs).error.MissingKey?
    decreases |parts|
  {
    if parts != [] {
      RenderOk(parts[1..], kwargs);
      assert FieldNames(parts) == (if parts[0].Field? then {parts[0].name} else {}) + FieldNames(parts[1..]) by {
        forall n | n in FieldNames(parts) ensures n in (if parts[0].Field? then {parts[0].name} else {}) + FieldNames(parts[1..]) {
          var i :| 0 <= i < |parts| && parts[i].Field? && parts[i].name == n;
          if i > 0 {
            assert parts[1..][i - 1] == parts[i];
          }
        }
        forall n | n in FieldNames(parts[1..]) ensures n in FieldNames(parts) {
          var i :| 0 <= i < |parts[1..]| && parts[1..][i].Field? && parts[1..][i].name == n;
          assert parts[i + 1] == parts[1..][i];
        }
      }
    }
  }

  /** Filling the text of well-formed pieces succeeds exactly when every field names a present key. */
  lemma FillSucceeds(parts: seq<Part>, kwargs: map<string, string>)
    requires WellFormed(parts)
    ensures Fill(Unparse(parts), kwargs).Ok? <==> FieldNames(parts) <= kwargs.Keys
  {
    FillUnparse(parts, kwargs);
    RenderOk(parts, kwargs);
  }

  /** Text without braces is left unchanged. */
  lemma FillPlainText(t: string, kwargs: map<string, string>)
    requires '{' !in t && '}' !in t
    ensures Fill(t, kwargs) == Ok(t)
  {
    EscapePlain(t);
    FillEscaped(t, [], kwargs);
    assert t + [] == t;
  }

  /** Text without braces is its own escaped form. */
  lemma {:induction false} EscapePlain(t: string)
    requires '{' !in t && '}' !in t
    ensures Escape(t) == t
  {
    if t != [] {
      assert t[0] in t;
      assert forall c :: c in t[1..] ==> c in t;
      EscapePlain(t[1..]);
      assert [t[0]] + t[1..] == t;
    }
  }

  /** `{{` and `}}` fill to single braces. */
  lemma FillEscapes(kwargs: map<string, string>)
    ensures Fill("{{", kwargs) == Ok("{")
    ensures Fill("}}", kwargs) == Ok("}")
  {
    FillDoubledBrace("{{", '{', [], kwargs);
    FillDoubledBrace("}}", '}', [], kwargs);
    assert "{" + [] == "{" && "}" + [] == "}";
  }

  /** A stray `}` and a `{` at the end fail. */
  lemma FillStrayBraces(t: string, kwargs: map<string, string>)
    requires t == [] || t[0] != '}'
    ensures Fill("}" + t, kwargs) == Err(SingleClose)
    ensures Fill("{", kwargs) == Err(SingleOpen)
  {
    var s := "}" + t;
    assert s[0] == '}';
    assert |s| > 1 ==> s[1] == t[0];
  }
}
