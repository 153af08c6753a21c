/** Word expansion of src/utils/sh/expansions.rs: word text split into
    literal text and `$NAME` pieces, and the evaluation of a piece against
    the shell's variables. */
module Expansions {
  import opened Bytes

  /** A piece of a word. The parsers only ever build `Text`. */
  datatype Expandable =
    | Text(text: seq<Byte>)
    | VariableSub(name: seq<Byte>)
    | CommandSub(parts: seq<Expandable>)
    | Arithmetic(parts: seq<Expandable>)

  /** A shell variable: its value and whether it is exported. */
  datatype VarValue = VarValue(value: seq<Byte>, exported: bool)

  /** The variables of the execution environment, by name. */
  type Env = map<seq<Byte>, VarValue>

  /** `Expandable::expand`: text is returned as it is; a variable gives its
      value, or nothing when it is not set (an unset variable is not an
      error). Command substitution and arithmetic are not implemented in the
      source, so they are excluded. */
  function Expand(e: Expandable, env: Env): (r: seq<Byte>)
    requires e.Text? || e.VariableSub?
    ensures e.Text? ==> r == e.text
    ensures e.VariableSub? && e.name in env ==> r == env[e.name].value
    ensures e.VariableSub? && e.name !in env ==> r == []
  {
    match e
    case Text(s) => s
    case VariableSub(k) => if k in env then env[k].value else []
  }

  function IsNotDollar(c: Byte): bool {
    c != Dollar
  }

  /** A byte of `[0-9A-Za-z_]`, the set `variable` accepts in a name. */
  function IsNameByte(c: Byte): bool {
    (48 <= c <= 57) || (65 <= c <= 90) || (97 <= c <= 122) || c == Underscore
  }

  /** `text`: the longest prefix without `$` (possibly empty) as literal text;
      what remains is empty or starts with `$`. It never fails. */
  function ParseText(input: seq<Byte>): (r: Parsed<Expandable>)
    ensures r.Ok? && r.value.Text?
    ensures r.value.text + r.rest == input
    ensures Dollar !in r.value.text
    ensures r.rest == [] || r.rest[0] == Dollar
  {
    var i := SpanFrom(input, 0, IsNotDollar);
    Ok(input[i..], Text(input[..i]))
  }

  /** `variable`: a `$` and then the longest non-empty run of name bytes. The
      name comes back as `Text`, not as `VariableSub`. It fails unless the
      input starts with `$` followed by a name byte. */
  function ParseVariable(input: seq<Byte>): (r: Parsed<Expandable>)
    ensures r.Ok? <==> |input| >= 2 && input[0] == Dollar && IsNameByte(input[1])
    ensures r.Ok? ==>
      r.value.Text? && input == [Dollar] + r.value.text + r.rest && |r.value.text| > 0 &&
      (forall i :: 0 <= i < |r.value.text| ==> IsNameByte(r.value.text[i])) &&
      (r.rest == [] || !IsNameByte(r.rest[0]))
  {
    if |input| == 0 || input[0] != Dollar then Err
    else
      var j := SpanFrom(input, 1, IsNameByte);
      if j == 1 then Err
      else
        assert input == [Dollar] + input[1..j] + input[j..];
        Ok(input[j..], Text(input[1..j]))
  }

  /** `expandable`: `variable` first, and `text` where it fails. */
  function ParseExpandable(input: seq<Byte>): (r: Parsed<Expandable>)
    ensures r.Ok? && r.value.Text?
    ensures IsSuffix(r.rest, input)
    ensures |input| >= 2 && input[0] == Dollar && IsNameByte(input[1]) ==> |r.value.text| > 0 && |r.rest| < |input|
    ensures ParseVariable(input).Err? ==> r == ParseText(input)
  {
    match ParseVariable(input)
    case Ok(rest, e) => Ok(rest, e)
    case Err => ParseText(input)
  }
}

/** The consequences of the expansion parsers, case by case. */
module ExpansionCases {
  import opened Bytes
  import opened Expansions

  /** A `$` followed by no name byte is neither a variable nor text: it comes
      back as empty text with nothing consumed. */
  lemma {:induction false} LoneDollar(rest: seq<Byte>)
    requires rest == [] || !IsNameByte(rest[0])
    ensures ParseExpandable([Dollar] + rest) == Ok([Dollar] + rest, Text([]))
  {
    var s := [Dollar] + rest;
    SpanFromIs(s, 0, IsNotDollar, 0);
  }

  /** Literal text up to the next `$` is taken whole. */
  lemma {:induction false} TextUpToDollar(t: seq<Byte>, rest: seq<Byte>)
    requires Dollar !in t && (rest == [] || rest[0] == Dollar)
    requires t != [] || rest == [] || !(|rest| >= 2 && IsNameByte(rest[1]))
    ensures ParseExpandable(t + rest) == Ok(rest, Text(t))
  {
    var s := t + rest;
    SpanFromIs(s, 0, IsNotDollar, |t|);
    assert s[|t|..] == rest && s[..|t|] == t;
  }

  /** `$NAME` stops at the first byte that is not a name byte and evaluates
      to the name itself, whatever the environment holds for it. */
  lemma {:induction false} VariableIsLiteralName(name: seq<Byte>, rest: seq<Byte>, env: Env)
    requires |name| > 0 && forall i :: 0 <= i < |name| ==> IsNameByte(name[i])
    requires rest == [] || !IsNameByte(rest[0])
    ensures ParseExpandable([Dollar] + name + rest) == Ok(rest, Text(name))
    ensures Expand(ParseExpandable([Dollar] + name + rest).value, env) == name
  {
    var s := [Dollar] + name + rest;
    SpanFromIs(s, 1, IsNameByte, 1 + |name|);
    assert s[1 + |name|..] == rest && s[1..1 + |name|] == name;
  }
}
