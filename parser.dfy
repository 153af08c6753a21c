/** The recursive-descent parser of src/utils/sh/parser.rs. Its token
    accessors `word` and `op` live in a part of the tokenizer that is not part
    of this model, so every parser here takes them as a `Lexer` parameter;
    the nom combinators it composes (`many0`, `opt`, `take_until1`) are
    stated as functions with nom's documented behaviour. */
module Parser {
  import opened Bytes
  import opened AstNodes

  /** The tokenizer's `word` (a `Word` node) and `op` (the operator bytes). */
  datatype Lexer = Lexer(word: seq<Byte> -> Parsed<Word>, op: seq<Byte> -> Parsed<seq<Byte>>)

  /** Whenever `p` succeeds it leaves a strictly shorter suffix of its input. */
  ghost predicate Consumes<T>(p: seq<Byte> -> Parsed<T>) {
    forall s :: p(s).Ok? ==> |p(s).rest| < |s| && IsSuffix(p(s).rest, s)
  }

  /** What the token accessors are expected to do: return a strictly shorter
      suffix together with the token, or fail. */
  ghost predicate ValidLexer(lx: Lexer) {
    Consumes(lx.word) && Consumes(lx.op)
  }

  // ---------------------------------------------------------------- nom

  /** nom's `opt`: success becomes `Some`; an error becomes `None` and
      consumes nothing. */
  function Opt<T>(p: seq<Byte> -> Parsed<T>, input: seq<Byte>): (r: Parsed<Option<T>>)
    ensures r.Ok?
  {
    match p(input)
    case Err => Ok(input, None)
    case Ok(rest, v) => Ok(rest, Some(v))
  }

  /** nom's `many0`: apply `p` until it fails and collect the values; a run
      that succeeds without consuming anything makes `many0` itself fail.
      nom compares the lengths for equality; the guard here also rejects a
      run whose rest is longer, which no `Consumes` parser produces, so the
      two agree on every parser the grammar passes in. */
  function Many0<T>(p: seq<Byte> -> Parsed<T>, input: seq<Byte>): (r: Parsed<seq<T>>)
    ensures p(input).Err? ==> r == Ok(input, [])
    ensures r.Ok? ==> p(r.rest).Err?
    ensures r.Ok? && r.value != [] ==> |r.rest| < |input|
    decreases |input|
  {
    match p(input)
    case Err => Ok(input, [])
    case Ok(rest, v) =>
      if |rest| >= |input| then Err
      else
        match Many0(p, rest)
        case Err => Err
        case Ok(rest', vs) => Ok(rest', [v] + vs)
  }

  /** `vs` are the values of consecutive successful runs of `p` from `s`, each
      consuming at least one byte, the last of them leaving `rest`. */
  ghost predicate Chain<T>(p: seq<Byte> -> Parsed<T>, s: seq<Byte>, vs: seq<T>, rest: seq<Byte>)
    decreases |vs|
  {
    if vs == [] then rest == s
    else p(s).Ok? && |p(s).rest| < |s| && p(s).value == vs[0] && Chain(p, p(s).rest, vs[1..], rest)
  }

  /** `many0` returns the run of `p` up to the first failure, and never fails
      when `p` always consumes. */
  lemma {:induction false} Many0Chain<T>(p: seq<Byte> -> Parsed<T>, s: seq<Byte>)
    ensures Many0(p, s).Ok? ==> Chain(p, s, Many0(p, s).value, Many0(p, s).rest) && p(Many0(p, s).rest).Err?
    ensures Consumes(p) ==> Many0(p, s).Ok?
    decreases |s|
  {
    match p(s)
    case Err =>
    case Ok(rest, v) =>
      if |rest| < |s| {
        Many0Chain(p, rest);
        if Many0(p, rest).Ok? {
          var vs := Many0(p, rest).value;
          assert ([v] + vs)[1..] == vs;
        }
      }
  }

  /** Conversely, a chain of runs that ends where `p` fails is what `many0`
      returns. */
  lemma {:induction false} Many0OfChain<T>(p: seq<Byte> -> Parsed<T>, s: seq<Byte>, vs: seq<T>, rest: seq<Byte>)
    requires Chain(p, s, vs, rest) && p(rest).Err?
    ensures Many0(p, s) == Ok(rest, vs)
    decreases |vs|
  {
    if vs != [] {
      Many0OfChain(p, p(s).rest, vs[1..], rest);
      assert [vs[0]] + vs[1..] == vs;
    }
  }

  /** When `p` always consumes, the end of a chain is a suffix of its start,
      and a strictly shorter one unless the chain is empty. */
  lemma {:induction false} ChainSuffix<T>(p: seq<Byte> -> Parsed<T>, s: seq<Byte>, vs: seq<T>, rest: seq<Byte>)
    requires Consumes(p) && Chain(p, s, vs, rest)
    ensures IsSuffix(rest, s) && (vs != [] ==> |rest| < |s|)
    decreases |vs|
  {
    if vs != [] {
      var m := p(s).rest;
      ChainSuffix(p, m, vs[1..], rest);
      assert IsSuffix(m, s);
      assert s[|s| - |rest|..] == m[|m| - |rest|..];
    }
  }

  /** nom's `take_until1` with the one-byte tag `b`, on a complete input: the
      non-empty run of bytes before the first `b`, leaving `b` and what
      follows; it fails when `b` is absent or comes first. */
  function TakeUntil1(t: seq<Byte>, b: Byte): (r: Parsed<seq<Byte>>)
    ensures r.Ok? <==> b in t && t[0] != b
    ensures r.Ok? ==> r.value + r.rest == t && |r.value| > 0 && b !in r.value && r.rest[0] == b
  {
    var i := SpanFrom(t, 0, c => c != b);
    if i == |t| || i == 0 then Err else Ok(t[i..], t[..i])
  }

  // ---------------------------------------------------------------- grammar

  /** `assignment_word`: one word, split at its first `=` into a non-empty
      name and the value after the `=`; a word with no `=`, or one that starts
      with `=`, is not an assignment. */
  function ParseAssignmentWord(lx: Lexer, input: seq<Byte>): (r: Parsed<AssignmentWord>)
    ensures r.Ok? <==>
      lx.word(input).Ok? && Equals in lx.word(input).value.text && lx.word(input).value.text[0] != Equals
    ensures r.Ok? ==>
      r.rest == lx.word(input).rest &&
      lx.word(input).value.text == r.value.name + [Equals] + r.value.value &&
      |r.value.name| > 0 && Equals !in r.value.name
  {
    match lx.word(input)
    case Err => Err
    case Ok(rest, tok) =>
      match TakeUntil1(tok.text, Equals)
      case Err => Err
      case Ok(remaining, name) => Ok(rest, AssignmentWord(name, remaining[1..]))
  }

  /** `assignment_word` as a parser value, for `many0`. */
  function AssignmentWords(lx: Lexer): seq<Byte> -> Parsed<AssignmentWord> {
    s => ParseAssignmentWord(lx, s)
  }

  /** `simple_command`: as many assignment words as there are, then an
      optional command name, then every following word as an argument. */
  function ParseSimpleCommand(lx: Lexer, input: seq<Byte>): (r: Parsed<SimpleCommand>)
    ensures r.Ok? ==> lx.word(r.rest).Err?
    ensures r.Ok? && r.value.commandName.None? ==> r.value.args == []
  {
    match Many0(AssignmentWords(lx), input)
    case Err => Err
    case Ok(afterAssignments, assignments) =>
      var name := Opt(lx.word, afterAssignments);
      match Many0(lx.word, name.rest)
      case Err => Err
      case Ok(rest, args) => Ok(rest, SimpleCommand(assignments, name.value, args))
  }

  /** `op_with_name`: the next operator token, accepted only when it is
      exactly `name`. */
  function OpWithName(lx: Lexer, name: seq<Byte>, input: seq<Byte>): (r: Parsed<()>)
    ensures r.Ok? <==> lx.op(input).Ok? && lx.op(input).value == name
    ensures r.Ok? ==> r.rest == lx.op(input).rest
  {
    match lx.op(input)
    case Err => Err
    case Ok(rest, tok) => if tok == name then Ok(rest, ()) else Err
  }

  /** `word_with_name`: despite its name it reads the next token with `op`,
      so it accepts exactly what `op_with_name` accepts. */
  function WordWithName(lx: Lexer, name: seq<Byte>, input: seq<Byte>): (r: Parsed<()>)
    ensures r == OpWithName(lx, name, input)
  {
    match lx.op(input)
    case Err => Err
    case Ok(rest, tok) => if tok == name then Ok(rest, ()) else Err
  }

  /** `pipeline_segment`: a `|` operator and then one simple command. */
  function PipelineSegment(lx: Lexer, input: seq<Byte>): (r: Parsed<SimpleCommand>)
    ensures r.Ok? ==> lx.op(input).Ok? && lx.op(input).value == [Pipe]
    ensures r.Ok? ==> r == ParseSimpleCommand(lx, lx.op(input).rest)
    ensures lx.op(input).Ok? && lx.op(input).value == [Pipe] ==> r == ParseSimpleCommand(lx, lx.op(input).rest)
  {
    match OpWithName(lx, [Pipe], input)
    case Err => Err
    case Ok(afterPipe, _) => ParseSimpleCommand(lx, afterPipe)
  }

  /** `pipeline_segment` as a parser value, for `many0`. */
  function PipelineSegments(lx: Lexer): seq<Byte> -> Parsed<SimpleCommand> {
    s => PipelineSegment(lx, s)
  }

  /** The optional leading `!` of a pipeline, as a parser value for `opt`. */
  function BangToken(lx: Lexer): seq<Byte> -> Parsed<()> {
    s => WordWithName(lx, [Bang], s)
  }

  /** `pipeline_sequence`: an optional `!`, a first simple command, then the
      `|` segments, with the first command put in front of the others. */
  function PipelineSequence(lx: Lexer, input: seq<Byte>): (r: Parsed<PipeLine>)
    ensures r.Ok? ==> |r.value.pipesequence| >= 1
    ensures r.Ok? ==> (r.value.bang <==> WordWithName(lx, [Bang], input).Ok?)
    ensures r.Ok? ==> PipelineSegment(lx, r.rest).Err?
  {
    var bang := Opt(BangToken(lx), input);
    match ParseSimpleCommand(lx, bang.rest)
    case Err => Err
    case Ok(afterFirst, first) =>
      match Many0(PipelineSegments(lx), afterFirst)
      case Err => Err
      case Ok(rest, cmds) => Ok(rest, PipeLine(bang.value.Some?, [first] + cmds))
  }
}

/** What the parsers of src/utils/sh/parser.rs return, stated run by run, and
    its test vectors under the token stream they assume. */
module ParserCases {
  import opened Bytes
  import opened AstNodes
  import opened Parser

  /** `simple_command` stops where `word` fails; it has arguments only if it
      has a name; with a well-behaved lexer it never fails and leaves a
      suffix of its input. */
  lemma {:induction false} SimpleCommandShape(lx: Lexer, input: seq<Byte>)
    ensures ValidLexer(lx) ==> ParseSimpleCommand(lx, input).Ok?
    ensures ParseSimpleCommand(lx, input).Ok? ==> lx.word(ParseSimpleCommand(lx, input).rest).Err?
    ensures ParseSimpleCommand(lx, input).Ok? && ParseSimpleCommand(lx, input).value.commandName.None? ==>
      ParseSimpleCommand(lx, input).value.args == []
    ensures ValidLexer(lx) ==> IsSuffix(ParseSimpleCommand(lx, input).rest, input)
  {
    var aw := AssignmentWords(lx);
    Many0Chain(aw, input);
    if Many0(aw, input).Ok? {
      var m := Many0(aw, input).rest;
      var name := Opt(lx.word, m);
      Many0Chain(lx.word, name.rest);
      if ValidLexer(lx) {
        assert Consumes(aw) by {
          forall s | aw(s).Ok?
            ensures |aw(s).rest| < |s| && IsSuffix(aw(s).rest, s)
          {
            assert aw(s).rest == lx.word(s).rest;
          }
        }
        Many0Chain(aw, input);
        ChainSuffix(aw, input, Many0(aw, input).value, m);
        assert IsSuffix(name.rest, m);
        ChainSuffix(lx.word, name.rest, Many0(lx.word, name.rest).value, Many0(lx.word, name.rest).rest);
      }
    }
  }

  /** A command with a name: the assignments are the run of assignment words
      from the start, the name is the next word, and the arguments are all
      the words after it (whether or not they contain `=`). */
  lemma {:induction false} SimpleCommandOf(lx: Lexer, input: seq<Byte>, assignments: seq<AssignmentWord>,
                                           m: seq<Byte>, name: Word, n: seq<Byte>, args: seq<Word>, rest: seq<Byte>)
    requires Chain(AssignmentWords(lx), input, assignments, m) && ParseAssignmentWord(lx, m).Err?
    requires lx.word(m) == Ok(n, name)
    requires Chain(lx.word, n, args, rest) && lx.word(rest).Err?
    ensures ParseSimpleCommand(lx, input) == Ok(rest, SimpleCommand(assignments, Some(name), args))
  {
    Many0OfChain(AssignmentWords(lx), input, assignments, m);
    Many0OfChain(lx.word, n, args, rest);
  }

  /** A command without a name: only assignments, and nothing after them. */
  lemma {:induction false} SimpleCommandWithoutName(lx: Lexer, input: seq<Byte>, assignments: seq<AssignmentWord>, m: seq<Byte>)
    requires Chain(AssignmentWords(lx), input, assignments, m) && lx.word(m).Err?
    ensures ParseSimpleCommand(lx, input) == Ok(m, SimpleCommand(assignments, None, []))
  {
    Many0OfChain(AssignmentWords(lx), input, assignments, m);
    Many0OfChain(lx.word, m, [], m);
  }

  /** Where the first command of a pipeline starts: after the `!` token if
      there is one, otherwise at the start. */
  function AfterBang(lx: Lexer, input: seq<Byte>): seq<Byte> {
    if WordWithName(lx, [Bang], input).Ok? then lx.op(input).rest else input
  }

  /** `pipeline_sequence`: `bang` is set exactly when a leading `!` operator
      was read; the first command is the simple command after it; the others
      are the `|` segments that follow, in order, up to the first position
      where no segment parses. With a well-behaved lexer it never fails. */
  lemma {:induction false} PipelineSequenceShape(lx: Lexer, input: seq<Byte>)
    ensures ValidLexer(lx) ==> PipelineSequence(lx, input).Ok?
    ensures PipelineSequence(lx, input).Ok? ==>
      var p := PipelineSequence(lx, input).value;
      var first := ParseSimpleCommand(lx, AfterBang(lx, input));
      (p.bang <==> WordWithName(lx, [Bang], input).Ok?) &&
      |p.pipesequence| >= 1 && first.Ok? && p.pipesequence[0] == first.value &&
      Chain(PipelineSegments(lx), first.rest, p.pipesequence[1..], PipelineSequence(lx, input).rest) &&
      PipelineSegment(lx, PipelineSequence(lx, input).rest).Err?
  {
    var start := AfterBang(lx, input);
    assert Opt(BangToken(lx), input).rest == start;
    SimpleCommandShape(lx, start);
    var first := ParseSimpleCommand(lx, start);
    if first.Ok? {
      var segs := PipelineSegments(lx);
      Many0Chain(segs, first.rest);
      if ValidLexer(lx) {
        assert Consumes(segs) by {
          forall s | segs(s).Ok?
            ensures |segs(s).rest| < |s| && IsSuffix(segs(s).rest, s)
          {
            var afterPipe := lx.op(s).rest;
            SimpleCommandShape(lx, afterPipe);
            assert segs(s) == ParseSimpleCommand(lx, afterPipe);
            assert s[|s| - |segs(s).rest|..] == afterPipe[|afterPipe| - |segs(s).rest|..];
          }
        }
      }
      if Many0(segs, first.rest).Ok? {
        var cmds := Many0(segs, first.rest).value;
        assert ([first.value] + cmds)[1..] == cmds;
      }
    }
  }

  /** Two ways of writing `t` as a `b`-free prefix followed by `b` and more
      are the same way. */
  lemma {:induction false} FirstSplitUnique(t: seq<Byte>, b: Byte, x: seq<Byte>, r: seq<Byte>, name: seq<Byte>, value: seq<Byte>)
    requires x + r == t && b !in x && |r| > 0 && r[0] == b
    requires t == name + [b] + value && b !in name
    ensures x == name && r == [b] + value
  {
    assert t[|x|] == b && forall i :: 0 <= i < |x| ==> t[i] == x[i];
    assert t[|name|] == b && forall i :: 0 <= i < |name| ==> t[i] == name[i];
    assert x == t[..|x|] == name;
    assert r == t[|x|..] == [b] + value;
  }

  /** A word is split at its first `=`, whatever follows it. */
  lemma {:induction false} AssignmentWordIs(lx: Lexer, input: seq<Byte>, rest: seq<Byte>, name: seq<Byte>, value: seq<Byte>)
    requires |name| > 0 && Equals !in name
    requires lx.word(input) == Ok(rest, Word(name + [Equals] + value))
    ensures ParseAssignmentWord(lx, input) == Ok(rest, AssignmentWord(name, value))
  {
    var t := name + [Equals] + value;
    assert t[|name|] == Equals;
    var r := TakeUntil1(t, Equals);
    FirstSplitUnique(t, Equals, r.value, r.rest, name, value);
    assert r.rest[1..] == value;
  }

  /** Vector `test_assignment_word`: the word `foo=bar` is the assignment of
      `bar` to `foo`. */
  lemma AssignmentWordVector(lx: Lexer, input: seq<Byte>, rest: seq<Byte>, t: seq<Byte>)
    requires t == Ascii("foo=bar") && lx.word(input) == Ok(rest, Word(t))
    ensures ParseAssignmentWord(lx, input) == Ok(rest, AssignmentWord(Ascii("foo"), Ascii("bar")))
  {
    var foo, bar := Ascii("foo"), Ascii("bar");
    assert t == foo + [Equals] + bar && Equals !in foo;
    AssignmentWordIs(lx, input, rest, foo, bar);
  }

  /** Vector `test_simple_cmd`: `echo hello world`, read as the words `echo`,
      `hello` and `world`, is the command `echo` with the two arguments. */
  lemma SimpleCommandVector(lx: Lexer, s0: seq<Byte>, s1: seq<Byte>, s2: seq<Byte>, s3: seq<Byte>,
                            echo: seq<Byte>, hello: seq<Byte>, world: seq<Byte>)
    requires echo == Ascii("echo") && hello == Ascii("hello") && world == Ascii("world")
    requires |s0| > |s1| > |s2| > |s3|
    requires lx.word(s0) == Ok(s1, Word(echo)) && lx.word(s1) == Ok(s2, Word(hello))
    requires lx.word(s2) == Ok(s3, Word(world)) && lx.word(s3).Err?
    ensures ParseSimpleCommand(lx, s0) == Ok(s3, SimpleCommand([], Some(Word(echo)), [Word(hello), Word(world)]))
  {
    assert Equals !in echo;
    assert Chain(lx.word, s3, [], s3);
    assert Chain(lx.word, s2, [Word(world)], s3);
    assert Chain(lx.word, s1, [Word(hello), Word(world)], s3);
    SimpleCommandOf(lx, s0, [], s0, Word(echo), s1, [Word(hello), Word(world)], s3);
  }

  /** One assignment, a name without `=`, and one more word: that word is an
      argument even when it contains `=`. */
  lemma {:induction false} AssignmentNameArgument(lx: Lexer, s0: seq<Byte>, s1: seq<Byte>, s2: seq<Byte>, s3: seq<Byte>,
                                                  x: seq<Byte>, v: seq<Byte>, cmd: seq<Byte>, arg: Word)
    requires |x| > 0 && Equals !in x && Equals !in cmd
    requires |s0| > |s1| > |s2| > |s3|
    requires lx.word(s0) == Ok(s1, Word(x + [Equals] + v)) && lx.word(s1) == Ok(s2, Word(cmd))
    requires lx.word(s2) == Ok(s3, arg) && lx.word(s3).Err?
    ensures ParseSimpleCommand(lx, s0) == Ok(s3, SimpleCommand([AssignmentWord(x, v)], Some(Word(cmd)), [arg]))
  {
    AssignmentWordIs(lx, s0, s1, x, v);
    var aw := AssignmentWords(lx);
    var aws := [AssignmentWord(x, v)];
    assert aw(s0) == Ok(s1, aws[0]);
    assert aw(s1).Err?;
    assert Chain(aw, s1, [], s1);
    assert Chain(aw, s0, aws, s1) by {
      assert aws[1..] == [];
    }
    assert Chain(lx.word, s3, [], s3);
    assert Chain(lx.word, s2, [arg], s3);
    SimpleCommandOf(lx, s0, aws, s1, Word(cmd), s2, [arg], s3);
  }

  /** `x=1 cmd y=2` assigns `1` to `x` and passes `y=2` to `cmd`. */
  lemma AssignmentOnlyBeforeName(lx: Lexer, s0: seq<Byte>, s1: seq<Byte>, s2: seq<Byte>, s3: seq<Byte>,
                                 x1: seq<Byte>, cmd: seq<Byte>, y2: seq<Byte>)
    requires x1 == Ascii("x=1") && cmd == Ascii("cmd") && y2 == Ascii("y=2")
    requires |s0| > |s1| > |s2| > |s3|
    requires lx.word(s0) == Ok(s1, Word(x1)) && lx.word(s1) == Ok(s2, Word(cmd))
    requires lx.word(s2) == Ok(s3, Word(y2)) && lx.word(s3).Err?
    ensures ParseSimpleCommand(lx, s0) ==
      Ok(s3, SimpleCommand([AssignmentWord(Ascii("x"), Ascii("1"))], Some(Word(cmd)), [Word(y2)]))
  {
    var x, one := Ascii("x"), Ascii("1");
    assert x1 == x + [Equals] + one && Equals !in x && Equals !in cmd;
    AssignmentNameArgument(lx, s0, s1, s2, s3, x, one, cmd, Word(y2));
  }

  /** Conversely, an optional `!`, a first command and a chain of `|`
      segments ending where no segment parses are what `pipeline_sequence`
      returns. */
  lemma {:induction false} PipelineSequenceOf(lx: Lexer, input: seq<Byte>, afterFirst: seq<Byte>, first: SimpleCommand,
                                              cmds: seq<SimpleCommand>, rest: seq<Byte>)
    requires ParseSimpleCommand(lx, AfterBang(lx, input)) == Ok(afterFirst, first)
    requires Chain(PipelineSegments(lx), afterFirst, cmds, rest) && PipelineSegment(lx, rest).Err?
    ensures PipelineSequence(lx, input) == Ok(rest, PipeLine(WordWithName(lx, [Bang], input).Ok?, [first] + cmds))
  {
    assert Opt(BangToken(lx), input).rest == AfterBang(lx, input);
    Many0OfChain(PipelineSegments(lx), afterFirst, cmds, rest);
  }

  /** A command without assignments: a name with no `=` in it and the words
      after it. */
  lemma {:induction false} PlainCommand(lx: Lexer, s: seq<Byte>, n: seq<Byte>, name: Word, args: seq<Word>, rest: seq<Byte>)
    requires Equals !in name.text && lx.word(s) == Ok(n, name)
    requires Chain(lx.word, n, args, rest) && lx.word(rest).Err?
    ensures ParseSimpleCommand(lx, s) == Ok(rest, SimpleCommand([], Some(name), args))
  {
    assert ParseAssignmentWord(lx, s).Err?;
    SimpleCommandOf(lx, s, [], s, name, n, args, rest);
  }

  /** Vector `test_pipeline`: `! ls | grep stuff | cat`, read as the tokens
      `!`, `ls`, `|`, `grep`, `stuff`, `|`, `cat`, is a negated pipeline of
      the three commands in order. */
  lemma PipelineVector(lx: Lexer, p0: seq<Byte>, p1: seq<Byte>, p2: seq<Byte>, p3: seq<Byte>, p4: seq<Byte>,
                       p5: seq<Byte>, p6: seq<Byte>, p7: seq<Byte>,
                       ls: seq<Byte>, grep: seq<Byte>, stuff: seq<Byte>, cat: seq<Byte>)
    requires ls == Ascii("ls") && grep == Ascii("grep") && stuff == Ascii("stuff") && cat == Ascii("cat")
    requires |p0| > |p1| > |p2| > |p3| > |p4| > |p5| > |p6| > |p7|
    requires lx.op(p0) == Ok(p1, [Bang]) && lx.word(p1) == Ok(p2, Word(ls))
    requires lx.word(p2).Err? && lx.op(p2) == Ok(p3, [Pipe])
    requires lx.word(p3) == Ok(p4, Word(grep)) && lx.word(p4) == Ok(p5, Word(stuff))
    requires lx.word(p5).Err? && lx.op(p5) == Ok(p6, [Pipe])
    requires lx.word(p6) == Ok(p7, Word(cat)) && lx.word(p7).Err? && lx.op(p7).Err?
    ensures PipelineSequence(lx, p0) == Ok(p7, PipeLine(true, [
      SimpleCommand([], Some(Word(ls)), []),
      SimpleCommand([], Some(Word(grep)), [Word(stuff)]),
      SimpleCommand([], Some(Word(cat)), [])]))
  {
    assert Equals !in ls && Equals !in grep && Equals !in cat;
    var c1 := SimpleCommand([], Some(Word(ls)), []);
    var c2 := SimpleCommand([], Some(Word(grep)), [Word(stuff)]);
    var c3 := SimpleCommand([], Some(Word(cat)), []);
    assert Chain(lx.word, p2, [], p2) && Chain(lx.word, p7, [], p7) && Chain(lx.word, p5, [], p5);
    assert Chain(lx.word, p4, [Word(stuff)], p5);
    PlainCommand(lx, p1, p2, Word(ls), [], p2);
    PlainCommand(lx, p3, p4, Word(grep), [Word(stuff)], p5);
    PlainCommand(lx, p6, p7, Word(cat), [], p7);
    var segs := PipelineSegments(lx);
    assert segs(p2) == Ok(p5, c2) && segs(p5) == Ok(p7, c3) && segs(p7).Err?;
    assert Chain(segs, p7, [], p7);
    assert Chain(segs, p5, [c3], p7);
    assert Chain(segs, p2, [c2, c3], p7);
    assert WordWithName(lx, [Bang], p0).Ok? && AfterBang(lx, p0) == p1;
    PipelineSequenceOf(lx, p0, p2, c1, [c2, c3], p7);
    assert [c1] + [c2, c3] == [c1, c2, c3];
  }
}
