/** The byte-level tokenizer of src/utils/sh.rs: the character classes,
    `after_comment` and `token`. `token` is one left-to-right scan with an
    operator flag and a length counter; the token it returns is always the
    slice `input[0..tok_len]` (the start index never moves), so leading
    blanks that were skipped end up inside the returned slice. */
module Sh {
  import opened Bytes

  /** A byte that can continue an operator; none of them is a blank, a
      newline or a comment start. */
  function IsOpCharacter(c: Byte): (b: bool)
    ensures b ==> c != Space && c != Tab && c != Newline && c != Hash
  {
    c in {Amp, Pipe, Semi, Less, Greater, Dash}
  }

  /** Every byte that can start an operator can also continue one. */
  function IsOpInitial(c: Byte): (b: bool)
    ensures b ==> IsOpCharacter(c) && c != Dash
  {
    c in {Amp, Pipe, Semi, Less, Greater}
  }

  /** Space and tab: never an operator character. */
  function IsBlank(c: Byte): (b: bool)
    ensures b ==> !IsOpCharacter(c)
  {
    c == Space || c == Tab
  }

  /** The newline byte: neither an operator character nor a blank. */
  function IsNewline(c: Byte): (b: bool)
    ensures b ==> !IsOpCharacter(c) && !IsBlank(c)
  {
    c == Newline
  }

  /** The `#` byte: none of the other classes, so the order in which the
      scan tests the classes never matters. */
  function IsComment(c: Byte): (b: bool)
    ensures b ==> !IsOpCharacter(c) && !IsBlank(c) && !IsNewline(c)
  {
    c == Hash
  }

  function IsLineByte(c: Byte): bool {
    !IsNewline(c)
  }

  /** A byte that extends a word already begun: anything that neither starts
      an operator nor is a newline or a blank (`#` and `-` included). */
  function IsWordByte(c: Byte): (b: bool)
    ensures IsComment(c) ==> b
    ensures b ==> !IsOpInitial(c) && !IsNewline(c) && !IsBlank(c)
  {
    !IsOpInitial(c) && !IsNewline(c) && !IsBlank(c)
  }

  predicate AllBlank(s: seq<Byte>) {
    forall i :: 0 <= i < |s| ==> IsBlank(s[i])
  }

  predicate FirstNewlineAt(s: seq<Byte>, i: nat) {
    i < |s| && IsNewline(s[i]) && forall j :: 0 <= j < i ==> !IsNewline(s[j])
  }

  /** What `after_comment` returns: the bytes after the first newline, or
      nothing when there is no newline. */
  function AfterCommentSpec(s: seq<Byte>): (r: seq<Byte>)
    ensures (forall j :: 0 <= j < |s| ==> !IsNewline(s[j])) ==> r == []
    ensures forall i :: FirstNewlineAt(s, i) ==> r == s[i + 1..]
    ensures IsSuffix(r, s) && (s != [] ==> |r| < |s|)
  {
    var j := SpanFrom(s, 0, IsLineByte);
    if j == |s| then [] else s[j + 1..]
  }

  /** `after_comment`: scan for the first newline and return what follows. */
  method AfterComment(s: seq<Byte>) returns (rest: seq<Byte>)
    ensures rest == AfterCommentSpec(s)
  {
    for i := 0 to |s|
      invariant forall j :: 0 <= j < i ==> !IsNewline(s[j])
    {
      if IsNewline(s[i]) {
        return s[i + 1..];
      }
    }
    return [];
  }

  /** The returned pair of `token`: the remaining input and the token bytes. */
  datatype Lexed = Lexed(remaining: seq<Byte>, token: seq<Byte>)

  /** Where a scan stops: inside the loop with the token `s[..tokLen]` and the
      remaining input `s[restAt..]`; at a comment that starts at index `at`;
      or at the end of the input with the token `s[..tokLen]`. */
  datatype Stop =
    | Split(tokLen: nat, restAt: nat)
    | Comment(at: nat)
    | AtEnd(tokLen: nat)

  /** Number of blanks the scan skips before anything else. */
  function LeadingBlanks(s: seq<Byte>): (k: nat)
    ensures k <= |s|
  {
    SpanFrom(s, 0, IsBlank)
  }

  /** Where `token` stops, stated run by run: leading blanks, then either an
      operator run (an operator-initial byte followed by the longest run of
      operator characters), a newline, a comment, or a word (the longest run
      of word bytes) together with the delimiter that ended it. */
  function Scan(s: seq<Byte>): (st: Stop)
    ensures st.Split? ==> 0 < st.tokLen <= st.restAt <= |s|
    ensures st.AtEnd? ==> st.tokLen <= |s|
    ensures st.Comment? ==> st.at == LeadingBlanks(s) < |s| && IsComment(s[st.at])
  {
    var k := LeadingBlanks(s);
    if k == |s| then AtEnd(0)
    else if IsOpInitial(s[k]) then
      var j := SpanFrom(s, k + 1, IsOpCharacter);
      if j == |s| then AtEnd(j - k) else Split(j - k, j)
    else if IsNewline(s[k]) then Split(1, k + 1)
    else if IsComment(s[k]) then Comment(k)
    else
      var j := SpanFrom(s, k, IsWordByte);
      if j == |s| then AtEnd(j - k)
      else if IsOpInitial(s[j]) then Split(j - k, j)
      else if IsNewline(s[j]) then Split(j - k + 1, j + 1)
      else Split(j - k, j + 1)
  }

  predicate StartsComment(s: seq<Byte>) {
    LeadingBlanks(s) < |s| && IsComment(s[LeadingBlanks(s)])
  }

  /** What `token` returns, read off the stop of the scan. It never fails,
      and what remains is a suffix of the input, strictly shorter unless the
      input is empty. */
  function TokenSpec(s: seq<Byte>): (r: Parsed<seq<Byte>>)
    ensures r.Ok? && IsSuffix(r.rest, s)
    ensures s != [] ==> |r.rest| < |s|
  {
    match Scan(s)
    case Split(l, j) => Ok(s[j..], s[..l])
    case Comment(k) => Ok(AfterCommentSpec(s[k..]), [Newline])
    case AtEnd(l) => Ok([], s[..l])
  }

  /** The shape of every result of `token`: blank-only input gives an empty
      token and nothing remaining; the token is empty only then; a comment at
      token start gives a newline and the text after the comment line;
      otherwise the token is a prefix of the input and the remaining input a
      suffix that does not overlap it. */
  lemma TokenShape(s: seq<Byte>)
    ensures AllBlank(s) ==> TokenSpec(s) == Ok([], [])
    ensures TokenSpec(s).value == [] <==> AllBlank(s)
    ensures StartsComment(s) ==>
      TokenSpec(s).value == [Newline] && TokenSpec(s).rest == AfterCommentSpec(s[LeadingBlanks(s)..])
    ensures !StartsComment(s) ==>
      var r := TokenSpec(s);
      |r.value| + |r.rest| <= |s| && r.value == s[..|r.value|] && IsSuffix(r.rest, s)
  {
    var k := LeadingBlanks(s);
    if AllBlank(s) {
      SpanFromIs(s, 0, IsBlank, |s|);
    }
  }

  /** The scan has so far skipped `i` blanks. */
  predicate BlankRun(s: seq<Byte>, i: nat) {
    i <= |s| && forall j :: 0 <= j < i ==> IsBlank(s[j])
  }

  /** `s[k..i]` is an operator run begun at `k`. */
  predicate OpRun(s: seq<Byte>, k: nat, i: nat) {
    k < i <= |s| && IsOpInitial(s[k]) && forall j :: k < j < i ==> IsOpCharacter(s[j])
  }

  /** `s[k..i]` is a word begun at `k`. */
  predicate WordRun(s: seq<Byte>, k: nat, i: nat) {
    k < i <= |s| && !IsComment(s[k]) && forall j :: k <= j < i ==> IsWordByte(s[j])
  }

  /** The scan stops in operator mode at `i`, the first byte after the
      operator run that started at `k`. */
  lemma TokenAtOperatorEnd(s: seq<Byte>, k: nat, i: nat)
    requires LeadingBlanks(s) == k && OpRun(s, k, i)
    requires i < |s| ==> !IsOpCharacter(s[i])
    ensures TokenSpec(s) == if i == |s| then Ok([], s[..i - k]) else Ok(s[i..], s[..i - k])
  {
    SpanFromIs(s, k + 1, IsOpCharacter, i);
  }

  /** The scan stops in word mode at `i`, the first byte after the word that
      started at `k`. */
  lemma TokenAtWordEnd(s: seq<Byte>, k: nat, i: nat)
    requires LeadingBlanks(s) == k && WordRun(s, k, i)
    requires i < |s| ==> !IsWordByte(s[i])
    ensures i == |s| ==> TokenSpec(s) == Ok([], s[..i - k])
    ensures i < |s| && IsOpInitial(s[i]) ==> TokenSpec(s) == Ok(s[i..], s[..i - k])
    ensures i < |s| && IsNewline(s[i]) ==> TokenSpec(s) == Ok(s[i + 1..], s[..i - k + 1])
    ensures i < |s| && IsBlank(s[i]) ==> TokenSpec(s) == Ok(s[i + 1..], s[..i - k])
  {
    SpanFromIs(s, k, IsWordByte, i);
  }

  /** The first byte that is not a blank is at `i` (or there is none). */
  lemma TokenAtFirstNonBlank(s: seq<Byte>, i: nat)
    requires BlankRun(s, i) && (i < |s| ==> !IsBlank(s[i]))
    ensures LeadingBlanks(s) == i
    ensures i == |s| ==> TokenSpec(s) == Ok([], [])
    ensures i < |s| && IsNewline(s[i]) ==> TokenSpec(s) == Ok(s[i + 1..], s[..1])
    ensures i < |s| && IsComment(s[i]) ==> TokenSpec(s) == Ok(AfterCommentSpec(s[i..]), [Newline])
  {
    SpanFromIs(s, 0, IsBlank, i);
  }

  /** The return points of `token`, stated on the very slices it returns. */
  lemma OperatorEndsToken(s: seq<Byte>, k: nat, i: nat, tokStart: int, tokEnd: int)
    requires LeadingBlanks(s) == k && OpRun(s, k, i)
    requires i < |s| ==> !IsOpCharacter(s[i])
    requires tokStart == 0 && tokEnd == i - k
    ensures i < |s| ==> TokenSpec(s) == Ok(s[i..], s[tokStart..tokEnd])
    ensures i == |s| ==> TokenSpec(s) == Ok([], s[tokStart..tokEnd])
  {
    TokenAtOperatorEnd(s, k, i);
    assert s[tokStart..tokEnd] == s[..i - k];
  }

  lemma WordEndsToken(s: seq<Byte>, k: nat, i: nat, tokStart: int, tokEnd: int)
    requires LeadingBlanks(s) == k && WordRun(s, k, i)
    requires i < |s| ==> !IsWordByte(s[i])
    requires tokStart == 0 && tokEnd == if i < |s| && IsNewline(s[i]) then i - k + 1 else i - k
    ensures i == |s| ==> TokenSpec(s) == Ok([], s[tokStart..tokEnd])
    ensures i < |s| && IsOpInitial(s[i]) ==> TokenSpec(s) == Ok(s[i..], s[tokStart..tokEnd])
    ensures i < |s| && !IsOpInitial(s[i]) ==> TokenSpec(s) == Ok(s[i + 1..], s[tokStart..tokEnd])
  {
    TokenAtWordEnd(s, k, i);
    assert s[tokStart..tokEnd] == s[..tokEnd];
  }

  lemma FirstNonBlankEndsToken(s: seq<Byte>, i: nat, tokStart: int, tokEnd: int)
    requires BlankRun(s, i) && (i < |s| ==> !IsBlank(s[i]))
    requires tokStart == 0 && tokEnd == if i < |s| then 1 else 0
    ensures LeadingBlanks(s) == i
    ensures i == |s| ==> TokenSpec(s) == Ok([], s[tokStart..tokEnd])
    ensures i < |s| && IsNewline(s[i]) ==> TokenSpec(s) == Ok(s[i + 1..], s[tokStart..tokEnd])
  {
    TokenAtFirstNonBlank(s, i);
    assert s[tokStart..tokEnd] == s[..tokEnd];
  }

  /** `token`: the scan of src/utils/sh.rs, with its early returns. */
  method Token(input: seq<Byte>) returns (r: Parsed<seq<Byte>>)
    ensures r == TokenSpec(input)
    ensures r.Ok?
  {
    var isOperator := false;
    var tokStart := 0;
    var tokLen: nat := 0;
    ghost var k: nat := 0;
    for i := 0 to |input|
      invariant tokLen <= i
      invariant tokLen == 0 ==> !isOperator && BlankRun(input, i)
      invariant tokLen > 0 ==> k + tokLen == i && LeadingBlanks(input) == k
      invariant isOperator ==> OpRun(input, k, i)
      invariant !isOperator && tokLen > 0 ==> WordRun(input, k, i)
    {
      var c := input[i];
      var activeTok := tokLen - tokStart != 0;

      if isOperator {
        if IsOpCharacter(c) {
          tokLen := tokLen + 1;
          continue;
        } else {
          isOperator := false;
          var tokEnd := tokLen - tokStart;
          OperatorEndsToken(input, k, i, tokStart, tokEnd);
          return Ok(input[i..], input[tokStart..tokEnd]);
        }
      }

      if IsOpInitial(c) {
        isOperator := true;
        if activeTok {
          var tokEnd := tokLen - tokStart;
          WordEndsToken(input, k, i, tokStart, tokEnd);
          return Ok(input[i..], input[tokStart..tokEnd]);
        } else {
          TokenAtFirstNonBlank(input, i);
          k := i;
          tokLen := tokLen + 1;
          continue;
        }
      }

      if IsNewline(c) {
        ghost var wasEmpty := tokLen == 0;
        tokLen := tokLen + 1;
        var tokEnd := tokLen - tokStart;
        if wasEmpty {
          FirstNonBlankEndsToken(input, i, tokStart, tokEnd);
        } else {
          WordEndsToken(input, k, i, tokStart, tokEnd);
        }
        return Ok(input[i + 1..], input[tokStart..tokEnd]);
      }

      if IsBlank(c) {
        if tokLen > 0 {
          var tokEnd := tokLen - tokStart;
          WordEndsToken(input, k, i, tokStart, tokEnd);
          return Ok(input[i + 1..], input[tokStart..tokEnd]);
        } else {
          continue;
        }
      }

      if tokLen > 0 {
        tokLen := tokLen + 1;
        continue;
      }

      TokenAtFirstNonBlank(input, i);
      if IsComment(c) {
        var rest := AfterComment(input[i..]);
        return Ok(rest, [Newline]);
      }

      k := i;
      tokLen := tokLen + 1;
    }

    var tokEnd := tokLen - tokStart;
    if tokLen == 0 {
      FirstNonBlankEndsToken(input, |input|, tokStart, tokEnd);
    } else if isOperator {
      OperatorEndsToken(input, k, |input|, tokStart, tokEnd);
    } else {
      WordEndsToken(input, k, |input|, tokStart, tokEnd);
    }
    return Ok([], input[tokStart..tokEnd]);
  }
}

/** The behaviour of `token` stated case by case, and the test vectors of
    src/utils/sh.rs derived from those cases. */
module ShTokenCases {
  import opened Bytes
  import opened Sh

  /** A word as `token` accumulates it: non-empty, not begun by `#`, made of
      word bytes only. */
  predicate IsWord(w: seq<Byte>) {
    |w| > 0 && !IsComment(w[0]) && forall j :: 0 <= j < |w| ==> IsWordByte(w[j])
  }

  /** An operator run: an operator-initial byte and then operator characters. */
  predicate IsOperatorRun(op: seq<Byte>) {
    |op| > 0 && IsOpInitial(op[0]) && forall j :: 0 < j < |op| ==> IsOpCharacter(op[j])
  }

  /** A word with no delimiter after it is returned whole, with nothing remaining. */
  lemma {:induction false} TokenWordAtEnd(w: seq<Byte>)
    requires IsWord(w)
    ensures TokenSpec(w) == Ok([], w)
  {
    TokenAtFirstNonBlank(w, 0);
    assert WordRun(w, 0, |w|);
    TokenAtWordEnd(w, 0, |w|);
    assert w[..|w|] == w;
  }

  /** A word stops before an operator-initial byte, which starts the remaining input. */
  lemma {:induction false} TokenWordBeforeOperator(w: seq<Byte>, rest: seq<Byte>)
    requires IsWord(w) && |rest| > 0 && IsOpInitial(rest[0])
    ensures TokenSpec(w + rest) == Ok(rest, w)
  {
    var s := w + rest;
    TokenAtFirstNonBlank(s, 0);
    assert WordRun(s, 0, |w|);
    TokenAtWordEnd(s, 0, |w|);
    assert s[|w|..] == rest && s[..|w|] == w;
  }

  /** A blank ends a word and is consumed. */
  lemma {:induction false} TokenWordBeforeBlank(w: seq<Byte>, b: Byte, rest: seq<Byte>)
    requires IsWord(w) && IsBlank(b)
    ensures TokenSpec(w + [b] + rest) == Ok(rest, w)
  {
    var s := w + [b] + rest;
    TokenAtFirstNonBlank(s, 0);
    assert WordRun(s, 0, |w|);
    TokenAtWordEnd(s, 0, |w|);
    assert s[|w| + 1..] == rest && s[..|w|] == w;
  }

  /** A newline ends a word and is kept inside the token. */
  lemma {:induction false} TokenWordBeforeNewline(w: seq<Byte>, rest: seq<Byte>)
    ensures IsWord(w) ==> TokenSpec(w + [Newline] + rest) == Ok(rest, w + [Newline])
  {
    if IsWord(w) {
      var s := w + [Newline] + rest;
      TokenAtFirstNonBlank(s, 0);
      assert WordRun(s, 0, |w|);
      TokenAtWordEnd(s, 0, |w|);
      assert s[|w| + 1..] == rest && s[..|w| + 1] == w + [Newline];
    }
  }

  /** An operator token is the longest run of operator characters begun by an
      operator-initial byte; the remaining input starts at the first byte
      after it. */
  lemma {:induction false} TokenOperator(op: seq<Byte>, rest: seq<Byte>)
    requires IsOperatorRun(op) && (rest == [] || !IsOpCharacter(rest[0]))
    ensures TokenSpec(op + rest) == Ok(rest, op)
  {
    var s := op + rest;
    TokenAtFirstNonBlank(s, 0);
    assert OpRun(s, 0, |op|);
    TokenAtOperatorEnd(s, 0, |op|);
    assert s[|op|..] == rest && s[..|op|] == op;
  }

  /** A newline at token start is a token of its own. */
  lemma {:induction false} TokenNewlineFirst(rest: seq<Byte>)
    ensures TokenSpec([Newline] + rest) == Ok(rest, [Newline])
  {
    TokenAtFirstNonBlank([Newline] + rest, 0);
  }

  /** `#` at token start skips the comment line and yields a newline token. */
  lemma {:induction false} TokenCommentFirst(rest: seq<Byte>)
    ensures TokenSpec([Hash] + rest) == Ok(AfterCommentSpec(rest), [Newline])
  {
    var s := [Hash] + rest;
    TokenAtFirstNonBlank(s, 0);
    AfterCommentSkips(Hash, rest);
  }

  /** A byte other than a newline in front of the comment text does not change
      what follows the comment line. */
  lemma {:induction false} AfterCommentSkips(c: Byte, rest: seq<Byte>)
    requires !IsNewline(c)
    ensures AfterCommentSpec([c] + rest) == AfterCommentSpec(rest)
  {
    var s := [c] + rest;
    var f := SpanFrom(rest, 0, IsLineByte);
    SpanFromIs(s, 0, IsLineByte, f + 1);
    if f < |rest| {
      assert s[f + 2..] == rest[f + 1..];
    }
  }

  /** Leading blanks are skipped without moving the start of the token, so
      the returned slice is the first |w| bytes of blanks-then-word. */
  lemma {:induction false} TokenLeadingBlanksKept(bl: seq<Byte>, w: seq<Byte>, b: Byte, rest: seq<Byte>)
    requires AllBlank(bl) && IsWord(w) && IsBlank(b)
    ensures TokenSpec(bl + w + [b] + rest) == Ok(rest, (bl + w)[..|w|])
  {
    var s := bl + w + [b] + rest;
    assert BlankRun(s, |bl|);
    TokenAtFirstNonBlank(s, |bl|);
    assert WordRun(s, |bl|, |bl| + |w|);
    TokenAtWordEnd(s, |bl|, |bl| + |w|);
    assert s[|bl| + |w| + 1..] == rest && s[..|w|] == (bl + w)[..|w|];
  }

  /** Blanks and then a newline: the slice still starts at 0, so the token
      is the first blank, not the newline, and the rest follows the newline. */
  lemma {:induction false} TokenBlanksThenNewline(bl: seq<Byte>, rest: seq<Byte>)
    requires AllBlank(bl) && |bl| > 0
    ensures TokenSpec(bl + [Newline] + rest) == Ok(rest, [bl[0]])
  {
    var s := bl + [Newline] + rest;
    assert BlankRun(s, |bl|);
    TokenAtFirstNonBlank(s, |bl|);
    assert s[|bl| + 1..] == rest && s[..1] == [bl[0]];
  }

  /** Blank-only input, the empty input included, yields an empty token and
      nothing remaining. */
  lemma {:induction false} TokenBlankOnly(s: seq<Byte>)
    requires AllBlank(s)
    ensures TokenSpec(s) == Ok([], [])
  {
    TokenAtFirstNonBlank(s, |s|);
  }

  /** No newline in `text`: a comment line at token start is skipped whole. */
  lemma {:induction false} TokenCommentLine(text: seq<Byte>, rest: seq<Byte>)
    requires forall j :: 0 <= j < |text| ==> !IsNewline(text[j])
    ensures TokenSpec([Hash] + text + [Newline] + rest) == Ok(rest, [Newline])
  {
    var c := text + [Newline] + rest;
    assert [Hash] + text + [Newline] + rest == [Hash] + c;
    TokenCommentFirst(c);
    assert FirstNewlineAt(c, |text|);
    assert c[|text| + 1..] == rest;
  }

  /** Vectors `test_end` and `test_space` of src/utils/sh.rs. */
  lemma TokenVectorsEndSpace(a: seq<Byte>, b: seq<Byte>)
    requires a == Ascii("foo") && b == Ascii("foo bar")
    ensures TokenSpec(a) == Ok(Ascii(""), Ascii("foo"))
    ensures TokenSpec(b) == Ok(Ascii("bar"), Ascii("foo"))
  {
    assert IsWord(a);
    TokenWordAtEnd(a);
    var foo, rest := b[..3], b[4..];
    assert foo == Ascii("foo") && rest == Ascii("bar") && b == foo + [Space] + rest;
    TokenWordBeforeBlank(foo, Space, rest);
  }

  /** A word `foo` followed by an operator `op` and `bar`, and `op` followed by
      `bar` on its own. */
  lemma {:induction false} TokenWordOpBar(a: seq<Byte>, b: seq<Byte>, n: nat)
    requires |a| == 6 + n && a[..3] == Ascii("foo") && a[3 + n..] == Ascii("bar")
    requires b == a[3..] && IsOperatorRun(b[..n])
    ensures TokenSpec(a) == Ok(b, Ascii("foo"))
    ensures TokenSpec(b) == Ok(Ascii("bar"), b[..n])
  {
    var foo, op, bar := a[..3], b[..n], b[n..];
    assert IsWord(foo) && a == foo + b && b == op + bar && bar == Ascii("bar");
    TokenWordBeforeOperator(foo, b);
    TokenOperator(op, bar);
  }

  /** Vectors `test_op` and `test_op2`: `|` after a word and at token start. */
  lemma TokenVectorsPipe(a: seq<Byte>, b: seq<Byte>)
    requires a == Ascii("foo|bar") && b == Ascii("|bar")
    ensures TokenSpec(a) == Ok(Ascii("|bar"), Ascii("foo"))
    ensures TokenSpec(b) == Ok(Ascii("bar"), Ascii("|"))
  {
    assert b == a[3..] && IsOperatorRun(b[..1]) && b[..1] == Ascii("|");
    TokenWordOpBar(a, b, 1);
  }

  /** Vectors `test_op3` and `test_op4`: `&`. */
  lemma TokenVectorsAmp(a: seq<Byte>, b: seq<Byte>)
    requires a == Ascii("foo&bar") && b == Ascii("&bar")
    ensures TokenSpec(a) == Ok(Ascii("&bar"), Ascii("foo"))
    ensures TokenSpec(b) == Ok(Ascii("bar"), Ascii("&"))
  {
    assert b == a[3..] && IsOperatorRun(b[..1]) && b[..1] == Ascii("&");
    TokenWordOpBar(a, b, 1);
  }

  /** Vectors `test_op5` and `test_op6`: `;`. */
  lemma TokenVectorsSemi(a: seq<Byte>, b: seq<Byte>)
    requires a == Ascii("foo;bar") && b == Ascii(";bar")
    ensures TokenSpec(a) == Ok(Ascii(";bar"), Ascii("foo"))
    ensures TokenSpec(b) == Ok(Ascii("bar"), Ascii(";"))
  {
    assert b == a[3..] && IsOperatorRun(b[..1]) && b[..1] == Ascii(";");
    TokenWordOpBar(a, b, 1);
  }

  /** Vectors `test_op7` and `test_op8`: `&&`. */
  lemma TokenVectorsAndIf(a: seq<Byte>, b: seq<Byte>)
    requires a == Ascii("foo&&bar") && b == Ascii("&&bar")
    ensures TokenSpec(a) == Ok(Ascii("&&bar"), Ascii("foo"))
    ensures TokenSpec(b) == Ok(Ascii("bar"), Ascii("&&"))
  {
    assert b == a[3..] && IsOperatorRun(b[..2]) && b[..2] == Ascii("&&");
    TokenWordOpBar(a, b, 2);
  }

  /** Vectors `test_op9` and `test_op10`: `||`. */
  lemma TokenVectorsOrIf(a: seq<Byte>, b: seq<Byte>)
    requires a == Ascii("foo||bar") && b == Ascii("||bar")
    ensures TokenSpec(a) == Ok(Ascii("||bar"), Ascii("foo"))
    ensures TokenSpec(b) == Ok(Ascii("bar"), Ascii("||"))
  {
    assert b == a[3..] && IsOperatorRun(b[..2]) && b[..2] == Ascii("||");
    TokenWordOpBar(a, b, 2);
  }

  /** Vectors `test_op11` and `test_op12`: `||` between blanks. */
  lemma TokenVectorsOrIfSpaced(a: seq<Byte>, b: seq<Byte>)
    requires a == Ascii("foo || bar") && b == Ascii("|| bar")
    ensures TokenSpec(a) == Ok(Ascii("|| bar"), Ascii("foo"))
    ensures TokenSpec(b) == Ok(Ascii(" bar"), Ascii("||"))
  {
    var foo, op, rest := Ascii("foo"), Ascii("||"), Ascii(" bar");
    assert IsWord(foo) && IsOperatorRun(op) && a == foo + [Space] + b && b == op + rest;
    TokenWordBeforeBlank(foo, Space, b);
    TokenOperator(op, rest);
  }

  /** Vector `test_newline`: a newline ending a word stays in the token. */
  lemma TokenVectorNewline(a: seq<Byte>)
    requires a == Ascii("foo\nbar")
    ensures TokenSpec(a) == Ok(Ascii("bar"), Ascii("foo\n"))
  {
    var foo, bar := Ascii("foo"), Ascii("bar");
    assert IsWord(foo) && a == foo + [Newline] + bar && Ascii("foo\n") == foo + [Newline];
    TokenWordBeforeNewline(foo, bar);
  }

  /** Vector `test_newline2`: a newline at token start is a token of its own. */
  lemma TokenVectorNewline2(b: seq<Byte>)
    requires b == Ascii("\n\nfoo")
    ensures TokenSpec(b) == Ok(Ascii("\nfoo"), Ascii("\n"))
  {
    var rest := Ascii("\nfoo");
    assert b == [Newline] + rest && Ascii("\n") == [Newline];
    TokenNewlineFirst(rest);
  }

  /** Vector `test_comment`: `#` at token start skips the comment line. */
  lemma TokenVectorComment(a: seq<Byte>)
    requires a == Ascii("#foo\nbar")
    ensures TokenSpec(a) == Ok(Ascii("bar"), Ascii("\n"))
  {
    var foo, bar := a[1..4], a[5..];
    assert foo == Ascii("foo") && bar == Ascii("bar") && a == [Hash] + foo + [Newline] + bar;
    TokenCommentLine(foo, bar);
    assert Ascii("\n") == [Newline];
  }

  /** Vector `test_comment2`: `#` after word bytes is word content. */
  lemma TokenVectorHashInWord(b: seq<Byte>)
    requires b == Ascii("foo#bar\n")
    ensures TokenSpec(b) == Ok(Ascii(""), Ascii("foo#bar\n"))
  {
    var w := b[..7];
    assert w == Ascii("foo#bar") && IsWord(w) && b == w + [Newline] + [];
    TokenWordBeforeNewline(w, []);
    assert w + [Newline] == b && Ascii("") == [];
  }
}
