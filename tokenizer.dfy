/** The later tokenizer of src/utils/sh/tokenizer.rs: `raw_token` repeats the
    scan of `token` from src/utils/sh.rs (it reuses its character classes and
    `after_comment`), wraps every token as `Token::Word`, and at the end of the
    input succeeds only when `active_tok`, as computed at the top of the last
    iteration, was true. */
module Tokenizer {
  import opened Bytes
  import opened Sh

  datatype Token = Word(text: seq<Byte>) | Op(text: seq<Byte>)

  /** What `raw_token` returns, read off the same scan as `token`: always a
      `Word`, leaving a strictly shorter suffix of the input; the empty
      input is an error. */
  function RawTokenSpec(s: seq<Byte>): (r: Parsed<Token>)
    ensures r.Ok? ==> r.value.Word? && IsSuffix(r.rest, s) && |r.rest| < |s|
    ensures s == [] ==> r.Err?
  {
    match Scan(s)
    case Split(l, j) => Ok(s[j..], Word(s[..l]))
    case Comment(k) => Ok(AfterCommentSpec(s[k..]), Word([Newline]))
    case AtEnd(l) => if l >= 2 then Ok([], Word(s[..l])) else Err
  }

  /** Whenever `raw_token` succeeds it returns what `token` returns, wrapped as
      a `Word` (an `Op` is never built); it fails exactly when the scan runs off
      the end of the input having collected fewer than two bytes. */
  lemma RawTokenAgreesWithToken(s: seq<Byte>)
    ensures RawTokenSpec(s).Ok? ==> RawTokenSpec(s).value.Word?
    ensures RawTokenSpec(s).Ok? ==> RawTokenSpec(s) == Ok(TokenSpec(s).rest, Word(TokenSpec(s).value))
    ensures RawTokenSpec(s).Err? <==> Scan(s).AtEnd? && Scan(s).tokLen < 2
  {
  }

  /** The return points of `raw_token`, stated on the very slices it returns;
      at the end of the input the outcome hangs on whether at least two bytes
      were collected. */
  lemma OperatorEndsRawToken(s: seq<Byte>, k: nat, i: nat, tokStart: int, tokEnd: int)
    requires LeadingBlanks(s) == k && OpRun(s, k, i)
    requires i < |s| ==> !IsOpCharacter(s[i])
    requires tokStart == 0 && tokEnd == i - k
    ensures i < |s| ==> RawTokenSpec(s) == Ok(s[i..], Word(s[tokStart..tokEnd]))
    ensures i == |s| ==> RawTokenSpec(s) == if tokEnd >= 2 then Ok([], Word(s[tokStart..tokEnd])) else Err
  {
    OperatorEndsToken(s, k, i, tokStart, tokEnd);
    SpanFromIs(s, k + 1, IsOpCharacter, i);
  }

  lemma WordEndsRawToken(s: seq<Byte>, k: nat, i: nat, tokStart: int, tokEnd: int)
    requires LeadingBlanks(s) == k && WordRun(s, k, i)
    requires i < |s| ==> !IsWordByte(s[i])
    requires tokStart == 0 && tokEnd == if i < |s| && IsNewline(s[i]) then i - k + 1 else i - k
    ensures i == |s| ==> RawTokenSpec(s) == if tokEnd >= 2 then Ok([], Word(s[tokStart..tokEnd])) else Err
    ensures i < |s| && IsOpInitial(s[i]) ==> RawTokenSpec(s) == Ok(s[i..], Word(s[tokStart..tokEnd]))
    ensures i < |s| && !IsOpInitial(s[i]) ==> RawTokenSpec(s) == Ok(s[i + 1..], Word(s[tokStart..tokEnd]))
  {
    WordEndsToken(s, k, i, tokStart, tokEnd);
    SpanFromIs(s, k, IsWordByte, i);
  }

  lemma FirstNonBlankEndsRawToken(s: seq<Byte>, i: nat, tokStart: int, tokEnd: int)
    requires BlankRun(s, i) && (i < |s| ==> !IsBlank(s[i]))
    requires tokStart == 0 && tokEnd == if i < |s| then 1 else 0
    ensures LeadingBlanks(s) == i
    ensures i == |s| ==> RawTokenSpec(s) == Err
    ensures i < |s| && IsNewline(s[i]) ==> RawTokenSpec(s) == Ok(s[i + 1..], Word(s[tokStart..tokEnd]))
    ensures i < |s| && IsComment(s[i]) ==> RawTokenSpec(s) == Ok(AfterCommentSpec(s[i..]), Word([Newline]))
  {
    FirstNonBlankEndsToken(s, i, tokStart, tokEnd);
    TokenAtFirstNonBlank(s, i);
  }

  /** `raw_token`: the scan of `token` plus the `active_tok` flag that decides
      between success and failure at the end of the input. */
  method RawToken(input: seq<Byte>) returns (r: Parsed<Token>)
    ensures r == RawTokenSpec(input)
  {
    var isOperator := false;
    var tokStart := 0;
    var tokLen: nat := 0;
    var activeTok := false;
    ghost var k: nat := 0;
    for i := 0 to |input|
      invariant tokLen <= i
      invariant activeTok == (tokLen >= 2)
      invariant tokLen == 0 ==> !isOperator && BlankRun(input, i)
      invariant tokLen > 0 ==> k + tokLen == i && LeadingBlanks(input) == k
      invariant isOperator ==> OpRun(input, k, i)
      invariant !isOperator && tokLen > 0 ==> WordRun(input, k, i)
    {
      var c := input[i];
      activeTok := tokLen - tokStart != 0;

      if isOperator {
        if IsOpCharacter(c) {
          tokLen := tokLen + 1;
          continue;
        } else {
          isOperator := false;
          var tokEnd := tokLen - tokStart;
          OperatorEndsRawToken(input, k, i, tokStart, tokEnd);
          return Ok(input[i..], Word(input[tokStart..tokEnd]));
        }
      }

      if IsOpInitial(c) {
        isOperator := true;
        if activeTok {
          var tokEnd := tokLen - tokStart;
          WordEndsRawToken(input, k, i, tokStart, tokEnd);
          return Ok(input[i..], Word(input[tokStart..tokEnd]));
        } else {
          FirstNonBlankEndsRawToken(input, i, tokStart, 1);
          k := i;
          tokLen := tokLen + 1;
          continue;
        }
      }

      if IsNewline(c) {
        ghost var wasEmpty := tokLen == 0;
        tokLen := tokLen + 1;
        var tokEnd := tokLen - tokStart;
        if wasEmpty {
          FirstNonBlankEndsRawToken(input, i, tokStart, tokEnd);
        } else {
          WordEndsRawToken(input, k, i, tokStart, tokEnd);
        }
        return Ok(input[i + 1..], Word(input[tokStart..tokEnd]));
      }

      if IsBlank(c) {
        if tokLen > 0 {
          var tokEnd := tokLen - tokStart;
          WordEndsRawToken(input, k, i, tokStart, tokEnd);
          return Ok(input[i + 1..], Word(input[tokStart..tokEnd]));
        } else {
          continue;
        }
      }

      if tokLen > 0 {
        tokLen := tokLen + 1;
        continue;
      }

      FirstNonBlankEndsRawToken(input, i, tokStart, 1);
      if IsComment(c) {
        var rest := AfterComment(input[i..]);
        return Ok(rest, Word([Newline]));
      }

      k := i;
      tokLen := tokLen + 1;
    }

    var tokEnd := tokLen - tokStart;
    if tokLen == 0 {
      FirstNonBlankEndsRawToken(input, |input|, tokStart, tokEnd);
    } else if isOperator {
      OperatorEndsRawToken(input, k, |input|, tokStart, tokEnd);
    } else {
      WordEndsRawToken(input, k, |input|, tokStart, tokEnd);
    }
    if activeTok {
      return Ok([], Word(input[tokStart..tokEnd]));
    } else {
      return Err;
    }
  }

}

/** The behaviour of `raw_token` at the end of the input, and the test vectors
    written for it in src/utils/sh/tokenizer.rs. */
module TokenizerCases {
  import opened Bytes
  import opened Sh
  import opened ShTokenCases
  import opened Tokenizer

  /** Blank-only input, the empty input included, is an error. */
  lemma {:induction false} RawTokenBlankOnly(s: seq<Byte>)
    requires AllBlank(s)
    ensures RawTokenSpec(s) == Err
  {
    FirstNonBlankEndsRawToken(s, |s|, 0, 0);
  }

  /** A last token of a single byte, word or operator, is an error: when the
      loop sees that byte no earlier byte had been collected. */
  lemma {:induction false} RawTokenLoneByte(bl: seq<Byte>, c: Byte)
    requires AllBlank(bl) && !IsBlank(c) && !IsNewline(c) && !IsComment(c)
    ensures RawTokenSpec(bl + [c]) == Err
  {
    var s := bl + [c];
    assert BlankRun(s, |bl|);
    FirstNonBlankEndsRawToken(s, |bl|, 0, 1);
    if IsOpInitial(c) {
      OperatorEndsRawToken(s, |bl|, |s|, 0, 1);
    } else {
      WordEndsRawToken(s, |bl|, |s|, 0, 1);
    }
  }

  /** A word of two or more bytes that runs to the end is returned whole. */
  lemma {:induction false} RawTokenWordAtEnd(w: seq<Byte>)
    requires IsWord(w) && |w| >= 2
    ensures RawTokenSpec(w) == Ok([], Word(w))
  {
    FirstNonBlankEndsRawToken(w, 0, 0, 1);
    assert WordRun(w, 0, |w|);
    WordEndsRawToken(w, 0, |w|, 0, |w|);
    assert w[0..|w|] == w;
  }

  /** Whenever `token` stops inside the input, `raw_token` returns the same
      split with the token wrapped as a word. */
  lemma {:induction false} RawTokenAsToken(s: seq<Byte>, rest: seq<Byte>, tok: seq<Byte>)
    requires TokenSpec(s) == Ok(rest, tok) && |tok| >= 2
    ensures RawTokenSpec(s) == Ok(rest, Word(tok))
  {
    RawTokenAgreesWithToken(s);
    if Scan(s).AtEnd? {
      assert tok == s[..Scan(s).tokLen];
    }
  }

  /** "a" and "|" fail: a lone last byte is never returned. */
  lemma RawTokenVectorsLoneByte(a: seq<Byte>, b: seq<Byte>)
    requires a == Ascii("a") && b == Ascii("|")
    ensures RawTokenSpec(a) == Err && RawTokenSpec(b) == Err
  {
    assert a == [] + [a[0]] && b == [] + [b[0]];
    RawTokenLoneByte([], a[0]);
    RawTokenLoneByte([], b[0]);
  }

  /** "ab" is returned whole. */
  lemma RawTokenVectorTwoBytes(c: seq<Byte>)
    requires c == Ascii("ab")
    ensures RawTokenSpec(c) == Ok([], Word(c))
  {
    assert IsWord(c);
    RawTokenWordAtEnd(c);
  }

  /** A word of two or more bytes stops before an operator-initial byte. */
  lemma {:induction false} RawTokenWordBeforeOperator(w: seq<Byte>, rest: seq<Byte>)
    requires IsWord(w) && |w| >= 2 && |rest| > 0 && IsOpInitial(rest[0])
    ensures RawTokenSpec(w + rest) == Ok(rest, Word(w))
  {
    TokenWordBeforeOperator(w, rest);
    RawTokenAsToken(w + rest, rest, w);
  }

  /** Vector `test_op`: "foo|bar" splits before the operator. */
  lemma RawTokenVectorPipe(d: seq<Byte>)
    requires d == Ascii("foo|bar")
    ensures RawTokenSpec(d) == Ok(Ascii("|bar"), Word(Ascii("foo")))
  {
    var w, rest := Ascii("foo"), Ascii("|bar");
    assert IsWord(w) && d == w + rest;
    RawTokenWordBeforeOperator(w, rest);
  }
}
