/** The syntax tree of src/utils/sh/ast_nodes.rs. Every node is an immutable
    record or enumeration; the byte slices the source borrows from the script
    are plain byte sequences here. */
module AstNodes {
  import opened Bytes

  /** A script: its complete commands in order. */
  type Script = seq<CompleteCommand>

  datatype CompleteCommand = CompleteCommand(expression: Expression, subshell: bool)

  /** A head pipeline (`term`) and the ordered list of pipelines joined to it
      by `&&` or `||`. */
  datatype Expression = Expression(elems: seq<LogicalSeqElem>, term: PipeLine)

  datatype LogicalSeqElem = LogicalSeqElem(op: LogicalOp, pipeline: PipeLine)

  /** An optional leading `!` and the simple commands joined by `|`, in order. */
  datatype PipeLine = PipeLine(bang: bool, pipesequence: seq<SimpleCommand>)

  /** `name=value`: the bytes before and after the first `=`. */
  datatype AssignmentWord = AssignmentWord(name: seq<Byte>, value: seq<Byte>)

  /** Assignments, then an optional command name, then the arguments. */
  datatype SimpleCommand = SimpleCommand(
    assignmentWords: seq<AssignmentWord>,
    commandName: Option<Word>,
    args: seq<Word>)

  datatype Word = Word(text: seq<Byte>)

  datatype LogicalOp = Or | And

  datatype RedirectionOp = Less | LessAnd | Great | GreatAnd | DGreat | LessGreat | Clobber

  datatype IoHereOp = DLess | DLessDash

  /** The source's `u32` file-descriptor number before a redirection. */
  newtype IoNumber = n: int | 0 <= n < 0x1_0000_0000

  /** `SeperatorOp` in the source. */
  datatype SeparatorOp = Async | Seq

  /** `Word::eval`: a copy of the word's bytes; being a function of the
      word, it leaves the word as it was, and a word built from the copy is
      the same word again. */
  function Eval(w: Word): (r: seq<Byte>)
    ensures Word(r) == w
  {
    w.text
  }

  /** `Word::new`: the word evaluates back to exactly the bytes it was made
      from, and every word is made this way from its own evaluation. */
  function WordNew(text: seq<Byte>): (w: Word)
    ensures Eval(w) == text
    ensures forall v: Word {:trigger Eval(v)} :: Eval(v) == text ==> v == w
  {
    Word(text)
  }
}
