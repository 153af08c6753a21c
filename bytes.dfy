/** Byte strings, the ASCII codes the shell front end looks at, the result
    shape shared by all the nom-style scanners and parsers, and the "longest
    run" primitive that several of them are specified with. */
module Bytes {

  /** One element of a Rust `&[u8]`. */
  newtype Byte = b: int | 0 <= b < 256

  const Tab: Byte := 9
  const Newline: Byte := 10
  const Space: Byte := 32
  const Bang: Byte := 33
  const Hash: Byte := 35
  const Dollar: Byte := 36
  const Amp: Byte := 38
  const Dash: Byte := 45
  const Dot: Byte := 46
  const Slash: Byte := 47
  const Semi: Byte := 59
  const Less: Byte := 60
  const Equals: Byte := 61
  const Greater: Byte := 62
  const Underscore: Byte := 95
  const Pipe: Byte := 124

  /** The outcome of a nom parser (`IResult<&[u8], T>`): the unconsumed input
      and the parsed value, or a recoverable error. */
  datatype Parsed<T> = Ok(rest: seq<Byte>, value: T) | Err

  datatype Option<T> = None | Some(value: T)

  /** `std::process::ExitCode::SUCCESS` and `FAILURE`. */
  datatype ExitCode = Success | Failure

  predicate IsAscii(s: string) {
    forall i :: 0 <= i < |s| ==> s[i] as int < 256
  }

  /** The bytes of an ASCII string literal (`b"..."` in the source). */
  function Ascii(s: string): seq<Byte>
    requires IsAscii(s)
  {
    seq(|s|, i requires 0 <= i < |s| => s[i] as int as Byte)
  }

  predicate IsSuffix(r: seq<Byte>, s: seq<Byte>) {
    |r| <= |s| && r == s[|s| - |r|..]
  }

  /** The end of the longest run of bytes satisfying `p` that starts at
      `from`: every byte in between satisfies `p` and the byte at the end,
      if any, does not. */
  function SpanFrom(s: seq<Byte>, from: nat, p: Byte -> bool): (j: nat)
    requires from <= |s|
    ensures from <= j <= |s|
    ensures forall i :: from <= i < j ==> p(s[i])
    ensures j < |s| ==> !p(s[j])
    decreases |s| - from
  {
    if from == |s| || !p(s[from]) then from else SpanFrom(s, from + 1, p)
  }

  /** The run is determined by the two facts SpanFrom promises. */
  lemma SpanFromIs(s: seq<Byte>, from: nat, p: Byte -> bool, j: nat)
    requires from <= j <= |s|
    requires forall i :: from <= i < j ==> p(s[i])
    requires j < |s| ==> !p(s[j])
    ensures SpanFrom(s, from, p) == j
  {
  }
}
