/** The `test` utility of src/utils/test.rs: one- and two-operand
    expressions, the file tests, and the permission decision of
    `check_access`. The process identity, the file system and the terminal
    are answered by a `Host` value instead of system calls. */
module Test {
  import opened Bytes

  const Plus: Byte := 43
  const Zero: Byte := 48
  const Nine: Byte := 57

  // The `st_mode` bits of libc that the source reads.
  const S_ISUID: bv32 := 0x800
  const S_ISGID: bv32 := 0x400
  const S_IRUSR: bv32 := 0x100
  const S_IWUSR: bv32 := 0x80
  const S_IXUSR: bv32 := 0x40
  const S_IRGRP: bv32 := 0x20
  const S_IWGRP: bv32 := 0x10
  const S_IXGRP: bv32 := 0x8
  const S_IROTH: bv32 := 0x4
  const S_IWOTH: bv32 := 0x2
  const S_IXOTH: bv32 := 0x1

  /** The file tests a two-operand expression can ask for. */
  datatype FileTest =
    | BlockDev | CharDev | Directory | Exist | File | GidSet | SymLink
    | Fifo | Readable | Socket | GtZero | UidSet | Writable | Executable

  /** The access `check_access` is asked about. */
  datatype Mode = Read | Write | Execute

  /** The type of a file as `fs::metadata` reports it. That call follows
      symbolic links, so a link is reported as the type of its target and
      there is no kind for links. */
  datatype FileKind = Regular | Dir | BlockDevice | CharDevice | FifoFile | SocketFile

  /** The fields of `stat` the source reads (`gid` is there to show that it
      is never read). */
  datatype Stat = Stat(kind: FileKind, mode: bv32, uid: nat, gid: nat, size: nat)

  /** What `isatty` answers: a terminal, `ENOTTY`, or any other error. */
  datatype TtyAnswer = IsTty | NotTty | TtyError

  /** The system calls: effective user and group, the supplementary groups,
      `stat` of a path (`None` when it does not exist), and `isatty`. */
  datatype Host = Host(
    euid: nat,
    egid: nat,
    groups: seq<nat>,
    stat: seq<Byte> -> Option<Stat>,
    isatty: int -> TtyAnswer)

  /** A value, or the error that `?` passes on to the caller. */
  datatype Result<T> = Done(value: T) | Failed

  /** `test_expr1`: a lone operand is true iff it is not empty. */
  function TestExpr1(arg: seq<Byte>): (r: bool)
    ensures r <==> |arg| > 0
  {
    if |arg| == 0 then false else true
  }

  /** The user, group and other bits for `mode`: one permission bit, in
      the other, group and user positions of `st_mode`. */
  function ModeBits(mode: Mode): (bits: (bv32, bv32, bv32))
    ensures bits.2 == S_IROTH || bits.2 == S_IWOTH || bits.2 == S_IXOTH
    ensures bits.1 == bits.2 << 3 && bits.0 == bits.2 << 6
    ensures (bits.2 == S_IROTH <==> mode == Read) && (bits.2 == S_IWOTH <==> mode == Write)
  {
    match mode
    case Read => (S_IRUSR, S_IRGRP, S_IROTH)
    case Write => (S_IWUSR, S_IWGRP, S_IWOTH)
    case Execute => (S_IXUSR, S_IXGRP, S_IXOTH)
  }

  /** Whether `mode` has any of the bits of `mask`. */
  predicate AnySet(mode: bv32, mask: bv32) {
    mode & mask != 0
  }

  /** `check_access` once `stat` has succeeded. Root may read and write
      anything, but its execute test masks `st_mode` with the three execute
      bits ANDed together, which is zero, so root may never execute. Anyone
      else needs the user bit as the owner, the group bit with the effective
      group among the supplementary groups (the file's group is not
      compared), or the other bit. */
  function CheckAccess(h: Host, st: Stat, mode: Mode): (r: bool)
    ensures h.euid == 0 ==> (r <==> mode != Execute)
    ensures h.euid != 0 ==>
      (r <==> ((h.euid == st.uid && AnySet(st.mode, ModeBits(mode).0))
               || (h.egid in h.groups && AnySet(st.mode, ModeBits(mode).1))
               || AnySet(st.mode, ModeBits(mode).2)))
  {
    var userBit, groupBit, otherBit := ModeBits(mode).0, ModeBits(mode).1, ModeBits(mode).2;
    if h.euid == 0 then
      if mode == Execute then AnySet(st.mode, userBit & groupBit & otherBit) else true
    else if h.euid == st.uid && AnySet(st.mode, userBit) then true
    else if h.egid in h.groups && AnySet(st.mode, groupBit) then true
    else if AnySet(st.mode, otherBit) then true
    else false
  }

  /** `test_path`: false when the path does not exist; otherwise the asked
      property of its (link-following) metadata. `-u` reads `S_ISGID`, like
      `-g`, and the link test is false because a followed link is never a
      link. */
  function TestPath(h: Host, t: FileTest, path: seq<Byte>): (r: bool)
    ensures h.stat(path).None? ==> !r
    ensures t == Exist ==> (r <==> h.stat(path).Some?)
    ensures t == SymLink ==> !r
    ensures t == UidSet || t == GidSet ==>
      (r <==> h.stat(path).Some? && AnySet(h.stat(path).value.mode, S_ISGID))
    ensures t == GtZero ==> (r <==> h.stat(path).Some? && h.stat(path).value.size > 0)
  {
    match h.stat(path)
    case None => false
    case Some(st) =>
      match t
      case BlockDev => st.kind == BlockDevice
      case CharDev => st.kind == CharDevice
      case Directory => st.kind == Dir
      case Exist => true
      case File => st.kind == Regular
      case GidSet => AnySet(st.mode, S_ISGID)
      case SymLink => false
      case Fifo => st.kind == FifoFile
      case Readable => CheckAccess(h, st, Read)
      case Socket => st.kind == SocketFile
      case GtZero => st.size > 0
      case UidSet => AnySet(st.mode, S_ISGID)
      case Writable => CheckAccess(h, st, Write)
      case Executable => CheckAccess(h, st, Execute)
  }

  /** The two-byte operator `-c`. */
  function Flag(letter: char): (op: seq<Byte>)
    requires 'A' <= letter <= 'z'
    ensures |op| == 2 && op[0] == Dash && op[1] as int == letter as int
  {
    [Dash, letter as int as Byte]
  }

  /** The operators that ask about a path, and the test each asks for. */
  function PathTestFor(op: seq<Byte>): (r: Option<FileTest>)
    ensures r.Some? ==> |op| == 2 && op[0] == Dash
    ensures r == Some(SymLink) <==> op == Flag('h') || op == Flag('L')
  {
    if op == Flag('b') then Some(BlockDev)
    else if op == Flag('c') then Some(CharDev)
    else if op == Flag('d') then Some(Directory)
    else if op == Flag('e') then Some(Exist)
    else if op == Flag('f') then Some(File)
    else if op == Flag('g') then Some(GidSet)
    else if op == Flag('h') then Some(SymLink)
    else if op == Flag('L') then Some(SymLink)
    else if op == Flag('p') then Some(Fifo)
    else if op == Flag('r') then Some(Readable)
    else if op == Flag('S') then Some(Socket)
    else if op == Flag('s') then Some(GtZero)
    else if op == Flag('u') then Some(UidSet)
    else if op == Flag('w') then Some(Writable)
    else if op == Flag('x') then Some(Executable)
    else None
  }

  predicate IsDigit(b: Byte) {
    Zero <= b <= Nine
  }

  /** The value of a run of decimal digits, most significant first. */
  function DigitsValue(ds: seq<Byte>): (n: nat)
    requires forall i :: 0 <= i < |ds| ==> IsDigit(ds[i])
    decreases |ds|
  {
    if ds == [] then 0
    else
      assert IsDigit(ds[|ds| - 1]);
      DigitsValue(ds[..|ds| - 1]) * 10 + (ds[|ds| - 1] - Zero) as int
  }

  const MinI32: int := -0x8000_0000
  const MaxI32: int := 0x7fff_ffff

  /** `i32::from_str_radix(s, 10)` after the UTF-8 check: an optional `+`
      or `-`, at least one digit, and a value that fits in an `i32`. The
      UTF-8 check rejects fewer operands than this parse (it accepts `abc`),
      but every operand it rejects holds a byte that is no ASCII digit or
      sign, so the two together fail exactly where this returns `None`. */
  function ParseI32(s: seq<Byte>): (r: Option<int>)
    ensures r.Some? ==> MinI32 <= r.value <= MaxI32
  {
    var negative := |s| > 0 && s[0] == Dash;
    var digits := if |s| > 0 && (s[0] == Plus || s[0] == Dash) then s[1..] else s;
    if digits == [] || exists i :: 0 <= i < |digits| && !IsDigit(digits[i]) then None
    else
      var v: int := DigitsValue(digits);
      var n := if negative then -v else v;
      if MinI32 <= n <= MaxI32 then Some(n) else None
  }

  /** `-t fd`: whether the parsed descriptor is a terminal; a descriptor
      that does not parse, or an `isatty` error other than `ENOTTY`, is an
      error. */
  function IsTerminal(h: Host, arg: seq<Byte>): (r: Result<bool>)
    ensures r.Failed? <==> ParseI32(arg).None? || h.isatty(ParseI32(arg).value) == TtyError
    ensures r == Done(true) <==> ParseI32(arg).Some? && h.isatty(ParseI32(arg).value) == IsTty
  {
    match ParseI32(arg)
    case None => Failed
    case Some(fd) =>
      match h.isatty(fd)
      case IsTty => Done(true)
      case NotTty => Done(false)
      case TtyError => Failed
  }

  /** Every operator `test_expr2` recognises. */
  predicate IsOperator(op: seq<Byte>) {
    op == [Bang] || op == Flag('n') || op == Flag('z') || op == Flag('t') || PathTestFor(op).Some?
  }

  /** `test_expr2`: `!` is true iff the operand is empty, `-n` iff it is
      not, `-z` iff it is; `-t` asks the terminal; the path operators run
      their file test; an unknown operator is false, not an error. */
  function TestExpr2(h: Host, op: seq<Byte>, arg: seq<Byte>): (r: Result<bool>)
    ensures op == [Bang] ==> r == Done(|arg| == 0)
    ensures op == Flag('n') ==> r == Done(|arg| != 0)
    ensures op == Flag('z') ==> r == Done(|arg| == 0)
    ensures op == Flag('t') ==> r == IsTerminal(h, arg)
    ensures PathTestFor(op).Some? ==> r == Done(TestPath(h, PathTestFor(op).value, arg))
    ensures !IsOperator(op) ==> r == Done(false)
    ensures r.Failed? ==> op == Flag('t')
  {
    if op == [Bang] then Done(!TestExpr1(arg))
    else if op == Flag('n') then Done(|arg| != 0)
    else if op == Flag('t') then IsTerminal(h, arg)
    else if op == Flag('z') then Done(|arg| == 0)
    else
      match PathTestFor(op)
      case Some(t) => Done(TestPath(h, t, arg))
      case None => Done(false)
  }

  /** `test_main`: no operand or more than two is false; the exit code is
      `SUCCESS` iff the expression is true, and an error of the expression
      is passed on. */
  function TestMain(h: Host, args: seq<seq<Byte>>): (r: Result<ExitCode>)
    ensures |args| == 0 || |args| > 2 ==> r == Done(Failure)
    ensures |args| == 1 ==> r == Done(if args[0] != [] then Success else Failure)
    ensures |args| == 2 ==> (r.Failed? <==> TestExpr2(h, args[0], args[1]).Failed?)
    ensures |args| == 2 ==> (r == Done(Success) <==> TestExpr2(h, args[0], args[1]) == Done(true))
  {
    var ret :=
      if |args| == 0 then Done(false)
      else if |args| == 1 then Done(TestExpr1(args[0]))
      else if |args| == 2 then TestExpr2(h, args[0], args[1])
      else Done(false);
    match ret
    case Failed => Failed
    case Done(b) => Done(if b then Success else Failure)
  }
}

/** Properties of `test`: how the operators relate to each other, the
    quirks of the permission and set-id tests, and where errors come from. */
module TestCases {
  import opened Bytes
  import opened Test

  /** A set bit stays set when more bits are set. */
  lemma AnySetWider(m: bv32, extra: bv32, mask: bv32)
    ensures AnySet(m, mask) ==> AnySet(m | extra, mask)
  {
    assert (m | extra) & mask == (m & mask) | (extra & mask);
  }

  /** For anyone but root, access stays granted when every granting bit
      that was set stays set. */
  lemma AccessKept(h: Host, st: Stat, more: Stat, mode: Mode)
    requires h.euid != 0 && more.uid == st.uid && CheckAccess(h, st, mode)
    requires AnySet(st.mode, ModeBits(mode).0) ==> AnySet(more.mode, ModeBits(mode).0)
    requires AnySet(st.mode, ModeBits(mode).1) ==> AnySet(more.mode, ModeBits(mode).1)
    requires AnySet(st.mode, ModeBits(mode).2) ==> AnySet(more.mode, ModeBits(mode).2)
    ensures CheckAccess(h, more, mode)
  {
  }

  lemma {:induction false} UserAccessMonotone(h: Host, st: Stat, more: Stat, extra: bv32, mode: Mode)
    requires h.euid != 0 && CheckAccess(h, st, mode)
    requires more == st.(mode := st.mode | extra)
    ensures CheckAccess(h, more, mode)
  {
    var bits := ModeBits(mode);
    AnySetWider(st.mode, extra, bits.0);
    AnySetWider(st.mode, extra, bits.1);
    AnySetWider(st.mode, extra, bits.2);
    AccessKept(h, st, more, mode);
  }

  /** Root's answer does not depend on the file at all. */
  lemma RootAccessFixed(h: Host, st: Stat, other: Stat, mode: Mode)
    requires h.euid == 0
    ensures CheckAccess(h, st, mode) == CheckAccess(h, other, mode)
  {
  }

  /** Granting more permission bits never takes access away. */
  lemma {:induction false} AccessMonotone(h: Host, st: Stat, more: Stat, extra: bv32, mode: Mode)
    requires CheckAccess(h, st, mode)
    requires more == st.(mode := st.mode | extra)
    ensures CheckAccess(h, more, mode)
  {
    if h.euid == 0 {
      RootAccessFixed(h, st, more, mode);
    } else {
      UserAccessMonotone(h, st, more, extra, mode);
    }
  }

  /** The file's group is never consulted. */
  lemma AccessIgnoresFileGroup(h: Host, st: Stat, gid: nat, mode: Mode)
    ensures CheckAccess(h, st.(gid := gid), mode) == CheckAccess(h, st, mode)
  {
  }

  /** `-u` asks the same as `-g`, so a set-user-id file without the
      set-group-id bit fails `-u`. */
  lemma UidTestIsGidTest(h: Host, path: seq<Byte>)
    ensures TestExpr2(h, Flag('u'), path) == TestExpr2(h, Flag('g'), path)
    ensures h.stat(path).Some? && !AnySet(h.stat(path).value.mode, S_ISGID) ==>
      TestExpr2(h, Flag('u'), path) == Done(false)
  {
  }

  /** `-h` and `-L` are false for every path, links included. */
  lemma LinkTestsAreFalse(h: Host, path: seq<Byte>)
    ensures TestExpr2(h, Flag('h'), path) == Done(false)
    ensures TestExpr2(h, Flag('L'), path) == Done(false)
  {
  }

  /** The file-kind tests `-b`, `-c`, `-d`, `-f`, `-p` and `-S` ask about
      one `st_mode` kind each, so no path passes two of them, and a path
      that passes one exists. */
  lemma KindTestsExclusive(h: Host, path: seq<Byte>, t1: FileTest, t2: FileTest)
    requires t1 in {BlockDev, CharDev, Directory, File, Fifo, Socket}
    requires t2 in {BlockDev, CharDev, Directory, File, Fifo, Socket}
    requires t1 != t2
    ensures !(TestPath(h, t1, path) && TestPath(h, t2, path))
    ensures TestPath(h, t1, path) ==> TestPath(h, Exist, path)
  {
  }

  /** `!` agrees with `-z`, and `-n` is their negation. */
  lemma StringOperatorsAgree(h: Host, arg: seq<Byte>)
    ensures TestExpr2(h, [Bang], arg) == TestExpr2(h, Flag('z'), arg)
    ensures TestExpr2(h, Flag('n'), arg) == Done(!TestExpr2(h, Flag('z'), arg).value)
  {
  }

  /** A lone operand gives the answer `-n` gives for it. */
  lemma OneOperandIsNonEmpty(h: Host, arg: seq<Byte>)
    ensures TestMain(h, [arg]) == TestMain(h, [Flag('n'), arg])
  {
  }

  /** Only `-t` can make `test` fail with an error: its operand does not
      parse, or `isatty` fails with something other than `ENOTTY`. */
  lemma ErrorsComeFromTerminalTest(h: Host, args: seq<seq<Byte>>)
    requires TestMain(h, args).Failed?
    ensures |args| == 2 && args[0] == Flag('t')
    ensures ParseI32(args[1]).None? || h.isatty(ParseI32(args[1]).value) == TtyError
  {
  }

  /** The decimal digits of `n`, most significant first. */
  function Decimal(n: nat): (ds: seq<Byte>)
    ensures |ds| > 0 && forall i :: 0 <= i < |ds| ==> IsDigit(ds[i])
    decreases n
  {
    var d := [(n % 10) as Byte + Zero];
    if n < 10 then d else Decimal(n / 10) + d
  }

  lemma {:induction false} DecimalValue(n: nat)
    ensures DigitsValue(Decimal(n)) == n
    decreases n
  {
    if n >= 10 {
      DecimalValue(n / 10);
      var ds := Decimal(n);
      assert ds[..|ds| - 1] == Decimal(n / 10);
    }
  }

  /** A number written in decimal, with `-` when negative. */
  function Render(n: int): seq<Byte> {
    if n < 0 then [Dash] + Decimal(-n) else Decimal(n)
  }

  /** Every `i32` written in decimal parses back to itself. */
  lemma {:induction false} ParseRendered(n: int)
    requires MinI32 <= n <= MaxI32
    ensures ParseI32(Render(n)) == Some(n)
  {
    var s := Render(n);
    if n < 0 {
      DecimalValue(-n);
      assert s[1..] == Decimal(-n);
    } else {
      DecimalValue(n);
      assert IsDigit(s[0]);
    }
  }

  /** A number outside the `i32` range written in decimal does not parse. */
  lemma {:induction false} ParseOutOfRange(n: int)
    requires n < MinI32 || MaxI32 < n
    ensures ParseI32(Render(n)) == None
  {
    var s := Render(n);
    if n < 0 {
      DecimalValue(-n);
      assert s[1..] == Decimal(-n);
    } else {
      DecimalValue(n);
      assert IsDigit(s[0]);
    }
  }

  /** A sign without digits, and the empty operand, do not parse. */
  lemma SignAloneDoesNotParse()
    ensures ParseI32([]) == None && ParseI32([Plus]) == None && ParseI32([Dash]) == None
  {
    assert [Plus][1..] == [] && [Dash][1..] == [];
  }
}
