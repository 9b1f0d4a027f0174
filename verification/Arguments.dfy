/**
  A program's argument on its way from the command line to the program: `execute` cuts the
  command at its first space and keeps the rest in the PCB, `getargs` hands it out again.
 */
module Arguments {
  import opened Bytes
  import opened Strings
  import opened Memory
  import opened FileSystem

  const MAX_FILENAME_LENGTH: nat := 32
  const KB_BUF_SIZE_MAX: nat := 128

  /** As far as parsing can read: a name of 33 bytes, the space, an argument of 128 and one byte more. */
  const READ_LIMIT: nat := 163

  /**
    What parsing yields.  `filename` is the 32-byte array and the byte behind it, which a name
    of 33 bytes overwrites.
   */
  datatype Parsed = Rejected | Command(filename: seq<Byte>, arg: seq<Byte>, argSize: nat)

  /** Length of the first word: up to a space or a NUL. */
  function WordLength(s: seq<Byte>): (n: nat)
    ensures n <= |s| && forall k | 0 <= k < n :: s[k] != SPACE && s[k] != NUL
    ensures n < |s| ==> s[n] == SPACE || s[n] == NUL
  {
    if s == [] || s[0] == SPACE || s[0] == NUL then 0 else 1 + WordLength(s[1..])
  }

  lemma WordLengthIs(s: seq<Byte>, n: nat)
    requires n < |s| && (forall k | 0 <= k < n :: s[k] != SPACE && s[k] != NUL) && (s[n] == SPACE || s[n] == NUL)
    ensures WordLength(s) == n
  {
  }

  /** `s` followed by NULs up to `n` bytes. */
  function ZeroFilled(s: seq<Byte>, n: nat): (r: seq<Byte>)
    requires |s| <= n
    ensures |r| == n
  {
    s + seq(n - |s|, _ => NUL)
  }

  /** The meaning of parsing, given the byte that lies behind the file name array. */
  function Parse(command: seq<Byte>, neighbour: Byte): Parsed
    requires |command| >= READ_LIMIT
  {
    var e := WordLength(command);
    if e > MAX_FILENAME_LENGTH + 1 then Rejected
    else
      var arg := CString(command[e + 1..]);
      if |arg| > KB_BUF_SIZE_MAX then Rejected
      else
        Command(NameBuffer(command[..e], neighbour), ZeroFilled(arg, KB_BUF_SIZE_MAX), |arg|)
  }

  /** The file name array, zeroed before the name is stored, and the byte behind it. */
  function NameBuffer(name: seq<Byte>, neighbour: Byte): (r: seq<Byte>)
    requires |name| <= MAX_FILENAME_LENGTH + 1
    ensures |r| == MAX_FILENAME_LENGTH + 1
  {
    if |name| <= MAX_FILENAME_LENGTH then ZeroFilled(name, MAX_FILENAME_LENGTH) + [neighbour] else name
  }

  /** The first loop: copies the name; false if it is too long. */
  method ParseName(command: seq<Byte>, neighbour: Byte) returns (ok: bool, filename: seq<Byte>, argIt: nat)
    requires |command| >= READ_LIMIT
    ensures ok <==> WordLength(command) <= MAX_FILENAME_LENGTH + 1
    ensures ok ==> argIt == WordLength(command) && filename == NameBuffer(command[..argIt], neighbour)
  {
    var name := new Byte[MAX_FILENAME_LENGTH + 1](i => if i < MAX_FILENAME_LENGTH then NUL else neighbour);
    argIt := 0;
    while command[argIt] != SPACE && command[argIt] != NUL
      invariant argIt <= MAX_FILENAME_LENGTH + 1 && argIt <= WordLength(command)
      invariant forall k | 0 <= k < argIt :: name[k] == command[k]
      invariant forall k | argIt <= k <= MAX_FILENAME_LENGTH ::
                  name[k] == if k < MAX_FILENAME_LENGTH then NUL else neighbour
      decreases |command| - argIt
    {
      assert argIt != WordLength(command);
      if argIt > MAX_FILENAME_LENGTH {
        return false, [], argIt;
      }
      name[argIt] := command[argIt];
      argIt := argIt + 1;
    }
    WordLengthIs(command, argIt);
    assert name[..] == NameBuffer(command[..argIt], neighbour);
    return true, name[..], argIt;
  }

  /** The second loop: copies the argument; false if it is too long. */
  method ParseArg(text: seq<Byte>) returns (ok: bool, arg: seq<Byte>, argSize: nat)
    requires KB_BUF_SIZE_MAX < |text|
    ensures ok <==> CLen(text) <= KB_BUF_SIZE_MAX
    ensures ok ==> argSize == CLen(text) && arg == ZeroFilled(CString(text), KB_BUF_SIZE_MAX)
  {
    var buf := new Byte[KB_BUF_SIZE_MAX](_ => NUL);
    argSize := 0;
    while text[argSize] != NUL
      invariant argSize <= KB_BUF_SIZE_MAX
      invariant forall k | 0 <= k < argSize :: text[k] != NUL && buf[k] == text[k]
      invariant forall k | argSize <= k < KB_BUF_SIZE_MAX :: buf[k] == NUL
      decreases KB_BUF_SIZE_MAX - argSize
    {
      if argSize > KB_BUF_SIZE_MAX - 1 {
        NoEarlierEnd(text, argSize + 1);
        return false, [], argSize;
      }
      buf[argSize] := text[argSize];
      argSize := argSize + 1;
    }
    CLenIs(text, argSize);
    assert buf[..] == ZeroFilled(text[..argSize], KB_BUF_SIZE_MAX);
    return true, buf[..], argSize;
  }

  lemma NoEarlierEnd(s: seq<Byte>, n: nat)
    requires n <= |s| && forall k | 0 <= k < n :: s[k] != NUL
    ensures CLen(s) >= n
  {
  }

  /** The parsing part of sys_execute. */
  method ParseCommand(command: seq<Byte>, neighbour: Byte) returns (r: Parsed)
    requires |command| >= READ_LIMIT
    ensures r == Parse(command, neighbour)
  {
    var ok, filename, argIt := ParseName(command, neighbour);
    if !ok {
      return Rejected;
    }
    var arg, argSize;
    ok, arg, argSize := ParseArg(command[argIt + 1..]);
    if !ok {
      return Rejected;
    }
    return Command(filename, arg, argSize);
  }

  // ------------------------------------------------------------------ getargs

  /** Bytes getargs copies: what is asked for, but no more than the PCB holds. */
  function Clamped(nbytes: nat): nat {
    if nbytes > KB_BUF_SIZE_MAX then KB_BUF_SIZE_MAX else nbytes
  }

  predicate GivesArgs(arg: seq<Byte>, argSize: nat, nbytes: nat)
    requires |arg| == KB_BUF_SIZE_MAX
  {
    arg[0] != NUL && argSize <= nbytes
  }

  /** sys_getargs on a PCB's argument; it writes one byte more than it was asked for. */
  method Getargs(arg: seq<Byte>, argSize: nat, buf: array?<Byte>, nbytes: nat) returns (r: int)
    requires |arg| == KB_BUF_SIZE_MAX
    requires buf != null ==> Clamped(nbytes) < buf.Length
    modifies buf
    ensures r == if buf != null && GivesArgs(arg, argSize, nbytes) then 0 else -1
    ensures r == 0 ==> buf[..Clamped(nbytes) + 1] == arg[..Clamped(nbytes)] + [NUL]
    ensures r != 0 && buf != null ==> buf[..] == old(buf[..])
  {
    if buf == null {
      return -1;
    }
    if arg[0] == NUL || nbytes < argSize {
      return -1;
    }
    var n := nbytes;
    if n > KB_BUF_SIZE_MAX {
      n := KB_BUF_SIZE_MAX;
    }
    Memset(buf, 0, 0, n + 1);
    assert buf[n] == NUL;
    CopyOut(arg, 0, buf, 0, n);
    return 0;
  }

  /** A command line: name, space, argument, NUL, and whatever memory follows. */
  function CommandLine(name: seq<Byte>, arg: seq<Byte>, rest: seq<Byte>): seq<Byte> {
    name + [SPACE] + arg + [NUL] + rest
  }

  lemma CommandLineParses(name: seq<Byte>, arg: seq<Byte>, rest: seq<Byte>, neighbour: Byte)
    requires |name| <= MAX_FILENAME_LENGTH && SPACE !in name && NUL !in name
    requires |arg| <= KB_BUF_SIZE_MAX && NUL !in arg
    requires |CommandLine(name, arg, rest)| >= READ_LIMIT
    ensures Parse(CommandLine(name, arg, rest), neighbour) ==
            Command(NameBuffer(name, neighbour), ZeroFilled(arg, KB_BUF_SIZE_MAX), |arg|)
  {
    var command := CommandLine(name, arg, rest);
    WordLengthIs(command, |name|);
    assert command[..|name|] == name;
    var tail := command[|name| + 1..];
    assert tail == arg + [NUL] + rest;
    CLenIs(tail, |arg|);
    assert tail[..|arg|] == arg;
  }

  /**
    A command without an argument ends at a NUL, and parsing reads on behind it: whatever string lies in the
    memory there is taken for the argument.
   */
  lemma BareNameParses(name: seq<Byte>, stale: seq<Byte>, rest: seq<Byte>, neighbour: Byte)
    requires |name| <= MAX_FILENAME_LENGTH && SPACE !in name && NUL !in name && NUL !in stale
    requires |name + [NUL] + stale + [NUL] + rest| >= READ_LIMIT
    ensures Parse(name + [NUL] + stale + [NUL] + rest, neighbour) ==
            if |stale| > 128 then Rejected
            else Command(NameBuffer(name, neighbour), ZeroFilled(stale, KB_BUF_SIZE_MAX), |stale|)
  {
    var command := name + [NUL] + stale + [NUL] + rest;
    WordLengthIs(command, |name|);
    assert command[..|name|] == name;
    var tail := command[|name| + 1..];
    assert tail == stale + [NUL] + rest;
    CLenIs(tail, |stale|);
    assert tail[..|stale|] == stale;
  }

  /** What is refused: names of more than 33 bytes, and arguments of more than 128. */
  lemma CommandRefusedIff(name: seq<Byte>, arg: seq<Byte>, rest: seq<Byte>, neighbour: Byte)
    requires SPACE !in name && NUL !in name && NUL !in arg
    requires |CommandLine(name, arg, rest)| >= READ_LIMIT
    ensures Parse(CommandLine(name, arg, rest), neighbour) == Rejected <==> |name| > 33 || |arg| > 128
  {
    var command := CommandLine(name, arg, rest);
    WordLengthIs(command, |name|);
    var tail := command[|name| + 1..];
    assert tail == arg + [NUL] + rest;
    CLenIs(tail, |arg|);
    assert tail[..|arg|] == arg;
  }

  /** getargs delivers exactly when there is an argument and room for it. */
  lemma GetargsIff(name: seq<Byte>, arg: seq<Byte>, rest: seq<Byte>, neighbour: Byte, nbytes: nat)
    requires |name| < MAX_FILENAME_LENGTH && SPACE !in name && NUL !in name
    requires |arg| <= KB_BUF_SIZE_MAX && NUL !in arg && |CommandLine(name, arg, rest)| >= READ_LIMIT
    ensures var p := Parse(CommandLine(name, arg, rest), neighbour);
            p.Command? && |p.arg| == KB_BUF_SIZE_MAX && (GivesArgs(p.arg, p.argSize, nbytes) <==> 1 <= |arg| <= nbytes)
  {
    CommandLineParses(name, arg, rest, neighbour);
    assert arg != [] ==> ZeroFilled(arg, KB_BUF_SIZE_MAX)[0] == arg[0] && arg[0] in arg;
  }

  /**
    Main result: for every name of at most 31 bytes and every argument of 1 to 128 bytes, what
    getargs delivers into a buffer with enough room is exactly the argument and a NUL.
   */
  lemma ArgumentRoundTrip(name: seq<Byte>, arg: seq<Byte>, rest: seq<Byte>, neighbour: Byte, nbytes: nat)
    requires |name| < MAX_FILENAME_LENGTH && SPACE !in name && NUL !in name
    requires 1 <= |arg| <= KB_BUF_SIZE_MAX && NUL !in arg && |arg| <= nbytes
    requires |CommandLine(name, arg, rest)| >= READ_LIMIT
    ensures var p := Parse(CommandLine(name, arg, rest), neighbour);
            && p.Command?
            && CString(p.filename) == name
            && GivesArgs(p.arg, p.argSize, nbytes)
            && CString(p.arg[..Clamped(nbytes)] + [NUL]) == arg
  {
    CommandLineParses(name, arg, rest, neighbour);
    NameInBuffer(name, neighbour);
    ArgInBuffer(arg, nbytes);
  }

  lemma NameInBuffer(name: seq<Byte>, neighbour: Byte)
    requires |name| < MAX_FILENAME_LENGTH && NUL !in name
    ensures NUL in NameBuffer(name, neighbour) && CString(NameBuffer(name, neighbour)) == name
  {
    var filename := NameBuffer(name, neighbour);
    assert filename[|name|] == NUL;
    CLenIs(filename, |name|);
    assert filename[..|name|] == name;
  }

  lemma ArgInBuffer(arg: seq<Byte>, nbytes: nat)
    requires |arg| <= KB_BUF_SIZE_MAX && NUL !in arg && |arg| <= nbytes
    ensures CString(ZeroFilled(arg, KB_BUF_SIZE_MAX)[..Clamped(nbytes)] + [NUL]) == arg
  {
    var out := ZeroFilled(arg, KB_BUF_SIZE_MAX)[..Clamped(nbytes)] + [NUL];
    CLenIs(out, |arg|);
    assert out[..|arg|] == arg;
  }
}
