/** The logger of src/core/logger.cpp on values: guest console bytes buffered by line, VMM
    messages between lines, and what reaches the two descriptors. */
module ConsoleLog {
  import opened Bytes

  const CR: byte := 13
  const LF: byte := 10
  const CRLF: seq<byte> := [13, 10]

  datatype Fd = Stdout | Stderr

  /** One call of `write(2)`. */
  datatype Emit = Emit(fd: Fd, data: seq<byte>)

  datatype Console = Console(trace: seq<Emit>, pending: seq<byte>)

  // ----- the line-ending translation -----

  /** Every LF becomes CR LF; other bytes stay. */
  function Crlf(data: seq<byte>): seq<byte> {
    if data == [] then []
    else Crlf(data[..|data| - 1]) + if data[|data| - 1] == LF then CRLF else [data[|data| - 1]]
  }

  /** Everything written to one descriptor. */
  function OnFd(trace: seq<Emit>, fd: Fd): seq<byte> {
    if trace == [] then []
    else
      var last := trace[|trace| - 1];
      OnFd(trace[..|trace| - 1], fd) + if last.fd == fd then last.data else []
  }

  lemma {:induction false} OnFdConcat(a: seq<Emit>, b: seq<Emit>, fd: Fd)
    ensures OnFd(a + b, fd) == OnFd(a, fd) + OnFd(b, fd)
    decreases |b|
  {
    if b == [] {
      assert a + b == a;
    } else {
      var n := |b| - 1;
      assert (a + b)[..|a + b| - 1] == a + b[..n];
      OnFdConcat(a, b[..n], fd);
    }
  }

  lemma OnFdOne(e: Emit, fd: Fd)
    ensures OnFd([e], fd) == if e.fd == fd then e.data else []
  {
    assert [e][..0] == [];
  }

  lemma OnFdTwo(a: Emit, b: Emit, fd: Fd)
    requires a.fd == b.fd
    ensures OnFd([a, b], fd) == if a.fd == fd then a.data + b.data else []
  {
    assert [a, b][..1] == [a];
    OnFdOne(a, fd);
  }

  lemma {:induction false} CrlfConcat(a: seq<byte>, b: seq<byte>)
    ensures Crlf(a + b) == Crlf(a) + Crlf(b)
    decreases |b|
  {
    if b == [] {
      assert a + b == a;
    } else {
      var n := |b| - 1;
      assert (a + b)[..|a + b| - 1] == a + b[..n];
      CrlfConcat(a, b[..n]);
    }
  }

  lemma {:induction false} CrlfPlain(a: seq<byte>)
    requires LF !in a
    ensures Crlf(a) == a
    decreases |a|
  {
    if a != [] {
      assert a[|a| - 1] in a;
      CrlfPlain(a[..|a| - 1]);
    }
  }

  lemma CrlfLine(plain: seq<byte>)
    requires LF !in plain
    ensures Crlf(plain + [LF]) == plain + CRLF
  {
    CrlfPlain(plain);
    assert (plain + [LF])[..|plain|] == plain;
  }

  /** What `raw_emit` writes for data whose first LF is at `k`. */
  lemma CrlfAtNewline(data: seq<byte>, k: nat)
    requires k < |data| && data[k] == LF && LF !in data[..k]
    ensures Crlf(data) == data[..k] + CRLF + Crlf(data[k + 1..])
  {
    hide Crlf;
    CrlfLine(data[..k]);
    CrlfConcat(data[..k] + [LF], data[k + 1..]);
    SplitAround(data, k);
  }

  lemma SplitAround(data: seq<byte>, k: nat)
    requires k < |data|
    ensures data == data[..k] + [data[k]] + data[k + 1..]
  {}

  // ----- the guest's bytes -----

  function WriteByte(s: Console, c: byte): Console {
    if c == CR then s
    else if c == LF then Console(s.trace + [Emit(Stdout, s.pending), Emit(Stdout, CRLF)], [])
    else s.(pending := s.pending + [c])
  }

  function Write(s: Console, data: seq<byte>): Console {
    if data == [] then s else WriteByte(Write(s, data[..|data| - 1]), data[|data| - 1])
  }

  /** However the guest's bytes are split over calls, the effect is the same. */
  lemma {:induction false} WriteConcat(s: Console, a: seq<byte>, b: seq<byte>)
    ensures Write(Write(s, a), b) == Write(s, a + b)
    decreases |b|
  {
    if b == [] {
      assert a + b == a;
    } else {
      var n := |b| - 1;
      assert (a + b)[..|a + b| - 1] == a + b[..n];
      WriteConcat(s, a, b[..n]);
    }
  }

  function WithoutCr(b: seq<byte>): seq<byte> {
    if b == [] then [] else WithoutCr(b[..|b| - 1]) + if b[|b| - 1] == CR then [] else [b[|b| - 1]]
  }

  /** Left alone by messages, stdout and the pending bytes together are the guest's bytes with
      CRs dropped and each LF translated: no line is lost, empty ones included. */
  lemma {:induction false} WriteIsCrlf(data: seq<byte>)
    ensures var s := Write(Console([], []), data);
            OnFd(s.trace, Stdout) + s.pending == Crlf(WithoutCr(data)) && OnFd(s.trace, Stderr) == []
    decreases |data|
  {
    if data != [] {
      var n := |data| - 1;
      WriteIsCrlf(data[..n]);
      var s := Write(Console([], []), data[..n]);
      var kept := WithoutCr(data[..n]);
      if data[n] != CR {
        assert (kept + [data[n]])[..|kept|] == kept;
        assert Crlf(WithoutCr(data)) == Crlf(kept) + if data[n] == LF then CRLF else [data[n]];
      }
      var out := OnFd(s.trace, Stdout);
      if data[n] == LF {
        ClosedLine(s);
        Assoc(out, s.pending, CRLF);
        assert out + (s.pending + CRLF) + [] == out + (s.pending + CRLF);
      } else if data[n] != CR {
        Assoc(out, s.pending, [data[n]]);
      } else {
        assert kept + [] == kept;
      }
    }
  }

  /** What is on each descriptor after the pending line is closed. */
  lemma ClosedLine(s: Console)
    ensures var t := s.trace + [Emit(Stdout, s.pending), Emit(Stdout, CRLF)];
            && OnFd(t, Stdout) == OnFd(s.trace, Stdout) + (s.pending + CRLF)
            && OnFd(t, Stderr) == OnFd(s.trace, Stderr)
  {
    var a, b := Emit(Stdout, s.pending), Emit(Stdout, CRLF);
    OnFdTwo(a, b, Stdout);
    OnFdTwo(a, b, Stderr);
    OnFdConcat(s.trace, [a, b], Stdout);
    OnFdConcat(s.trace, [a, b], Stderr);
  }

  // ----- messages -----

  function FlushPending(s: Console): Console {
    if s.pending == [] then s else Console(s.trace + [Emit(Stdout, s.pending), Emit(Stdout, CRLF)], [])
  }

  /** The pieces `raw_emit` writes: up to each LF, then CR LF. */
  function Pieces(fd: Fd, data: seq<byte>, k: nat): (es: seq<Emit>)
    requires k <= |data|
    decreases |data|, |data| - k
  {
    if data == [] then []
    else if k == |data| then [Emit(fd, data)]
    else if data[k] == LF then [Emit(fd, data[..k]), Emit(fd, CRLF)] + Pieces(fd, data[k + 1..], 0)
    else Pieces(fd, data, k + 1)
  }

  lemma PiecesAtNewline(fd: Fd, data: seq<byte>, k: nat)
    requires k < |data| && data[k] == LF && LF !in data[..k]
    requires OnFd(Pieces(fd, data[k + 1..], 0), fd) == Crlf(data[k + 1..])
    ensures OnFd(Pieces(fd, data, k), fd) == Crlf(data)
  {
    hide OnFd, Crlf;
    var rest := Pieces(fd, data[k + 1..], 0);
    var a, b := Emit(fd, data[..k]), Emit(fd, CRLF);
    CrlfAtNewline(data, k);
    OnFdTwo(a, b, fd);
    OnFdConcat([a, b], rest, fd);
  }

  lemma PiecesAtEnd(fd: Fd, data: seq<byte>)
    requires LF !in data
    ensures OnFd(Pieces(fd, data, |data|), fd) == Crlf(data)
  {
    CrlfPlain(data);
    if data != [] {
      OnFdOne(Emit(fd, data), fd);
    }
  }

  lemma {:induction false} PiecesAreCrlf(fd: Fd, data: seq<byte>, k: nat)
    requires k <= |data| && LF !in data[..k]
    ensures OnFd(Pieces(fd, data, k), fd) == Crlf(data)
    decreases |data|, |data| - k
  {
    hide OnFd, Crlf;
    if k == |data| {
      assert data[..k] == data;
      PiecesAtEnd(fd, data);
    } else if data[k] == LF {
      PiecesAreCrlf(fd, data[k + 1..], 0);
      PiecesAtNewline(fd, data, k);
    } else {
      PiecesAreCrlf(fd, data, k + 1);
    }
  }

  lemma {:induction false} PiecesOnFd(fd: Fd, data: seq<byte>, k: nat)
    requires k <= |data|
    ensures forall e :: e in Pieces(fd, data, k) ==> e.fd == fd
    decreases |data|, |data| - k
  {
    if k < |data| {
      if data[k] == LF {
        PiecesOnFd(fd, data[k + 1..], 0);
      } else {
        PiecesOnFd(fd, data, k + 1);
      }
    }
  }

  function Log(s: Console, msg: seq<byte>): Console {
    if msg == [] then s
    else
      var s' := FlushPending(s);
      s'.(trace := s'.trace + Pieces(Stderr, msg, 0))
  }

  // ----- every interleaving of guest bytes and messages -----

  datatype Op = GuestWrites(data: seq<byte>) | VmmLogs(msg: seq<byte>) | Shutdown

  function Apply(s: Console, op: Op): Console {
    match op
    case GuestWrites(data) => Write(s, data)
    case VmmLogs(msg) => Log(s, msg)
    case Shutdown => FlushPending(s)
  }

  function Run(s: Console, ops: seq<Op>): Console {
    if ops == [] then s else Apply(Run(s, ops[..|ops| - 1]), ops[|ops| - 1])
  }

  /** The guest's console bytes of a run, in order. */
  function GuestBytes(ops: seq<Op>): seq<byte> {
    if ops == [] then []
    else
      var last := ops[|ops| - 1];
      GuestBytes(ops[..|ops| - 1]) + if last.GuestWrites? then last.data else []
  }

  function Messages(ops: seq<Op>): seq<byte> {
    if ops == [] then []
    else
      var last := ops[|ops| - 1];
      Messages(ops[..|ops| - 1]) + if last.VmmLogs? then last.msg else []
  }

  /** Without CR and LF. */
  function Strip(b: seq<byte>): seq<byte> {
    if b == [] then []
    else Strip(b[..|b| - 1]) + if b[|b| - 1] == CR || b[|b| - 1] == LF then [] else [b[|b| - 1]]
  }

  lemma {:induction false} StripConcat(a: seq<byte>, b: seq<byte>)
    ensures Strip(a + b) == Strip(a) + Strip(b)
    decreases |b|
  {
    if b == [] {
      assert a + b == a;
    } else {
      var n := |b| - 1;
      assert (a + b)[..|a + b| - 1] == a + b[..n];
      StripConcat(a, b[..n]);
    }
  }

  predicate Clean(line: seq<byte>) {
    CR !in line && LF !in line
  }

  lemma {:induction false} StripClean(b: seq<byte>)
    requires Clean(b)
    ensures Strip(b) == b
    decreases |b|
  {
    if b != [] {
      assert b[|b| - 1] in b;
      StripClean(b[..|b| - 1]);
    }
  }

  /** Lines, each ended by CR LF. */
  function Unlines(lines: seq<seq<byte>>): seq<byte> {
    if lines == [] then [] else Unlines(lines[..|lines| - 1]) + (lines[|lines| - 1] + CRLF)
  }

  ghost predicate Lines(b: seq<byte>) {
    exists lines: seq<seq<byte>> :: (forall l :: l in lines ==> Clean(l)) && b == Unlines(lines)
  }

  predicate AtBoundary(b: seq<byte>) {
    b == [] || (|b| >= 2 && b[|b| - 2..] == CRLF)
  }

  /** No message ever starts inside a guest line. */
  ghost predicate MessagesBetweenLines(trace: seq<Emit>) {
    forall i :: 0 <= i < |trace| && trace[i].fd == Stderr ==> AtBoundary(OnFd(trace[..i], Stdout))
  }

  ghost predicate Inv(s: Console, guest: seq<byte>, msgs: seq<byte>) {
    && Clean(s.pending)
    && Lines(OnFd(s.trace, Stdout))
    && Strip(OnFd(s.trace, Stdout)) + s.pending == Strip(guest)
    && OnFd(s.trace, Stderr) == Crlf(msgs)
    && MessagesBetweenLines(s.trace)
  }

  lemma LinesAtBoundary(b: seq<byte>)
    requires Lines(b)
    ensures AtBoundary(b)
  {
    var lines: seq<seq<byte>> :| (forall l :: l in lines ==> Clean(l)) && b == Unlines(lines);
  }

  lemma AddLine(b: seq<byte>, line: seq<byte>)
    requires Lines(b) && Clean(line)
    ensures Lines(b + (line + CRLF))
  {
    var lines: seq<seq<byte>> :| (forall l :: l in lines ==> Clean(l)) && b == Unlines(lines);
    var more := lines + [line];
    assert more[..|more| - 1] == lines;
    assert forall l :: l in more ==> l in lines || l == line;
    assert Unlines(more) == b + (line + CRLF);
  }

  lemma CloseBetweenLines(s: Console)
    requires MessagesBetweenLines(s.trace)
    ensures MessagesBetweenLines(s.trace + [Emit(Stdout, s.pending), Emit(Stdout, CRLF)])
  {
    var t := s.trace + [Emit(Stdout, s.pending), Emit(Stdout, CRLF)];
    assert forall i :: 0 <= i < |s.trace| ==> t[..i] == s.trace[..i] && t[i] == s.trace[i];
  }

  lemma CloseKeepsInv(s: Console, guest: seq<byte>, msgs: seq<byte>)
    requires Inv(s, guest, msgs)
    ensures Inv(Console(s.trace + [Emit(Stdout, s.pending), Emit(Stdout, CRLF)], []), guest, msgs)
  {
    ClosedLine(s);
    CloseBetweenLines(s);
    hide Lines, MessagesBetweenLines, OnFd;
    var out := OnFd(s.trace, Stdout);
    AddLine(out, s.pending);
    StripConcat(out, s.pending + CRLF);
    StripConcat(s.pending, CRLF);
    StripClean(s.pending);
    assert Strip(CRLF) == [] by {
      assert CRLF[..1] == [CR] && CRLF[..1][..0] == [];
    }
  }

  lemma ByteKeepsInv(s: Console, c: byte, guest: seq<byte>, msgs: seq<byte>)
    requires Inv(s, guest, msgs)
    ensures Inv(WriteByte(s, c), guest + [c], msgs)
  {
    assert (guest + [c])[..|guest|] == guest;
    if c == LF {
      CloseKeepsInv(s, guest, msgs);
    }
  }

  lemma {:induction false} WriteKeepsInv(s: Console, data: seq<byte>, guest: seq<byte>, msgs: seq<byte>)
    requires Inv(s, guest, msgs)
    ensures Inv(Write(s, data), guest + data, msgs)
    decreases |data|
  {
    hide Inv;
    if data == [] {
      assert guest + data == guest;
    } else {
      var n := |data| - 1;
      WriteKeepsInv(s, data[..n], guest, msgs);
      ByteKeepsInv(Write(s, data[..n]), data[n], guest + data[..n], msgs);
      assert guest + data[..n] + [data[n]] == guest + data;
    }
  }

  /** Writes to stderr leave stdout where it was: at a line boundary. */
  lemma MessagesAppend(trace: seq<Emit>, es: seq<Emit>)
    requires MessagesBetweenLines(trace) && AtBoundary(OnFd(trace, Stdout))
    requires forall e :: e in es ==> e.fd == Stderr
    ensures MessagesBetweenLines(trace + es) && OnFd(trace + es, Stdout) == OnFd(trace, Stdout)
  {
    hide OnFd, AtBoundary;
    var t := trace + es;
    OnFdConcat(trace, es, Stdout);
    OtherFd(es);
    forall i | 0 <= i < |t| && t[i].fd == Stderr
      ensures AtBoundary(OnFd(t[..i], Stdout))
    {
      if i < |trace| {
        assert t[..i] == trace[..i];
      } else {
        var front := es[..i - |trace|];
        assert t[..i] == trace + front;
        OnFdConcat(trace, front, Stdout);
        OtherFd(front);
      }
    }
  }

  lemma PiecesKeepInv(s: Console, msg: seq<byte>, guest: seq<byte>, msgs: seq<byte>)
    requires Inv(s, guest, msgs) && s.pending == []
    ensures Inv(s.(trace := s.trace + Pieces(Stderr, msg, 0)), guest, msgs + msg)
  {
    hide Pieces, OnFd, Crlf, Lines, Strip, MessagesBetweenLines, AtBoundary;
    var es := Pieces(Stderr, msg, 0);
    PiecesAreCrlf(Stderr, msg, 0);
    PiecesOnFd(Stderr, msg, 0);
    CrlfConcat(msgs, msg);
    OnFdConcat(s.trace, es, Stderr);
    LinesAtBoundary(OnFd(s.trace, Stdout));
    MessagesAppend(s.trace, es);
  }

  lemma {:induction false} OtherFd(es: seq<Emit>)
    requires forall e :: e in es ==> e.fd == Stderr
    ensures OnFd(es, Stdout) == []
    decreases |es|
  {
    if es != [] {
      OtherFd(es[..|es| - 1]);
    }
  }

  lemma ApplyKeepsInv(s: Console, op: Op, guest: seq<byte>, msgs: seq<byte>)
    requires Inv(s, guest, msgs)
    ensures Inv(Apply(s, op), guest + (if op.GuestWrites? then op.data else []),
                msgs + (if op.VmmLogs? then op.msg else []))
  {
    assert guest + [] == guest && msgs + [] == msgs;
    hide Inv;
    match op
    case GuestWrites(data) => WriteKeepsInv(s, data, guest, msgs);
    case VmmLogs(msg) =>
      if msg != [] {
        CloseKeepsInv(s, guest, msgs);
        PiecesKeepInv(FlushPending(s), msg, guest, msgs);
      }
    case Shutdown => CloseKeepsInv(s, guest, msgs);
  }

  /** After any interleaving of guest writes and messages: stdout is CR- and LF-free lines each
      ended by CR LF; stripped of line ends and followed by the pending bytes it is the guest's
      bytes less CR and LF; stderr is the messages with their line ends translated; and stdout
      was at a line boundary at every write to stderr. */
  lemma {:induction false} ConsoleHistory(ops: seq<Op>)
    ensures Inv(Run(Console([], []), ops), GuestBytes(ops), Messages(ops))
    decreases |ops|
  {
    if ops == [] {
      assert Unlines([]) == [];
    } else {
      var n := |ops| - 1;
      ConsoleHistory(ops[..n]);
      hide Inv;
      ApplyKeepsInv(Run(Console([], []), ops[..n]), ops[n], GuestBytes(ops[..n]), Messages(ops[..n]));
    }
  }
}
