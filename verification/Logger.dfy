/** The logger of src/core/logger.cpp: one pending guest line, updated in place, and the calls
    of `write(2)` it makes. */
module LoggerState {
  import opened Bytes
  import opened ConsoleLog

  /** `memchr(p, '\\n', end - p)`: the first LF at or after `p`, or the end. */
  method FindNewline(data: seq<byte>, p: nat) returns (k: nat)
    requires p <= |data|
    ensures p <= k <= |data| && LF !in data[p..k]
    ensures k < |data| ==> data[k] == LF
  {
    k := p;
    while k < |data| && data[k] != LF
      invariant p <= k <= |data| && LF !in data[p..k]
    {
      k := k + 1;
    }
  }

  lemma {:induction false} PiecesSkip(fd: Fd, data: seq<byte>, k: nat)
    requires k <= |data| && LF !in data[..k]
    ensures Pieces(fd, data, 0) == Pieces(fd, data, k)
    decreases k
  {
    if k > 0 {
      assert data[..k][k - 1] == data[k - 1];
      PiecesSkip(fd, data, k - 1);
    }
  }

  /** The pieces of what is left from `p` on, when its next LF is at `nl`. */
  lemma PiecesFrom(fd: Fd, data: seq<byte>, p: nat, nl: nat)
    requires p <= nl <= |data| && p < |data| && LF !in data[p..nl] && (nl < |data| ==> data[nl] == LF)
    ensures Pieces(fd, data[p..], 0)
         == if nl == |data| then [Emit(fd, data[p..])]
            else [Emit(fd, data[p..nl]), Emit(fd, CRLF)] + Pieces(fd, data[nl + 1..], 0)
  {
    var rest := data[p..];
    assert rest[..nl - p] == data[p..nl];
    PiecesSkip(fd, rest, nl - p);
    if nl < |data| {
      assert rest[nl - p + 1..] == data[nl + 1..];
    }
  }

  class Logger {
    /** The calls of `write(2)` so far. */
    var trace: seq<Emit>
    var pending: seq<byte>

    ghost function View(): Console
      reads this
    {
      Console(trace, pending)
    }

    constructor ()
      ensures View() == Console([], [])
    {
      trace, pending := [], [];
    }

    /** Writes `data` to `fd` with every LF turned into CR LF. */
    method RawEmit(fd: Fd, data: seq<byte>)
      modifies this`trace
      ensures trace == old(trace) + Pieces(fd, data, 0)
      ensures OnFd(trace, fd) == OnFd(old(trace), fd) + Crlf(data)
    {
      hide Pieces, OnFd, Crlf;
      var p := 0;
      assert data[0..] == data;
      ghost var done: seq<Emit> := [];
      while p < |data|
        invariant 0 <= p <= |data|
        invariant trace == old(trace) + done
        invariant Pieces(fd, data, 0) == done + Pieces(fd, data[p..], 0)
      {
        var nl := FindNewline(data, p);
        PiecesFrom(fd, data, p, nl);
        if nl == |data| {
          trace := trace + [Emit(fd, data[p..])];
          Written(fd, data, old(trace), trace);
          return;
        }
        trace := trace + [Emit(fd, data[p..nl])];
        trace := trace + [Emit(fd, CRLF)];
        done := done + [Emit(fd, data[p..nl]), Emit(fd, CRLF)];
        p := nl + 1;
      }
      NoPieces(fd, data[p..]);
      Written(fd, data, old(trace), trace);
    }

    method Flush()
      modifies this
      ensures View() == FlushPending(old(View()))
    {
      if pending == [] {
        return;
      }
      trace := trace + [Emit(Stdout, pending)];
      trace := trace + [Emit(Stdout, CRLF)];
      pending := [];
    }

    /** A formatted VMM message: guest's partial line first, then the message. */
    method LogMessage(msg: seq<byte>)
      modifies this
      ensures View() == Log(old(View()), msg)
    {
      if msg == [] {
        return;
      }
      Flush();
      RawEmit(Stderr, msg);
    }

    /** Guest console bytes, one by one. */
    method WriteBytes(data: seq<byte>)
      modifies this
      ensures View() == Write(old(View()), data)
    {
      for i := 0 to |data|
        invariant View() == Write(old(View()), data[..i])
      {
        var c := data[i];
        assert data[..i + 1][..i] == data[..i];
        if c == CR {
          continue;
        }
        if c == LF {
          trace := trace + [Emit(Stdout, pending)];
          trace := trace + [Emit(Stdout, CRLF)];
          pending := [];
        } else {
          pending := pending + [c];
        }
      }
      assert data[..|data|] == data;
    }
  }

  lemma NoPieces(fd: Fd, data: seq<byte>)
    ensures data == [] ==> Pieces(fd, data, 0) == []
  {}

  lemma Written(fd: Fd, data: seq<byte>, before: seq<Emit>, after: seq<Emit>)
    requires after == before + Pieces(fd, data, 0)
    ensures OnFd(after, fd) == OnFd(before, fd) + Crlf(data)
  {
    OnFdConcat(before, Pieces(fd, data, 0), fd);
    PiecesAreCrlf(fd, data, 0);
  }
}
