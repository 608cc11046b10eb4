/** Line framing in the LCDproc server (src/filter_lcdproc.cpp): reads are collected in a 4096-byte buffer,
    complete lines are executed and moved out of it, and a rejected command is left in place. */
module LcdprocFraming {

  import opened Pixels

  type Line = seq<Byte>

  const LF: Byte := 10
  const NUL: Byte := 0
  const SIZE := 4096

  /** How a command ends: accepted, refused, or with an exception, which is logged and otherwise ignored. */
  datatype Verdict = Accepted | Rejected | Thrown

  /** The command interpreter: any function of the commands so far and the new one. */
  type Handler = (seq<Line>, Line) -> Verdict

  // ---------- what the loop over the buffered lines does ----------

  /** The bytes before the first line feed or NUL. */
  function Scan(p: seq<Byte>): (n: nat)
    ensures n <= |p| && forall k :: 0 <= k < n ==> p[k] != LF && p[k] != NUL
    ensures n < |p| ==> p[n] == LF || p[n] == NUL
  {
    if p == [] || p[0] == LF || p[0] == NUL then 0 else 1 + Scan(p[1..])
  }

  predicate HasLine(p: seq<Byte>) { Scan(p) < |p| && p[Scan(p)] == LF }

  /** The commands executed and the bytes still in the buffer. */
  datatype Session = Session(history: seq<Line>, pending: seq<Byte>)

  function Drain(h: Handler, s: Session): Session
    decreases |s.pending|
  {
    var (p, n) := (s.pending, Scan(s.pending));
    if !HasLine(p) then s
    else if h(s.history, p[..n]) == Rejected then Session(s.history + [p[..n]], p[n := NUL])
    else Drain(h, Session(s.history + [p[..n]], p[n + 1..]))
  }

  /** The effect of one read. */
  function Feed(h: Handler, s: Session, chunk: seq<Byte>): Session {
    Drain(h, Session(s.history, s.pending + chunk))
  }

  function FeedAll(h: Handler, s: Session, chunks: seq<seq<Byte>>): Session
    decreases |chunks|
  {
    if chunks == [] then s else FeedAll(h, Feed(h, s, chunks[0]), chunks[1..])
  }

  function Concat(chunks: seq<seq<Byte>>): seq<Byte> {
    if chunks == [] then [] else chunks[0] + Concat(chunks[1..])
  }

  // ---------- how the stream is cut into reads does not matter ----------

  lemma {:induction false} ScanUnique(p: seq<Byte>, n: nat)
    requires n <= |p| && (forall k :: 0 <= k < n ==> p[k] != LF && p[k] != NUL)
    requires n < |p| ==> p[n] == LF || p[n] == NUL
    ensures Scan(p) == n
  {
  }

  /** Whatever is appended behind a line feed or NUL does not move it. */
  lemma ScanAppend(p: seq<Byte>, c: seq<Byte>)
    requires Scan(p) < |p|
    ensures Scan(p + c) == Scan(p) && (p + c)[Scan(p)] == p[Scan(p)]
  {
    ScanUnique(p + c, Scan(p));
  }

  lemma ScanBlocked(p: seq<Byte>)
    requires HasLine(p)
    ensures Scan(p[Scan(p) := NUL]) == Scan(p)
  {
    ScanUnique(p[Scan(p) := NUL], Scan(p));
  }

  /** Draining, reading more and draining again is the same as reading more and draining once: for every
      stream, with NUL bytes and rejected commands too. */
  lemma {:induction false} DrainAppend(h: Handler, s: Session, c: seq<Byte>)
    ensures Feed(h, Drain(h, s), c) == Feed(h, s, c)
    decreases |s.pending|
  {
    hide Scan;
    var p, n := s.pending, Scan(s.pending);
    if HasLine(p) {
      ScanAppend(p, c);
      assert (p + c)[..n] == p[..n];
      var history := s.history + [p[..n]];
      if h(s.history, p[..n]) == Rejected {
        ScanBlocked(p);
        ScanAppend(p[n := NUL], c);
        assert p[n := NUL] + c == (p + c)[n := NUL];
      } else {
        assert (p + c)[n + 1..] == p[n + 1..] + c;
        DrainAppend(h, Session(history, p[n + 1..]), c);
      }
    }
  }

  lemma NothingToDrain(h: Handler, s: Session)
    requires !HasLine(s.pending)
    ensures Drain(h, s) == s
  {
  }

  lemma DrainIdempotent(h: Handler, s: Session)
    ensures Drain(h, Drain(h, s)) == Drain(h, s)
  {
    DrainAppend(h, s, []);
    assert s.pending + [] == s.pending && Drain(h, s).pending + [] == Drain(h, s).pending;
  }

  /** However a byte stream is cut into reads, the same commands are executed and the same bytes stay behind. */
  lemma {:induction false} ChunkingIrrelevant(h: Handler, s: Session, chunks: seq<seq<Byte>>)
    requires Drain(h, s) == s
    ensures FeedAll(h, s, chunks) == Feed(h, s, Concat(chunks))
    decreases |chunks|
  {
    hide Drain, Feed;
    if chunks == [] {
      FeedNothing(h, s);
    } else {
      var s1 := Feed(h, s, chunks[0]);
      FeedStays(h, s, chunks[0]);
      ChunkingIrrelevant(h, s1, chunks[1..]);
      FeedFeed(h, s, chunks[0], Concat(chunks[1..]));
    }
  }

  lemma FeedNothing(h: Handler, s: Session)
    requires Drain(h, s) == s
    ensures Feed(h, s, []) == s
  {
    assert s.pending + [] == s.pending;
  }

  lemma FeedStays(h: Handler, s: Session, c: seq<Byte>)
    ensures Drain(h, Feed(h, s, c)) == Feed(h, s, c)
  {
    hide Drain;
    DrainIdempotent(h, Session(s.history, s.pending + c));
  }

  lemma FeedFeed(h: Handler, s: Session, a: seq<Byte>, b: seq<Byte>)
    ensures Feed(h, Feed(h, s, a), b) == Feed(h, s, a + b)
  {
    hide Drain;
    DrainAppend(h, Session(s.history, s.pending + a), b);
    assert s.pending + a + b == s.pending + (a + b);
  }

  // ---------- the commands are the lines of the stream ----------

  /** Index of the first line feed, or the length. */
  function FindLF(p: seq<Byte>): (n: nat)
    ensures n <= |p| && (n < |p| ==> p[n] == LF) && forall k :: 0 <= k < n ==> p[k] != LF
  {
    if p == [] || p[0] == LF then 0 else 1 + FindLF(p[1..])
  }

  /** The newline-terminated lines of a stream, and what follows the last newline. */
  function Lines(p: seq<Byte>): (seq<Line>, seq<Byte>)
    decreases |p|
  {
    var n := FindLF(p);
    if n == |p| then ([], p) else var (lines, rest) := Lines(p[n + 1..]); ([p[..n]] + lines, rest)
  }

  /** How many of the lines are executed: up to and including the first rejected one. */
  function Taken(h: Handler, history: seq<Line>, lines: seq<Line>): (k: nat)
    ensures k <= |lines|
    decreases |lines|
  {
    if lines == [] then 0
    else if h(history, lines[0]) == Rejected then 1
    else 1 + Taken(h, history + [lines[0]], lines[1..])
  }

  predicate Refuses(h: Handler, history: seq<Line>, lines: seq<Line>)
    decreases |lines|
  {
    lines != [] && (h(history, lines[0]) == Rejected || Refuses(h, history + [lines[0]], lines[1..]))
  }

  predicate NulFree(p: seq<Byte>) { NUL !in p }

  lemma ScanIsFindLF(p: seq<Byte>)
    requires NulFree(p)
    ensures Scan(p) == FindLF(p) && (HasLine(p) <==> FindLF(p) < |p|)
  {
    ScanUnique(p, FindLF(p));
  }

  /** For a stream without NUL bytes the commands executed are its lines, in order, up to and including the
      first one that is rejected; if none is, what stays behind is the unfinished last line. */
  lemma {:induction false} CommandsAreLines(h: Handler, history: seq<Line>, p: seq<Byte>)
    requires NulFree(p)
    ensures var (lines, rest) := Lines(p);
            var s := Drain(h, Session(history, p));
            && s.history == history + lines[..Taken(h, history, lines)]
            && (!Refuses(h, history, lines) ==> Taken(h, history, lines) == |lines| && s.pending == rest)
            && (Refuses(h, history, lines) ==> Blocked(s.pending))
    decreases |p|
  {
    hide Scan, FindLF, HasLine, Drain, Lines;
    var n := FindLF(p);
    ScanIsFindLF(p);
    if n < |p| {
      var line, rest := p[..n], p[n + 1..];
      LinesStep(p);
      DrainStep(h, Session(history, p));
      if h(history, line) == Rejected {
        ScanBlocked(p);
        FirstRejected(h, history, Lines(p).0);
      } else {
        CommandsAreLines(h, history + [line], rest);
        FirstTaken(h, history, line, Lines(rest).0);
      }
    } else {
      LinesEnd(h, history, p);
    }
  }

  lemma LinesStep(p: seq<Byte>)
    requires FindLF(p) < |p|
    ensures var n := FindLF(p); Lines(p) == ([p[..n]] + Lines(p[n + 1..]).0, Lines(p[n + 1..]).1)
  {
    hide FindLF;
    var n := FindLF(p);
    var rest := Lines(p[n + 1..]);
  }

  lemma NoLines(p: seq<Byte>)
    requires FindLF(p) == |p|
    ensures Lines(p) == ([], p) && LF !in p
  {
    hide FindLF;
  }

  lemma LinesEnd(h: Handler, history: seq<Line>, p: seq<Byte>)
    requires FindLF(p) == |p| && !HasLine(p)
    ensures Lines(p) == ([], p) && Drain(h, Session(history, p)) == Session(history, p)
    ensures history + [][..Taken(h, history, [])] == history
  {
  }

  lemma DrainStep(h: Handler, s: Session)
    requires HasLine(s.pending)
    ensures var (p, n) := (s.pending, Scan(s.pending));
            Drain(h, s) == if h(s.history, p[..n]) == Rejected then Session(s.history + [p[..n]], p[n := NUL])
                           else Drain(h, Session(s.history + [p[..n]], p[n + 1..]))
  {
  }

  lemma FirstRejected(h: Handler, history: seq<Line>, lines: seq<Line>)
    requires lines != [] && h(history, lines[0]) == Rejected
    ensures history + lines[..Taken(h, history, lines)] == history + [lines[0]] && Refuses(h, history, lines)
  {
  }

  lemma FirstTaken(h: Handler, history: seq<Line>, line: Line, lines: seq<Line>)
    requires h(history, line) != Rejected
    ensures Taken(h, history, [line] + lines) == 1 + Taken(h, history + [line], lines)
    ensures Refuses(h, history, [line] + lines) == Refuses(h, history + [line], lines)
    ensures var k := Taken(h, history + [line], lines);
            history + ([line] + lines)[..k + 1] == history + [line] + lines[..k]
  {
    assert ([line] + lines)[1..] == lines;
  }

  /** One command in an empty buffer: it is executed without its line feed and removed, also when it ends with
      an exception; rejected it stays, with a NUL in the place of the line feed. */
  lemma OneCommand(h: Handler, history: seq<Line>, line: Line)
    requires LF !in line && NulFree(line)
    ensures Feed(h, Session(history, []), line + [LF]) ==
            Session(history + [line],
                    match h(history, line) case Rejected => line + [NUL] case Accepted => [] case Thrown => [])
  {
    var p := line + [LF];
    assert [] + p == p;
    ScanUnique(p, |line|);
    assert p[..|line|] == line && p[|line| + 1..] == [] && p[|line| := NUL] == line + [NUL];
    DrainStep(h, Session(history, p));
  }

  /** A NUL before any line feed. */
  predicate Blocked(p: seq<Byte>) { Scan(p) < |p| && p[Scan(p)] == NUL }

  /** After a rejected command nothing is ever executed again, whatever the client sends. */
  lemma RejectionIsFinal(h: Handler, s: Session, c: seq<Byte>)
    requires Blocked(s.pending)
    ensures Feed(h, s, c) == Session(s.history, s.pending + c) && Blocked(Feed(h, s, c).pending)
  {
    ScanAppend(s.pending, c);
  }

  function Unlines(lines: seq<Line>): seq<Byte> {
    if lines == [] then [] else lines[0] + [LF] + Unlines(lines[1..])
  }

  /** No byte is lost: the lines with their newlines, and the rest, are the stream. */
  lemma {:induction false} LinesRestore(p: seq<Byte>)
    ensures Unlines(Lines(p).0) + Lines(p).1 == p
    ensures LF !in Lines(p).1 && forall l :: l in Lines(p).0 ==> LF !in l
    decreases |p|
  {
    hide FindLF, Lines;
    var n := FindLF(p);
    if n == |p| {
      NoLines(p);
      assert Unlines([]) + p == p;
    } else {
      var line, rest := p[..n], p[n + 1..];
      LinesStep(p);
      LinesRestore(rest);
      assert ([line] + Lines(rest).0)[1..] == Lines(rest).0;
      assert p == line + [LF] + rest;
      assert line + [LF] + Unlines(Lines(rest).0) + Lines(rest).1 ==
        line + [LF] + (Unlines(Lines(rest).0) + Lines(rest).1);
    }
  }

  /** How many lines are accepted before the first rejected one, if any. */
  function Processed(h: Handler, history: seq<Line>, lines: seq<Line>): (k: nat)
    ensures k <= |lines|
    decreases |lines|
  {
    if lines == [] || h(history, lines[0]) == Rejected then 0
    else 1 + Processed(h, history + [lines[0]], lines[1..])
  }

  /** The rejected command, if there is one, is executed and not removed. */
  lemma {:induction false} TakenOrRejected(h: Handler, history: seq<Line>, lines: seq<Line>)
    ensures Taken(h, history, lines) == Processed(h, history, lines) + if Refuses(h, history, lines) then 1 else 0
    decreases |lines|
  {
    if lines != [] && h(history, lines[0]) != Rejected {
      TakenOrRejected(h, history + [lines[0]], lines[1..]);
    }
  }

  /** The buffered bytes as they arrived: the NUL that marks a rejected command was a line feed. */
  function AsArrived(pending: seq<Byte>): seq<Byte> {
    if Blocked(pending) then pending[Scan(pending) := LF] else pending
  }

  /** No byte is lost with a rejected command either. */
  lemma {:induction false} NothingLost(h: Handler, history: seq<Line>, p: seq<Byte>)
    requires NulFree(p)
    ensures var lines := Lines(p).0;
            Unlines(lines[..Processed(h, history, lines)]) + AsArrived(Drain(h, Session(history, p)).pending) == p
    decreases |p|
  {
    hide Scan, FindLF, HasLine, Drain, Lines;
    var n := FindLF(p);
    ScanIsFindLF(p);
    if n < |p| {
      var line, rest := p[..n], p[n + 1..];
      LinesStep(p);
      DrainStep(h, Session(history, p));
      assert p == line + [LF] + rest;
      if h(history, line) == Rejected {
        ScanBlocked(p);
        assert AsArrived(p[n := NUL]) == p;
      } else {
        NothingLost(h, history + [line], rest);
        var lines, k := Lines(rest).0, Processed(h, history + [line], Lines(rest).0);
        assert ([line] + lines)[1..] == lines && ([line] + lines)[..k + 1] == [line] + lines[..k];
        assert ([line] + lines[..k])[1..] == lines[..k];
        var kept := AsArrived(Drain(h, Session(history + [line], rest)).pending);
        assert line + [LF] + Unlines(lines[..k]) + kept == line + [LF] + (Unlines(lines[..k]) + kept);
      }
    } else {
      LinesEnd(h, history, p);
    }
  }

  /** Putting it together: however a stream without NUL bytes is cut into reads, the commands executed are
      its lines, in order, up to and including the first rejected one, and the processed lines and the
      buffered bytes are the stream. */
  lemma AnyCutExecutesLines(h: Handler, chunks: seq<seq<Byte>>)
    requires NulFree(Concat(chunks))
    ensures var (lines, rest) := Lines(Concat(chunks));
            var s := FeedAll(h, Session([], []), chunks);
            var k := Processed(h, [], lines);
            && s.history == lines[..Taken(h, [], lines)]
            && Taken(h, [], lines) == k + (if Refuses(h, [], lines) then 1 else 0)
            && Unlines(s.history[..k]) + AsArrived(s.pending) == Concat(chunks)
            && (!Refuses(h, [], lines) ==>
              s.history == lines && s.pending == rest && Unlines(s.history) + s.pending == Concat(chunks))
  {
    hide Drain, Lines, Scan, FindLF, Refuses, AsArrived;
    var start, stream := Session([], []), Concat(chunks);
    var lines := Lines(stream).0;
    ChunkingIrrelevant(h, start, chunks) by {
      NothingToDrain(h, start);
    }
    assert [] + stream == stream;
    CommandsAreLines(h, [], stream);
    LinesRestore(stream);
    TakenOrRejected(h, [], lines);
    NothingLost(h, [], stream);
    assert [] + lines[..Taken(h, [], lines)] == lines[..Taken(h, [], lines)];
    assert lines[..Taken(h, [], lines)][..Processed(h, [], lines)] == lines[..Processed(h, [], lines)];
  }

  // ---------- when the buffer has room ----------

  /** One more byte ends the unfinished line or extends it. */
  lemma {:induction false} LinesSnoc(p: seq<Byte>, b: Byte)
    ensures Lines(p + [b]) == if b == LF then (Lines(p).0 + [Lines(p).1], []) else (Lines(p).0, Lines(p).1 + [b])
    decreases |p|
  {
    hide FindLF, Lines;
    var n := FindLF(p);
    if n == |p| {
      NoLines(p);
      NoLines([]);
      FindLFUnique(p + [b], if b == LF then |p| else |p| + 1);
      if b == LF {
        LinesStep(p + [b]);
        assert (p + [b])[..|p|] == p && (p + [b])[|p| + 1..] == [];
        assert [p] + Lines([]).0 == [p] == Lines(p).0 + [p];
      } else {
        NoLines(p + [b]);
      }
    } else {
      FindLFUnique(p + [b], n);
      LinesStep(p);
      LinesStep(p + [b]);
      assert (p + [b])[..n] == p[..n] && (p + [b])[n + 1..] == p[n + 1..] + [b];
      LinesSnoc(p[n + 1..], b);
      var (lines, rest) := Lines(p[n + 1..]);
      assert [p[..n]] + lines + [rest] == [p[..n]] + (lines + [rest]);
    }
  }

  lemma {:induction false} FindLFUnique(p: seq<Byte>, n: nat)
    requires n <= |p| && (n < |p| ==> p[n] == LF) && forall k :: 0 <= k < n ==> p[k] != LF
    ensures FindLF(p) == n
  {
  }

  /** Every line, and the unfinished one, fits the buffer together with the byte after it. */
  predicate Short(lines: seq<Line>, rest: seq<Byte>) {
    |rest| < SIZE - 1 && forall l :: l in lines ==> |l| < SIZE - 1
  }

  /** The unfinished line is short at every byte of a stream exactly when all its lines and its end are. */
  lemma {:induction false} ShortAtEveryByte(p: seq<Byte>)
    ensures (forall k :: 0 <= k <= |p| ==> |Lines(p[..k]).1| < SIZE - 1) <==> Short(Lines(p).0, Lines(p).1)
    decreases |p|
  {
    hide Lines;
    if p == [] {
      NoLines(p);
    } else {
      var front, b := p[..|p| - 1], p[|p| - 1];
      assert p == front + [b];
      ShortAtEveryByte(front);
      LinesSnoc(front, b);
      assert forall k :: 0 <= k <= |front| ==> p[..k] == front[..k];
      assert p[..|p|] == p;
      assert p[..|front|] == front && front[..|front|] == front;
    }
  }

  lemma {:induction false} LinesOfPrefix(p: seq<Byte>, k: nat)
    requires k <= |p|
    ensures Lines(p[..k]).0 <= Lines(p).0
    decreases |p|
  {
    hide Lines;
    if k == |p| {
      assert p[..k] == p;
    } else {
      var front := p[..|p| - 1];
      assert p == front + [p[|p| - 1]] && front[..k] == p[..k];
      LinesOfPrefix(front, k);
      LinesSnoc(front, p[|p| - 1]);
    }
  }

  lemma {:induction false} RefusesLater(h: Handler, history: seq<Line>, a: seq<Line>, b: seq<Line>)
    requires Refuses(h, history, a) && a <= b
    ensures Refuses(h, history, b)
    decreases |a|
  {
    if h(history, a[0]) != Rejected {
      RefusesLater(h, history + [a[0]], a[1..], b[1..]);
    }
  }

  /** The buffer after a prefix of a stream that is not refused is its unfinished line. */
  lemma PendingIsUnfinished(h: Handler, p: seq<Byte>, k: nat)
    requires NulFree(p) && !Refuses(h, [], Lines(p).0) && k <= |p|
    ensures Feed(h, Session([], []), p[..k]).pending == Lines(p[..k]).1
  {
    hide Drain, Lines, Refuses;
    LinesOfPrefix(p, k);
    if Refuses(h, [], Lines(p[..k]).0) {
      RefusesLater(h, [], Lines(p[..k]).0, Lines(p).0);
    }
    CommandsAreLines(h, [], p[..k]);
    assert [] + p[..k] == p[..k];
  }

  /** For a stream without NUL that is not refused, the buffer has room for another byte at every moment if
      and only if every line, and what follows the last one, is shorter than the buffer less two bytes. */
  lemma RoomExactly(h: Handler, p: seq<Byte>)
    requires NulFree(p) && !Refuses(h, [], Lines(p).0)
    ensures (forall k :: 0 <= k <= |p| ==> |Feed(h, Session([], []), p[..k]).pending| < SIZE - 1) <==>
            Short(Lines(p).0, Lines(p).1)
  {
    hide Feed, Lines, Refuses;
    ShortAtEveryByte(p);
    forall k | 0 <= k <= |p|
      ensures Feed(h, Session([], []), p[..k]).pending == Lines(p[..k]).1
    {
      PendingIsUnfinished(h, p, k);
    }
  }

  lemma {:induction false} UnfinishedGrows(p: seq<Byte>, k: nat, n: nat)
    requires k + n <= |p|
    ensures |Lines(p[..k + n]).1| <= |Lines(p[..k]).1| + n
  {
    hide Lines;
    if n > 0 {
      UnfinishedGrows(p, k, n - 1);
      assert p[..k + n] == p[..k + n - 1] + [p[k + n - 1]];
      LinesSnoc(p[..k + n - 1], p[k + n - 1]);
    }
  }

  // ---------- the buffer ----------

  function Least(a: nat, b: nat): nat { if a <= b then a else b }

  class Connection {
    const handler: Handler
    const buffer: array<Byte>
    var o: nat
    var history: seq<Line>

    ghost predicate Valid()
      reads this
    {
      buffer.Length == SIZE && o < SIZE
    }

    ghost function Now(): Session
      requires Valid()
      reads this, buffer
    {
      Session(history, buffer[..o])
    }

    constructor (handler: Handler)
      ensures Valid() && fresh(buffer) && Now() == Session([], []) && this.handler == handler
    {
      this.handler := handler;
      buffer := new Byte[SIZE];
      o := 0;
      history := [];
    }

    /** `strchr(buffer, '\n')`, or -1. */
    method FindLine() returns (lf: int)
      requires Valid() && buffer[o] == NUL
      ensures if HasLine(buffer[..o]) then lf == Scan(buffer[..o]) else lf == -1
    {
      var i := 0;
      while buffer[i] != LF && buffer[i] != NUL
        invariant 0 <= i <= o
        invariant forall k :: 0 <= k < i ==> buffer[k] != LF && buffer[k] != NUL
        decreases o - i
      {
        i := i + 1;
      }
      ScanUnique(buffer[..o], i);
      lf := if buffer[i] == LF then i else -1;
    }

    /** One turn of the connection loop. `chunk` is what `read` returned, nothing at end of file or on error. */
    method Poll(chunk: seq<Byte>) returns (open: bool)
      requires Valid() && |chunk| <= SIZE - 1 - o
      modifies this, buffer
      ensures Valid()
      ensures open <==> chunk != []
      ensures Now() == if open then Feed(handler, old(Now()), chunk) else old(Now())
    {
      if o == SIZE {
        return false;
      }
      var n := |chunk|;
      if n <= 0 {
        return false;
      }
      forall k | 0 <= k < n {
        buffer[o + k] := chunk[k];
      }
      buffer[o + n] := NUL;
      o := o + n;
      assert buffer[..o] == old(buffer[..o]) + chunk;
      ExecuteLines();
      open := true;
    }

    /** The connection loop for a client that sends `stream`. The k-th read could return up to
        `offers[k]` of the bytes not yet taken, and returns as many of them as fit. */
    method Serve(stream: seq<Byte>, offers: seq<nat>) returns (open: bool, taken: nat)
      requires Valid() && Now() == Session([], []) && forall k :: 0 <= k < |offers| ==> offers[k] > 0
      modifies this, buffer
      ensures Valid() && taken <= |stream|
      ensures Now() == Feed(handler, Session([], []), stream[..taken])
      ensures !open ==> |Now().pending| == SIZE - 1 && taken < |stream|
      ensures NulFree(stream) && !Refuses(handler, [], Lines(stream).0) && |offers| >= |stream| ==>
                (taken == |stream| && |Now().pending| < SIZE - 1 <==> Short(Lines(stream).0, Lines(stream).1))
    {
      hide Feed, Lines, Refuses, NulFree;
      ghost var start := Session([], []);
      ghost var plain := NulFree(stream) && !Refuses(handler, [], Lines(stream).0);
      open, taken := true, 0;
      var k := 0;
      FeedNothing(handler, start) by {
        NothingToDrain(handler, start);
      }
      assert stream[..0] == [];
      while open && k < |offers| && taken < |stream|
        invariant 0 <= k <= |offers| && taken <= |stream| && Valid()
        invariant Now() == Feed(handler, start, stream[..taken])
        invariant open ==> k <= taken
        invariant !open ==> |Now().pending| == SIZE - 1 && taken < |stream|
        invariant plain ==> forall j :: 0 <= j < taken ==> |Lines(stream[..j]).1| < SIZE - 1
        decreases open, |offers| - k
      {
        var n := Least(offers[k], Least(SIZE - 1 - o, |stream| - taken));
        ghost var before := |Now().pending|;
        open := Poll(stream[taken..taken + n]);
        if open {
          assert stream[..taken + n] == stream[..taken] + stream[taken..taken + n];
          FeedFeed(handler, start, stream[..taken], stream[taken..taken + n]);
        }
        if plain {
          PendingIsUnfinished(handler, stream, taken);
          forall j | taken <= j < taken + n
            ensures |Lines(stream[..j]).1| < SIZE - 1
          {
            UnfinishedGrows(stream, taken, j - taken);
          }
        }
        taken := taken + n;
        k := k + 1;
      }
      if plain && |offers| >= |stream| {
        PendingIsUnfinished(handler, stream, taken);
        ShortAtEveryByte(stream);
      }
    }

    /** The inner loop. */
    method ExecuteLines()
      requires Valid() && buffer[o] == NUL
      modifies this, buffer
      ensures Valid() && Now() == Drain(handler, old(Now()))
    {
      hide Drain, Scan;
      while true
        invariant Valid() && buffer[o] == NUL
        invariant Drain(handler, Now()) == Drain(handler, old(Now()))
        decreases o
      {
        var lf := FindLine();
        if lf == -1 {
          NothingToDrain(handler, Now());
          break;
        }
        ghost var p := buffer[..o];
        DrainStep(handler, Now());
        buffer[lf] := NUL;
        var command := buffer[..lf];
        assert command == p[..lf];
        var verdict := handler(history, command);
        history := history + [command];
        if verdict == Rejected {
          assert buffer[..o] == p[lf := NUL];
          ScanBlocked(p);
          NothingToDrain(handler, Now());
          break;
        }
        var bytesLeft := o - (lf + 1);
        if bytesLeft == 0 {
          o := 0;
          assert buffer[..o] == p[lf + 1..];
          NothingToDrain(handler, Now());
          break;
        }
        MoveDown(lf + 1, bytesLeft);
        o := bytesLeft;
        buffer[o] := NUL;
        assert buffer[..o] == p[lf + 1..];
      }
    }

    /** `memmove(buffer, buffer + from, n)`. */
    method MoveDown(from: nat, n: nat)
      requires buffer.Length == SIZE && 0 < from && from + n <= SIZE
      modifies buffer
      ensures forall k :: 0 <= k < n ==> buffer[k] == old(buffer[from + k])
    {
      var i := 0;
      while i < n
        invariant 0 <= i <= n
        invariant forall k :: 0 <= k < i ==> buffer[k] == old(buffer[from + k])
        invariant forall k :: i <= k < SIZE ==> buffer[k] == old(buffer[k])
      {
        buffer[i] := buffer[from + i];
        i := i + 1;
      }
    }
  }
}
