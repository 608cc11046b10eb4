/** The argument splitter of the LCDproc server (src/filter_lcdproc.cpp): arguments are separated by single
    characters and may be quoted with "...", '...' or {...}. */
module LcdprocArgs {

  import opened Options

  // ---------- the splitter as a function of the text that is left ----------

  /** What ends an argument that starts with `c`, if `c` is a quote. */
  function Closer(c: char): Option<char> {
    if c == '\"' then Some('\"') else if c == '\'' then Some('\'') else if c == '{' then Some('}') else None
  }

  /** Index of the first `c` in `s`, or the length of `s`. */
  function Find(s: string, c: char): (n: nat)
    ensures n <= |s| && (n < |s| ==> s[n] == c)
    ensures forall k :: 0 <= k < n ==> s[k] != c
  {
    if s == [] || s[0] == c then 0 else 1 + Find(s[1..], c)
  }

  function Drop(s: string, n: nat): string { if n >= |s| then [] else s[n..] }

  /** The first argument, what is left after it, and whether its quote, if any, is closed. The character
      after a closing quote is skipped unseen. */
  function Head(s: string): (r: (string, string, bool))
    requires s != []
    ensures |r.1| < |s|
  {
    match Closer(s[0])
    case Some(q) =>
      var n := Find(s[1..], q);
      if n == |s| - 1 then (s[1..], [], false) else (s[1..n + 1], Drop(s, n + 3), true)
    case None =>
      var n := Find(s, ' '); (s[..n], Drop(s, n + 1), true)
  }

  /** The arguments, and whether every quote is closed. */
  function Split(s: string): (seq<string>, bool)
    decreases |s|
  {
    if s == [] then ([], true)
    else
      var (token, rest, closed) := Head(s);
      var (args, ok) := Split(rest);
      ([token] + args, closed && ok)
  }

  lemma FindUnique(s: string, c: char, n: nat)
    requires n <= |s| && (n < |s| ==> s[n] == c) && forall k :: 0 <= k < n ==> s[k] != c
    ensures Find(s, c) == n
  {
  }

  /** `split_in_args`. */
  method SplitInArgs(command: string) returns (qargs: seq<string>, ok: bool)
    ensures (qargs, ok) == Split(command)
  {
    hide Head, Split, Find, Drop, SoFar;
    qargs := [];
    var len := |command|;
    var qot, sqot, cb := false, false, false;
    var arglen := 0;
    var i := 0;
    StartsWhole(command);
    while i < len
      invariant 0 <= i
      invariant qot || sqot || cb ==> i >= len
      invariant SoFar(command, qargs, i, !(qot || sqot || cb))
      decreases len - i
    {
      var start := i;
      ghost var p := i;
      if command[i] == '\"' {
        qot := true;
      } else if command[i] == '\'' {
        sqot := true;
      } else if command[i] == '{' {
        cb := true;
      }
      if qot {
        QuotedOnce(command, p, '\"');
        i, start := i + 1, start + 1;
        i := ScanTo(command, i, '\"');
        if i < len {
          qot := false;
        }
        arglen := i - start;
        i := i + 1;
      } else if sqot {
        QuotedOnce(command, p, '\'');
        i, start := i + 1, start + 1;
        i := ScanTo(command, i, '\'');
        if i < len {
          sqot := false;
        }
        arglen := i - start;
        i := i + 1;
      } else if cb {
        QuotedOnce(command, p, '}');
        i, start := i + 1, start + 1;
        i := ScanTo(command, i, '}');
        if i < len {
          cb := false;
        }
        arglen := i - start;
        i := i + 1;
      } else {
        BareOnce(command, p);
        i := ScanTo(command, i, ' ');
        arglen := i - start;
      }
      i := i + 1;
      SoFarNext(command, qargs, p, i);
      qargs := qargs + [command[start..start + arglen]];
    }
    SoFarEnds(command, qargs, i, !(qot || sqot || cb));
    ok := !(qot || sqot || cb);
  }

  /** Having collected `qargs`, with index `i` next; `closed` unless an open quote has been met. */
  ghost predicate SoFar(command: string, qargs: seq<string>, i: nat, closed: bool) {
    var (rest, ok) := Split(Drop(command, i));
    Split(command) == (qargs + rest, ok && closed)
  }

  lemma StartsWhole(command: string)
    ensures SoFar(command, [], 0, true)
  {
    assert Drop(command, 0) == command;
    assert [] + Split(command).0 == Split(command).0;
  }

  lemma SoFarNext(command: string, qargs: seq<string>, i: nat, next: nat)
    requires i < |command| && SoFar(command, qargs, i, true)
    requires Head(command[i..]).1 == Drop(command, next)
    ensures SoFar(command, qargs + [Head(command[i..]).0], next, Head(command[i..]).2)
  {
    hide Head;
    var (token, rest, closed) := Head(command[i..]);
    var args := Split(rest).0;
    assert qargs + ([token] + args) == qargs + [token] + args;
  }

  lemma SoFarEnds(command: string, qargs: seq<string>, i: nat, closed: bool)
    requires |command| <= i && SoFar(command, qargs, i, closed)
    ensures Split(command) == (qargs, closed)
  {
    assert qargs + [] == qargs;
  }

  /** The inner scanning loops. */
  method ScanTo(command: string, from: nat, c: char) returns (i: nat)
    requires from <= |command|
    ensures i == from + Find(command[from..], c) <= |command|
  {
    i := from;
    while i < |command| && command[i] != c
      invariant from <= i <= |command|
      invariant forall k :: from <= k < i ==> command[k] != c
    {
      i := i + 1;
    }
    FindUnique(command[from..], c, i - from);
  }

  lemma QuotedOnce(command: string, p: nat, q: char)
    requires p < |command| && Closer(command[p]) == Some(q)
    ensures var n := Find(command[p + 1..], q);
            p + 1 + n <= |command| &&
            Head(command[p..]) == (command[p + 1..p + 1 + n], Drop(command, p + n + 3), p + 1 + n < |command|)
  {
    hide Find;
    var left := command[p..];
    var n := Find(command[p + 1..], q);
    assert left[1..] == command[p + 1..];
    if p + 1 + n == |command| {
      assert command[p + 1..p + 1 + n] == command[p + 1..];
    } else {
      assert left[1..n + 1] == command[p + 1..p + 1 + n];
      assert Drop(left, n + 3) == Drop(command, p + n + 3);
    }
  }

  lemma BareOnce(command: string, p: nat)
    requires p < |command| && Closer(command[p]) == None
    ensures var n := Find(command[p..], ' ');
            p + n <= |command| && Head(command[p..]) == (command[p..p + n], Drop(command, p + n + 1), true)
  {
    hide Find;
    var left := command[p..];
    var n := Find(left, ' ');
    assert left[..n] == command[p..p + n];
    assert Drop(left, n + 1) == Drop(command, p + n + 1);
  }

  // ---------- rendering and splitting ----------

  datatype Arg = Bare(s: string) | Double(s: string) | Single(s: string) | Braced(s: string)

  predicate Renderable(a: Arg) {
    match a
    case Bare(s) => s != [] && ' ' !in s && Closer(s[0]).None?
    case Double(s) => '\"' !in s
    case Single(s) => '\'' !in s
    case Braced(s) => '}' !in s
  }

  function Text(a: Arg): string {
    match a
    case Bare(s) => s
    case Double(s) => ['\"'] + s + ['\"']
    case Single(s) => ['\''] + s + ['\'']
    case Braced(s) => ['{'] + s + ['}']
  }

  /** The arguments joined by single spaces, then `tail`. */
  function Render(args: seq<Arg>, tail: string): string {
    if args == [] then tail
    else if |args| == 1 && tail == [] then Text(args[0])
    else Text(args[0]) + [' '] + Render(args[1..], tail)
  }

  function Contents(args: seq<Arg>): seq<string> {
    seq(|args|, i requires 0 <= i < |args| => args[i].s)
  }

  lemma FindAt(a: string, c: char, b: string)
    requires c !in a
    ensures Find(a + [c] + b, c) == |a|
  {
    FindUnique(a + [c] + b, c, |a|);
  }

  lemma QuotedHead(open: char, s: string, q: char, after: string)
    requires Closer(open) == Some(q) && q !in s
    ensures Head([open] + s + [q] + after) == (s, Drop(after, 1), true)
  {
    var all := [open] + s + [q] + after;
    assert all[1..] == s + [q] + after;
    FindAt(s, q, after);
    assert all[1..|s| + 1] == s;
    assert Drop(all, |s| + 3) == Drop(after, 1);
  }

  lemma BareHead(s: string, after: string)
    requires Renderable(Bare(s)) && (after == [] || after[0] == ' ')
    ensures Head(s + after) == (s, Drop(after, 1), true)
  {
    var all := s + after;
    FindUnique(all, ' ', |s|);
    assert all[..|s|] == s;
    assert Drop(all, |s| + 1) == Drop(after, 1);
  }

  /** The splitter takes one rendered argument, and the separator after it, off the front. */
  lemma HeadOfText(a: Arg, after: string)
    requires Renderable(a) && (after == [] || after[0] == ' ')
    ensures Head(Text(a) + after) == (a.s, Drop(after, 1), true)
  {
    match a
    case Bare(s) => BareHead(s, after);
    case Double(s) => QuotedHead('\"', s, '\"', after);
    case Single(s) => QuotedHead('\'', s, '\'', after);
    case Braced(s) => QuotedHead('{', s, '}', after);
  }

  lemma HeadOfRendered(args: seq<Arg>, tail: string)
    requires args != [] && Renderable(args[0])
    ensures Render(args, tail) != [] && Head(Render(args, tail)) == (args[0].s, Render(args[1..], tail), true)
  {
    hide Head, Renderable, Text;
    var rest := args[1..];
    var last := |args| == 1 && tail == [];
    var after := if last then [] else [' '] + Render(rest, tail);
    HeadOfText(args[0], after);
    NonEmptyText(args[0]);
    assert last ==> Text(args[0]) + after == Text(args[0]);
    assert !last ==> Text(args[0]) + after == Text(args[0]) + [' '] + Render(rest, tail);
    assert last ==> rest == [];
    assert !last ==> Drop(after, 1) == Render(rest, tail);
  }

  lemma NonEmptyText(a: Arg)
    requires Renderable(a)
    ensures Text(a) != []
  {
  }

  /** Splitting undoes rendering, whatever follows the rendered arguments. */
  lemma {:induction false} SplitRendered(args: seq<Arg>, tail: string)
    requires forall a :: a in args ==> Renderable(a)
    ensures Split(Render(args, tail)) == (Contents(args) + Split(tail).0, Split(tail).1)
  {
    hide Head, Split, Renderable;
    if args == [] {
      assert Contents(args) + Split(tail).0 == Split(tail).0;
    } else {
      hide Render, Contents;
      var rest := args[1..];
      HeadOfRendered(args, tail);
      ContentsCons(args);
      SplitCons(Render(args, tail), args[0].s, Render(rest, tail));
      SplitRendered(rest, tail);
      assert [args[0].s] + Contents(rest) + Split(tail).0 == [args[0].s] + (Contents(rest) + Split(tail).0);
    }
  }

  lemma ContentsCons(args: seq<Arg>)
    requires args != []
    ensures Contents(args) == [args[0].s] + Contents(args[1..])
  {
  }

  lemma SplitCons(s: string, token: string, rest: string)
    requires s != [] && Head(s) == (token, rest, true)
    ensures Split(s) == ([token] + Split(rest).0, Split(rest).1)
  {
  }

  /** A rendered argument list comes back as it was. */
  lemma RoundTrip(args: seq<Arg>)
    requires forall a :: a in args ==> Renderable(a)
    ensures Split(Render(args, [])) == (Contents(args), true)
  {
    SplitRendered(args, []);
    assert Contents(args) + [] == Contents(args);
  }

  /** A quote that is opened and never closed makes the splitter report failure. */
  lemma UnterminatedQuote(args: seq<Arg>, open: char, text: string)
    requires forall a :: a in args ==> Renderable(a)
    requires Closer(open).Some? && Closer(open).value !in text
    ensures Split(Render(args, [open] + text)) == (Contents(args) + [text], false)
  {
    var tail := [open] + text;
    SplitRendered(args, tail);
    assert tail[1..] == text;
    FindUnique(text, Closer(open).value, |text|);
    assert Head(tail) == (text, [], false);
    assert Split([]) == ([], true) && [text] + [] == [text];
  }

  // ---------- exactly the argument lists that can be sent ----------

  predicate Expressible(t: string) {
    Renderable(Bare(t)) || Renderable(Double(t)) || Renderable(Single(t)) || Renderable(Braced(t))
  }

  function Quoting(t: string): (a: Arg)
    requires Expressible(t)
    ensures Renderable(a) && a.s == t
  {
    if Renderable(Bare(t)) then Bare(t) else if Renderable(Double(t)) then Double(t)
    else if Renderable(Single(t)) then Single(t) else Braced(t)
  }

  /** Whatever is split without failure consists of expressible arguments. */
  lemma {:induction false} SplitIsExpressible(s: string)
    requires Split(s).1
    ensures forall t :: t in Split(s).0 ==> Expressible(t)
    decreases |s|
  {
    if s != [] {
      hide Head, Expressible;
      SplitIsExpressible(Head(s).1);
      HeadIsExpressible(s);
    }
  }

  lemma HeadIsExpressible(s: string)
    requires s != [] && Head(s).2
    ensures Expressible(Head(s).0)
  {
    match Closer(s[0])
    case Some(q) =>
      var n := Find(s[1..], q);
      assert s[1..n + 1] == s[1..][..n];
    case None =>
      var n := Find(s, ' ');
      assert s[..n] == [] || s[..n][0] == s[0];
  }

  lemma ExpressibleExactly(args: seq<string>)
    ensures (exists s :: Split(s) == (args, true)) <==> forall t :: t in args ==> Expressible(t)
  {
    if forall t :: t in args ==> Expressible(t) {
      var quoted := seq(|args|, i requires 0 <= i < |args| => Quoting(args[i]));
      RoundTrip(quoted);
      assert Contents(quoted) == args;
    }
    forall s | Split(s) == (args, true)
      ensures forall t :: t in args ==> Expressible(t)
    {
      SplitIsExpressible(s);
    }
  }
}
