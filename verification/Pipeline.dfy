/** The pipeline builder of shell/src/core/module/common/pipe.c: one child per segment of the
    argument vector, with the pipes between them wired through descriptor tables.
 */
module Pipeline {
  import opened Numbers
  import opened Redirection

  /** What an open descriptor refers to: something from before the pipeline, or an end of the pipe
      made after child `k`. */
  datatype End = Original(id: nat) | ReadEnd(k: nat) | WriteEnd(k: nat)

  type Descriptors = map<nat, End>

  const STDIN: nat := 0
  const STDOUT: nat := 1
  const BAR: string := "|"

  /** A forked child: the arguments and descriptors it starts with, and what it executes after its
      redirections. In `streams`, Inherited is the end that `table` has for the stream. */
  datatype Child = Child(segment: seq<string>, table: Descriptors,
                         args: seq<string>, streams: Streams, granted: seq<bool>)

  function Dup2(t: Descriptors, from: nat, to: nat): Descriptors
    requires from in t
  {
    t[to := t[from]]
  }

  function Close(t: Descriptors, fd: nat): Descriptors {
    t - {fd}
  }

  // ---------------------------------------------------------------- segments

  /** The argument lists between the bars; there is always at least one, possibly empty. */
  function Segments(args: seq<string>): (r: seq<seq<string>>)
    ensures |r| >= 1
  {
    if args == [] then [[]]
    else
      var rest := Segments(args[1..]);
      if args[0] == BAR then [[]] + rest else [[args[0]] + rest[0]] + rest[1..]
  }

  function Unsplit(segments: seq<seq<string>>): seq<string>
    requires |segments| >= 1
  {
    if |segments| == 1 then segments[0] else segments[0] + [BAR] + Unsplit(segments[1..])
  }

  /** The segments are free of bars, and putting the bars back between them gives the arguments. */
  lemma {:induction false} SegmentsUnsplit(args: seq<string>)
    ensures Unsplit(Segments(args)) == args
    ensures forall k :: 0 <= k < |Segments(args)| ==> "|" !in Segments(args)[k]
  {
    if args != [] {
      SegmentsUnsplit(args[1..]);
      var rest := Segments(args[1..]);
      var all := Segments(args);
      if args[0] == BAR {
        assert all[1..] == rest;
      } else {
        assert all[1..] == rest[1..];
        if |rest| > 1 {
          var more := Unsplit(rest[1..]);
          assert ([args[0]] + rest[0]) + [BAR] + more == [args[0]] + (rest[0] + [BAR] + more);
        }
      }
    }
  }

  /** The first segment ends at the first bar. */
  lemma {:induction false} SegmentsCut(args: seq<string>, i: nat)
    requires i <= |args| && BAR !in args[..i] && (i < |args| ==> args[i] == BAR)
    ensures Segments(args) == [args[..i]] + if i < |args| then Segments(args[i + 1..]) else []
    decreases i
  {
    if i > 0 {
      assert args[..i][0] == args[0];
      assert args[1..][..i - 1] == args[..i][1..];
      SegmentsCut(args[1..], i - 1);
      assert [args[0]] + args[1..][..i - 1] == args[..i];
      if i < |args| { assert args[1..][i - 1 + 1..] == args[i + 1..]; }
    }
  }

  // ---------------------------------------------------------------- wiring

  /** The table of child `k` of `n`: standard input from the pipe before it, standard output to the
      pipe after it, and otherwise just what the shell had open. */
  function Wired(table: Descriptors, k: nat, n: nat): Descriptors
    requires STDIN in table && STDOUT in table
  {
    table[STDIN := if k > 0 then ReadEnd(k - 1) else table[STDIN]]
         [STDOUT := if k + 1 < n then WriteEnd(k) else table[STDOUT]]
  }

  /** If the shell had no pipe end open, then of `n` children the write end of pipe `j` is held by
      child `j` alone and its read end by child `j + 1` alone, each once and as a standard stream. */
  lemma EachEndHeldOnce(table: Descriptors, n: nat, j: nat, k: nat, fd: nat)
    requires STDIN in table && STDOUT in table && (forall x :: x in table ==> table[x].Original?)
    requires k < n && fd in Wired(table, k, n)
    ensures Wired(table, k, n)[fd] == WriteEnd(j) <==> k == j && j + 1 < n && fd == STDOUT
    ensures Wired(table, k, n)[fd] == ReadEnd(j) <==> k == j + 1 && fd == STDIN
    ensures Wired(table, k, n).Keys == table.Keys
  {
    assert Wired(table, k, n).Keys == table.Keys;
  }

  /** Table `t` of child `k` of `n`, descriptor by descriptor: nothing is opened or closed; the first child
      reads and the last one writes where the shell does, the pipes join the others, and every other
      descriptor is as it was. */
  ghost predicate WiredTo(t: Descriptors, table: Descriptors, k: nat, n: nat)
    requires STDIN in table && STDOUT in table
  {
    && t.Keys == table.Keys
    && t[STDIN] == (if k == 0 then table[STDIN] else ReadEnd(k - 1))
    && t[STDOUT] == (if k == n - 1 then table[STDOUT] else WriteEnd(k))
    && forall fd :: fd in table && fd != STDIN && fd != STDOUT ==> t[fd] == table[fd]
  }

  lemma OuterEndsKept(table: Descriptors, k: nat, n: nat)
    requires STDIN in table && STDOUT in table && k < n
    ensures WiredTo(Wired(table, k, n), table, k, n)
  {
    assert Wired(table, k, n).Keys == table.Keys;
  }

  /** The parent's table while child `k` is next: the read end it still holds is at `prev`. */
  ghost predicate ParentHolds(t: Descriptors, table: Descriptors, k: nat, prev: int) {
    if k == 0 then prev == -1 && t == table
    else prev >= 0 && prev !in table && t == table[prev as nat := ReadEnd(k - 1)]
  }

  /** What the child does to its copy of the parent's table. */
  method ChildSide(t: Descriptors, ghost table: Descriptors, ghost k: nat, ghost n: nat,
                   prev: int, hasNext: bool, r: nat, w: nat)
    returns (child: Descriptors)
    requires STDIN in table && STDOUT in table && k < n && (hasNext <==> k + 1 < n)
    requires hasNext ==> r != w && r !in table && w !in table && r != prev && w != prev
    requires exists u ::
               && ParentHolds(u, table, k, prev)
               && t == if hasNext then u[r := ReadEnd(k)][w := WriteEnd(k)] else u
    ensures child == Wired(table, k, n) && WiredTo(child, table, k, n)
  {
    child := t;
    if prev != -1 {
      child := Dup2(child, prev, STDIN);
      child := Close(child, prev);
    }
    if hasNext {
      child := Close(child, r);
      child := Dup2(child, w, STDOUT);
      child := Close(child, w);
    }
    assert child == Wired(table, k, n);
    OuterEndsKept(table, k, n);
  }

  /** pipe, fork and the descriptors on both sides, for child `k` of `n`. */
  method Fork(t: Descriptors, ghost table: Descriptors, k: nat, ghost n: nat, prev: int, hasNext: bool)
    returns (child: Descriptors, after: Descriptors, next: int)
    requires STDIN in table && STDOUT in table && k < n && (hasNext <==> k + 1 < n)
    requires ParentHolds(t, table, k, prev)
    ensures child == Wired(table, k, n) && WiredTo(child, table, k, n)
    ensures if hasNext then ParentHolds(after, table, k + 1, next) else after == table
  {
    after, next := t, prev;
    var r, w := 0, 0;
    if hasNext {
      r := Unused(t.Keys);
      w := Unused(t.Keys + {r});
      after := after[r := ReadEnd(k)][w := WriteEnd(k)];
    }
    child := ChildSide(after, table, k, n, prev, hasNext, r, w);
    if prev != -1 {
      after := Close(after, prev);
    }
    if hasNext {
      after := Close(after, w);
      next := r;
    }
    assert after == if hasNext then table[r := ReadEnd(k)] else table;
  }

  /** The arguments a child sees from `from` on: up to the first null. */
  method ReadArgs(argv: array<Arg>, from: nat, ghost args: seq<string>) returns (seen: seq<string>)
    requires Holds(argv, from, args)
    ensures seen == args
  {
    seen := [];
    while argv[from + |seen|] != Null
      invariant |seen| <= |args| && seen == args[..|seen|]
      decreases |args| - |seen|
    {
      seen := seen + [argv[from + |seen|].text];
    }
  }

  /** What a child makes of its segment: the redirections are taken out, and those granted decide its
      standard streams. */
  ghost predicate Runs(c: Child, segment: seq<string>, table: Descriptors) {
    && c.segment == segment && c.table == table
    && c.args == Strip(segment)
    && |c.granted| == |Requests(segment)|
    && c.streams == RedirectAll(Streams(Inherited, Inherited), Requests(segment), c.granted)
  }

  /** Child `k` of `n`: what it makes of its segment, and where its descriptors lead. */
  ghost predicate Piped(c: Child, segment: seq<string>, table: Descriptors, k: nat, n: nat)
    requires STDIN in table && STDOUT in table
  {
    Runs(c, segment, c.table) && WiredTo(c.table, table, k, n)
  }

  lemma ChildPiped(c: Child, segment: seq<string>, ends: Descriptors, table: Descriptors, k: nat, n: nat)
    requires STDIN in table && STDOUT in table
    requires Runs(c, segment, ends) && WiredTo(ends, table, k, n)
    ensures Piped(c, segment, table, k, n)
  {
  }

  /** The child side after the descriptors: it works on its own copy of the vector. */
  method ChildArgs(argv: array<Arg>, from: nat, ghost segment: seq<string>, table: Descriptors)
    returns (child: Child)
    requires Holds(argv, from, segment)
    ensures Runs(child, segment, table)
  {
    var copy := new Arg[argv.Length](k requires 0 <= k < argv.Length reads argv => argv[k]);
    var seen := ReadArgs(copy, from, segment);
    var streams, granted := HandleRedirection(copy, from, segment, Streams(Inherited, Inherited));
    var args := ReadArgs(copy, from, Strip(segment));
    child := Child(seen, table, args, streams, granted);
  }

  /** The part of the loop body that touches the vector: it ends the segment with a null while the
      child is made, and puts the token back. */
  method Launch(argv: array<Arg>, cmdStart: nat, i: nat, ghost args: seq<string>, table: Descriptors)
    returns (child: Child)
    requires Holds(argv, 0, args) && cmdStart <= i <= |args|
    modifies argv
    ensures argv[..] == old(argv[..]) && Runs(child, args[cmdStart..i], table)
  {
    var saved := argv[i];
    argv[i] := Null;
    child := ChildArgs(argv, cmdStart, args[cmdStart..i], table);
    argv[i] := saved;
  }

  lemma NextSegment(args: seq<string>, cmdStart: nat, i: nat)
    requires cmdStart <= i <= |args| && BAR !in args[cmdStart..i] && (i < |args| ==> args[i] == BAR)
    ensures Segments(args[cmdStart..]) == [args[cmdStart..i]] + if i < |args| then Segments(args[i + 1..]) else []
  {
    assert args[cmdStart..][..i - cmdStart] == args[cmdStart..i];
    if i < |args| { assert args[cmdStart..][i - cmdStart + 1..] == args[i + 1..]; }
    SegmentsCut(args[cmdStart..], i - cmdStart);
  }

  /** extract_pipe, with fork and pipe succeeding. The children are in the order they were forked. */
  method ExtractPipe(argv: array<Arg>, ghost args: seq<string>, table: Descriptors)
    returns (children: seq<Child>, after: Descriptors)
    requires Holds(argv, 0, args)
    requires STDIN in table && STDOUT in table
    modifies argv
    ensures argv[..] == old(argv[..]) && after == table
    ensures |children| == |Segments(args)|
    ensures forall k :: 0 <= k < |children| ==> Piped(children[k], Segments(args)[k], table, k, |children|)
  {
    hide Segments, Wired, WiredTo, ParentHolds, Runs, Piped;
    children, after := [], table;
    var cmdStart: nat, prev: int, i: nat := 0, -1, 0;
    ghost var done: seq<seq<string>> := [];
    assert args[0..] == args;
    NothingHeld(table);
    while true
      invariant 0 <= cmdStart <= i <= |args| && BAR !in args[cmdStart..i]
      invariant argv[..] == old(argv[..]) && Holds(argv, 0, args)
      invariant done + Segments(args[cmdStart..]) == Segments(args) && |children| == |done|
      invariant ParentHolds(after, table, |children|, prev)
      invariant forall k :: 0 <= k < |children| ==> Piped(children[k], done[k], table, k, |Segments(args)|)
      decreases |args| - i
    {
      if argv[i] == Null || argv[i] == Word(BAR) {
        var hasNext := argv[i] != Null;
        NextSegment(args, cmdStart, i);
        var ends;
        ends, after, prev := Fork(after, table, |children|, |Segments(args)|, prev, hasNext);
        var child := Launch(argv, cmdStart, i, args, ends);
        ChildPiped(child, args[cmdStart..i], ends, table, |children|, |Segments(args)|);
        children := children + [child];
        done := done + [args[cmdStart..i]];
        if !hasNext {
          break;
        }
        cmdStart := i + 1;
      }
      i := i + 1;
    }
  }

  lemma NothingHeld(table: Descriptors)
    ensures ParentHolds(table, table, 0, -1)
  {
  }
}
