/** The redirection pass of shell/src/core/module/common/redirect.c, which runs in a child process
    on its own null-terminated argument vector.
 */
module Redirection {

  /** An entry of an argument vector. */
  datatype Arg = Null | Word(text: string)

  datatype OpenMode = Truncate | Append | Read

  /** What a standard descriptor refers to. */
  datatype Stream = Inherited | File(name: string, mode: OpenMode)

  datatype Streams = Streams(input: Stream, output: Stream)

  function CharAt(t: string, k: nat): char {
    if k < |t| then t[k] else '\0'
  }

  predicate IsOutput(t: string) {
    CharAt(t, 0) == '>'
  }

  predicate IsInput(t: string) {
    CharAt(t, 0) == '<' && CharAt(t, 1) == '\0'
  }

  predicate IsOperator(t: string) {
    IsOutput(t) || IsInput(t)
  }

  function ModeOf(t: string): OpenMode {
    if !IsOutput(t) then Read else if CharAt(t, 1) == '>' then Append else Truncate
  }

  /** Which words are operators, and how they open their file. A C string has no NUL inside. */
  lemma Operators(t: string)
    requires '\0' !in t
    ensures IsOperator(t) <==> t == "<" || (|t| > 0 && t[0] == '>')
    ensures t == "<" ==> ModeOf(t) == Read
    ensures |t| > 0 && t[0] == '>' ==> ModeOf(t) == if |t| > 1 && t[1] == '>' then Append else Truncate
  {
    if |t| > 1 { assert t[1] in t; }
  }

  // ---------------------------------------------------------------- what is left of the arguments

  /** Removes each operator with its operand, from left to right. */
  function Strip(args: seq<string>): seq<string> {
    if args == [] then []
    else if IsOperator(args[0]) && |args| > 1 then Strip(args[2..])
    else [args[0]] + Strip(args[1..])
  }

  lemma {:induction false} StripKeepsLastOperator(args: seq<string>)
    ensures |Strip(args)| <= |args|
    ensures forall k :: 0 <= k < |Strip(args)| - 1 ==> !IsOperator(Strip(args)[k])
  {
    if args != [] {
      if IsOperator(args[0]) && |args| > 1 {
        StripKeepsLastOperator(args[2..]);
      } else {
        StripKeepsLastOperator(args[1..]);
      }
    }
  }

  lemma {:induction false} StripNothing(args: seq<string>)
    requires forall k :: 0 <= k < |args| - 1 ==> !IsOperator(args[k])
    ensures Strip(args) == args
  {
    if args != [] {
      forall k | 0 <= k < |args| - 2 ensures !IsOperator(args[1..][k]) { assert args[1..][k] == args[k + 1]; }
      StripNothing(args[1..]);
    }
  }

  /** After the pass an operator can only be the last argument, a further pass changes nothing, and a
      pass changes nothing exactly if there was no such operator to begin with. */
  lemma StripSettles(args: seq<string>)
    ensures forall k :: 0 <= k < |Strip(args)| - 1 ==> !IsOperator(Strip(args)[k])
    ensures Strip(Strip(args)) == Strip(args)
    ensures Strip(args) == args <==> forall k :: 0 <= k < |args| - 1 ==> !IsOperator(args[k])
  {
    StripKeepsLastOperator(args);
    StripNothing(Strip(args));
    if forall k :: 0 <= k < |args| - 1 ==> !IsOperator(args[k]) { StripNothing(args); }
  }

  // ---------------------------------------------------------------- the redirections performed

  datatype Request = Request(name: string, mode: OpenMode)

  /** The files the pass asks to open, in order. */
  function Requests(args: seq<string>): seq<Request> {
    if |args| < 2 then []
    else if IsOperator(args[0]) then [Request(args[1], ModeOf(args[0]))] + Requests(args[2..])
    else Requests(args[1..])
  }

  /** One request, which leaves the streams alone when the file cannot be granted. */
  function Redirect(s: Streams, r: Request, granted: bool): Streams {
    if !granted then s
    else if r.mode == Read then s.(input := File(r.name, r.mode))
    else s.(output := File(r.name, r.mode))
  }

  /** `granted[k]` tells whether the k-th request succeeded. */
  function RedirectAll(s: Streams, rs: seq<Request>, granted: seq<bool>): Streams
    requires |granted| == |rs|
    decreases |rs|
  {
    if rs == [] then s
    else RedirectAll(Redirect(s, rs[0], granted[0]), rs[1..], granted[1..])
  }

  /** The last request of one kind that succeeded decides the stream; without one it is unchanged. */
  ghost predicate DecidedBy(rs: seq<Request>, granted: seq<bool>, input: bool, before: Stream, after: Stream)
    requires |granted| == |rs|
  {
    || (after == before && forall k :: 0 <= k < |rs| ==> !(granted[k] && (rs[k].mode == Read) == input))
    || (exists k :: 0 <= k < |rs| && granted[k] && (rs[k].mode == Read) == input
          && after == File(rs[k].name, rs[k].mode)
          && forall j :: k < j < |rs| ==> !(granted[j] && (rs[j].mode == Read) == input))
  }

  lemma {:induction false} LastOpenedWins(s: Streams, rs: seq<Request>, granted: seq<bool>)
    requires |granted| == |rs|
    ensures DecidedBy(rs, granted, true, s.input, RedirectAll(s, rs, granted).input)
    ensures DecidedBy(rs, granted, false, s.output, RedirectAll(s, rs, granted).output)
    decreases |rs|
  {
    if rs != [] {
      var t := Redirect(s, rs[0], granted[0]);
      LastOpenedWins(t, rs[1..], granted[1..]);
      var u := RedirectAll(s, rs, granted);
      DecidedCons(rs, granted, true, s.input, t.input, u.input);
      DecidedCons(rs, granted, false, s.output, t.output, u.output);
    }
  }

  lemma DecidedCons(rs: seq<Request>, granted: seq<bool>, input: bool, before: Stream, mid: Stream, after: Stream)
    requires |granted| == |rs| > 0 && DecidedBy(rs[1..], granted[1..], input, mid, after)
    requires mid == if granted[0] && (rs[0].mode == Read) == input then File(rs[0].name, rs[0].mode) else before
    ensures DecidedBy(rs, granted, input, before, after)
  {
    var rest, others := rs[1..], granted[1..];
    assert forall k :: 0 <= k < |rest| ==> rest[k] == rs[k + 1] && others[k] == granted[k + 1];
    if k :| 0 <= k < |rest| && others[k] && (rest[k].mode == Read) == input && after == File(rest[k].name, rest[k].mode)
            && forall j :: k < j < |rest| ==> !(others[j] && (rest[j].mode == Read) == input)
    {
      forall j | k + 1 < j < |rs| ensures !(granted[j] && (rs[j].mode == Read) == input) {
        assert rest[j - 1] == rs[j] && others[j - 1] == granted[j];
      }
      assert granted[k + 1];
    } else {
      forall j | 0 < j < |rs| ensures !(granted[j] && (rs[j].mode == Read) == input) {
        assert rest[j - 1] == rs[j] && others[j - 1] == granted[j];
      }
    }
  }

  // ---------------------------------------------------------------- position by position

  /** The word at `k` redirects: it is an operator, something follows it, and it is not itself the operand
      of an operator before it. */
  predicate Redirects(args: seq<string>, k: nat)
    requires k < |args|
  {
    IsOperator(args[k]) && k + 1 < |args| && !(k > 0 && Redirects(args, k - 1))
  }

  /** The word at `k` is the operand of the one before it. */
  predicate IsOperand(args: seq<string>, k: nat)
    requires k < |args|
  {
    k > 0 && Redirects(args, k - 1)
  }

  /** The words from `k` on that neither redirect nor are operands. */
  function Others(args: seq<string>, k: nat): seq<string>
    requires k <= |args|
    decreases |args| - k
  {
    if k == |args| then []
    else (if Redirects(args, k) || IsOperand(args, k) then [] else [args[k]]) + Others(args, k + 1)
  }

  /** A request for each word from `k` on that redirects, naming the word behind it. */
  function Asked(args: seq<string>, k: nat): seq<Request>
    requires k <= |args|
    decreases |args| - k
  {
    if k == |args| then []
    else (if Redirects(args, k) then [Request(args[k + 1], ModeOf(args[k]))] else []) + Asked(args, k + 1)
  }

  lemma {:induction false} StripByPosition(args: seq<string>, k: nat)
    requires k <= |args| && (k < |args| ==> !IsOperand(args, k))
    ensures Strip(args[k..]) == Others(args, k) && Requests(args[k..]) == Asked(args, k)
    decreases |args| - k
  {
    if k < |args| {
      assert args[k..][0] == args[k];
      if Redirects(args, k) {
        assert args[k..][1] == args[k + 1] && args[k..][2..] == args[k + 2..];
        assert IsOperand(args, k + 1) && !Redirects(args, k + 1);
        StripByPosition(args, k + 2);
      } else {
        assert args[k..][1..] == args[k + 1..];
        StripByPosition(args, k + 1);
      }
    }
  }

  /** The pass keeps, in order, exactly the words that neither redirect nor are operands, and asks for
      exactly the files named behind those that redirect. */
  lemma StripIsFilter(args: seq<string>)
    ensures Strip(args) == Others(args, 0) && Requests(args) == Asked(args, 0)
  {
    assert args[0..] == args;
    StripByPosition(args, 0);
  }

  // ---------------------------------------------------------------- in place

  /** From `base` on the vector holds these arguments and then a null. */
  ghost predicate Holds(argv: array<Arg>, base: nat, args: seq<string>)
    reads argv
  {
    && base + |args| < argv.Length
    && (forall k :: base <= k < base + |args| ==> argv[k] == Word(args[k - base]))
    && argv[base + |args|] == Null
  }

  /** The inner loop: everything after the first two entries moves down by two. */
  method ShiftOut(argv: array<Arg>, i: nat, ghost args: seq<string>)
    requires |args| >= 2 && Holds(argv, i, args)
    modifies argv
    ensures Holds(argv, i, args[2..])
    ensures forall k :: 0 <= k < i ==> argv[k] == old(argv[k])
  {
    var j := i;
    while argv[j + 2] != Null
      invariant i <= j <= i + |args| - 2
      invariant forall k :: i <= k < j ==> argv[k] == Word(args[k - i + 2])
      invariant forall k :: j <= k <= i + |args| ==> argv[k] == old(argv[k])
      invariant forall k :: 0 <= k < i ==> argv[k] == old(argv[k])
      decreases i + |args| - j
    {
      argv[j] := argv[j + 2];
      j := j + 1;
    }
    argv[j] := Null;
  }

  /** What the pass has kept and asked for, against what is still ahead. */
  lemma TakeOut(asked: seq<Request>, rest: seq<string>)
    requires |rest| >= 2 && IsOperator(rest[0])
    ensures Strip(rest) == Strip(rest[2..])
    ensures asked + Requests(rest) == (asked + [Request(rest[1], ModeOf(rest[0]))]) + Requests(rest[2..])
  {
    assert asked + ([Request(rest[1], ModeOf(rest[0]))] + Requests(rest[2..]))
        == (asked + [Request(rest[1], ModeOf(rest[0]))]) + Requests(rest[2..]);
  }

  lemma KeepStrip(rest: seq<string>)
    requires rest != [] && (|rest| == 1 || !IsOperator(rest[0]))
    ensures Strip(rest) == [rest[0]] + Strip(rest[1..])
  {
  }

  lemma KeepRequests(rest: seq<string>)
    requires rest != [] && (|rest| == 1 || !IsOperator(rest[0]))
    ensures Requests(rest) == Requests(rest[1..])
  {
  }

  lemma Keep(kept: seq<string>, rest: seq<string>)
    requires rest != [] && (|rest| == 1 || !IsOperator(rest[0]))
    ensures kept + Strip(rest) == (kept + [rest[0]]) + Strip(rest[1..])
    ensures Requests(rest) == Requests(rest[1..])
  {
    hide *;
    KeepStrip(rest);
    KeepRequests(rest);
    assert kept + ([rest[0]] + Strip(rest[1..])) == (kept + [rest[0]]) + Strip(rest[1..]);
  }

  lemma NothingAhead()
    ensures Strip([]) == [] && Requests([]) == []
  {
  }

  /** handle_redirection, on the vector from `base` on. The k-th answer of the file system is
      returned in `granted`; the streams are the process's standard input and output. */
  method HandleRedirection(argv: array<Arg>, base: nat, ghost args: seq<string>, before: Streams)
    returns (after: Streams, granted: seq<bool>)
    requires Holds(argv, base, args)
    modifies argv
    ensures Holds(argv, base, Strip(args))
    ensures forall k :: 0 <= k < base ==> argv[k] == old(argv[k])
    ensures |granted| == |Requests(args)| && after == RedirectAll(before, Requests(args), granted)
  {
    hide Strip, Requests, ModeOf, IsOperator;
    after, granted := before, [];
    var i := base;
    ghost var kept: seq<string> := [];
    ghost var rest := args;
    ghost var asked: seq<Request> := [];
    assert kept + Strip(rest) == Strip(args);
    assert asked + Requests(rest) == Requests(args);
    while argv[i] != Null
      invariant i == base + |kept| && Holds(argv, i, rest)
      invariant forall k :: base <= k < i ==> argv[k] == Word(kept[k - base])
      invariant forall k :: 0 <= k < base ==> argv[k] == old(argv[k])
      invariant kept + Strip(rest) == Strip(args)
      invariant asked + Requests(rest) == Requests(args)
      invariant |granted| == |asked| && after == RedirectAll(before, asked, granted)
      decreases |rest|
    {
      hide RedirectAll, Redirect;
      var t := argv[i].text;
      if IsOperator(t) && argv[i + 1] != Null {
        var request := Request(argv[i + 1].text, ModeOf(t));
        var ok: bool := *;
        RedirectSnoc(before, asked, granted, request, ok);
        after := Redirect(after, request, ok);
        granted := granted + [ok];
        TakeOut(asked, rest);
        asked := asked + [request];
        ShiftOut(argv, i, rest);
        rest := rest[2..];
      } else {
        Keep(kept, rest);
        kept := kept + [rest[0]];
        rest := rest[1..];
        i := i + 1;
      }
    }
    NothingAhead();
    assert rest == [];
    assert kept == Strip(args) && asked == Requests(args);
  }

  lemma {:induction false} RedirectSnoc(s: Streams, rs: seq<Request>, granted: seq<bool>, r: Request, ok: bool)
    requires |granted| == |rs|
    ensures RedirectAll(s, rs + [r], granted + [ok]) == Redirect(RedirectAll(s, rs, granted), r, ok)
    decreases |rs|
  {
    if rs == [] {
      assert rs + [r] == [r] && granted + [ok] == [ok];
      assert [r][1..] == [] && [ok][1..] == [];
    } else {
      assert (rs + [r])[1..] == rs[1..] + [r] && (granted + [ok])[1..] == granted[1..] + [ok];
      RedirectSnoc(Redirect(s, rs[0], granted[0]), rs[1..], granted[1..], r, ok);
    }
  }
}
