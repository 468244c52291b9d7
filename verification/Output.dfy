/** The shell's output translator (shell/src/ui/ui.c): bytes are collected in a fixed buffer, with a
    carriage return put before each line feed that does not already follow one.
 */
module Output {

  const BUFFER: nat := 1024
  const SLACK: nat := 16

  /** What one byte adds, after byte `last`. */
  function Emit(last: char, c: char): string {
    if c == '\n' && last != '\r' then ['\r', c] else [c]
  }

  /** The unbuffered translation of `s`, after byte `last`. */
  function Translate(last: char, s: string): string
    decreases |s|
  {
    if s == "" then "" else Emit(last, s[0]) + Translate(s[0], s[1..])
  }

  function LastOf(last: char, s: string): char {
    if s == "" then last else s[|s| - 1]
  }

  lemma {:induction false} TranslateAppend(last: char, s: string, c: char)
    ensures Translate(last, s + [c]) == Translate(last, s) + Emit(LastOf(last, s), c)
    decreases |s|
  {
    if s == "" {
      assert s + [c] == [c] && [c][1..] == "";
    } else {
      assert (s + [c])[1..] == s[1..] + [c];
      TranslateAppend(s[0], s[1..], c);
      assert LastOf(s[0], s[1..]) == LastOf(last, s);
    }
  }

  lemma LastIs(last: char, s: string, c: char)
    ensures LastOf(last, s + [c]) == c
  {
  }

  /** No line feed without a carriage return just before it. */
  predicate Terminal(last: char, s: string)
    decreases |s|
  {
    s == "" || ((s[0] == '\n' ==> last == '\r') && Terminal(s[0], s[1..]))
  }

  lemma {:induction false} TranslateTerminal(last: char, s: string)
    ensures Terminal(last, Translate(last, s))
    decreases |s|
  {
    if s != "" {
      TranslateTerminal(s[0], s[1..]);
      var rest := Translate(s[0], s[1..]);
      if s[0] == '\n' && last != '\r' {
        assert Translate(last, s)[1..] == [s[0]] + rest;
        assert ([s[0]] + rest)[1..] == rest;
      } else {
        assert Translate(last, s)[1..] == rest;
      }
    }
  }

  lemma {:induction false} TerminalFixed(last: char, s: string)
    ensures Terminal(last, s) <==> Translate(last, s) == s
    decreases |s|
  {
    if s != "" {
      TerminalFixed(s[0], s[1..]);
      TranslateGrows(s[0], s[1..]);
      if s[0] == '\n' && last != '\r' {
        assert Translate(last, s)[0] == '\r';
      } else {
        assert Translate(last, s)[1..] == Translate(s[0], s[1..]);
      }
    }
  }

  lemma {:induction false} TranslateGrows(last: char, s: string)
    ensures |s| <= |Translate(last, s)| <= 2 * |s|
    decreases |s|
  {
    if s != "" { TranslateGrows(s[0], s[1..]); }
  }

  /** The translation leaves no bare line feed, changes nothing exactly when there is none, and so is
      idempotent. */
  lemma TranslateSettles(last: char, s: string)
    ensures Terminal(last, Translate(last, s))
    ensures Translate(last, s) == s <==> Terminal(last, s)
    ensures Translate(last, Translate(last, s)) == Translate(last, s)
  {
    TranslateTerminal(last, s);
    TerminalFixed(last, s);
    TerminalFixed(last, Translate(last, s));
  }

  /** How many line feeds do not follow a carriage return. */
  function Bare(last: char, s: string): nat
    decreases |s|
  {
    if s == "" then 0 else (if s[0] == '\n' && last != '\r' then 1 else 0) + Bare(s[0], s[1..])
  }

  /** The translation adds one byte for each of them and none else. */
  lemma {:induction false} TranslateLength(last: char, s: string)
    ensures |Translate(last, s)| == |s| + Bare(last, s)
    decreases |s|
  {
    if s != "" { TranslateLength(s[0], s[1..]); }
  }

  /** Only carriage returns are added: without them the text is unchanged. */
  function WithoutReturns(s: string): string {
    if s == "" then "" else if s[0] == '\r' then WithoutReturns(s[1..]) else [s[0]] + WithoutReturns(s[1..])
  }

  lemma WithoutReturnsCons(c: char, s: string)
    ensures WithoutReturns([c] + s) == if c == '\r' then WithoutReturns(s) else [c] + WithoutReturns(s)
  {
    assert ([c] + s)[1..] == s;
  }

  lemma {:induction false} TranslateAddsReturns(last: char, s: string)
    ensures WithoutReturns(Translate(last, s)) == WithoutReturns(s)
    decreases |s|
  {
    if s != "" {
      TranslateAddsReturns(s[0], s[1..]);
      var rest := Translate(s[0], s[1..]);
      WithoutReturnsCons(s[0], rest);
      WithoutReturnsCons('\r', [s[0]] + rest);
      assert ['\r', s[0]] + rest == ['\r'] + ([s[0]] + rest);
    }
  }

  /** The translator's static state, and all it has written to standard output so far. */
  class Translator {
    const buf: array<char>
    var idx: nat
    var last: char
    var written: string
    ghost var dispatched: string

    /** Nothing is lost: what was written and what is still buffered make up the translation of every
        byte dispatched, and there is room for the two bytes the next call may add. */
    ghost predicate Valid()
      reads this, buf
    {
      && buf.Length == BUFFER && idx < BUFFER - SLACK
      && last == LastOf('\0', dispatched)
      && written + buf[..idx] == Translate('\0', dispatched)
    }

    constructor ()
      ensures Valid() && dispatched == "" && written == "" && fresh(buf)
    {
      buf := new char[BUFFER](_ => '\0');
      idx, last, written, dispatched := 0, '\0', "", "";
    }

    /** shell_ui_dispatch_char */
    method Dispatch(c: char)
      requires Valid()
      modifies this, buf
      ensures Valid() && dispatched == old(dispatched) + [c]
      ensures old(written) <= written
      ensures c == '\n' ==> written == Translate('\0', dispatched)
      ensures idx < 1008 && (c != '\n' && old(idx) + 1 < 1008 ==> written == old(written) && idx == old(idx) + 1)
    {
      hide Translate, LastOf;
      TranslateAppend('\0', dispatched, c);
      LastIs('\0', dispatched, c);
      ghost var before := buf[..idx];
      if c == '\n' && last != '\r' {
        if idx < BUFFER {
          buf[idx] := '\r';
          idx := idx + 1;
        }
      }
      if idx < BUFFER {
        buf[idx] := c;
        idx := idx + 1;
      }
      assert buf[..idx] == before + Emit(last, c);
      last := c;
      dispatched := dispatched + [c];
      assert written + buf[..idx] == Translate('\0', dispatched);
      if c == '\n' || idx >= BUFFER - SLACK {
        written := written + buf[..idx];
        idx := 0;
      }
    }

    /** shell_ui_flush */
    method Flush()
      requires Valid()
      modifies this
      ensures Valid() && dispatched == old(dispatched)
      ensures written == Translate('\0', dispatched)
    {
      if idx > 0 {
        written := written + buf[..idx];
        idx := 0;
      }
    }
  }

  datatype Call = DoDispatch(c: char) | DoFlush

  function Bytes(calls: seq<Call>): string {
    if calls == [] then ""
    else Bytes(calls[..|calls| - 1])
         + match calls[|calls| - 1] { case DoDispatch(c) => [c] case DoFlush => "" }
  }

  /** For every interleaving of dispatched bytes and flushes, a final flush has written exactly the
      direct translation of the bytes. */
  method RunCalls(calls: seq<Call>) returns (out: string)
    ensures out == Translate('\0', Bytes(calls))
  {
    var t := new Translator();
    for i := 0 to |calls|
      invariant fresh(t) && fresh(t.buf) && t.Valid() && t.dispatched == Bytes(calls[..i])
    {
      assert calls[..i + 1][..i] == calls[..i];
      match calls[i]
      case DoDispatch(c) => t.Dispatch(c);
      case DoFlush => t.Flush();
    }
    assert calls[..|calls|] == calls;
    t.Flush();
    out := t.written;
  }
}
