/** The payload builder of shell/src/core/parser.c: a prefix word sets the flags, and the other
    tokens are joined in a fixed buffer with strcat.
 */
module Parser {
  import opened Tokenizer
  import opened TokenizerObject

  const INTERACTIVE: nat := 1

  datatype Payload = Payload(flags: nat, shapeHint: string, cmdLen: nat, commandLine: string)

  const COMMAND_BUFFER: nat := 1024

  /** Overrun: the joined command goes past the end of the buffer, which the program does not check;
      nothing is said about what it does from there. */
  datatype Outcome = NoPayload | Overrun | Made(payload: Payload)

  /** How many leading tokens are a ShapeQuake prefix. */
  function CmdStart(ts: seq<string>): (k: nat)
    ensures k <= |ts|
  {
    if ts != [] && (ts[0] == "subnode-Iv" || ts[0] == "subnode") then 1 else 0
  }

  function Tail(ts: seq<string>): seq<string> {
    ts[CmdStart(ts)..]
  }

  predicate NoNul(s: string) {
    forall k :: 0 <= k < |s| ==> s[k] != '\0'
  }

  // ---------------------------------------------------------------- lengths under lost tokens

  lemma {:induction false} JoinOfSubsequence(a: seq<string>, b: seq<string>)
    requires Subsequence(a, b)
    ensures |Join(a)| <= |Join(b)|
    decreases b
  {
    if a != [] && b != [] {
      if a[0] == b[0] && Subsequence(a[1..], b[1..]) {
        JoinOfSubsequence(a[1..], b[1..]);
      } else {
        JoinOfSubsequence(a, b[1..]);
      }
    }
  }

  lemma {:induction false} SubsequenceDrop(a: seq<string>, b: seq<string>)
    requires Subsequence(a, b) && a != []
    ensures Subsequence(a[1..], b)
    decreases b
  {
    if Subsequence(a, b[1..]) { SubsequenceDrop(a, b[1..]); }
  }

  /** Losing tokens cannot make the command longer, even if a prefix word is lost. */
  lemma TailOfSubsequence(a: seq<string>, b: seq<string>)
    requires Subsequence(a, b)
    ensures |Join(Tail(a))| <= |Join(Tail(b))|
  {
    if a == [] {
    } else if CmdStart(b) == 1 && !(a[0] == b[0] && Subsequence(a[1..], b[1..])) {
      SubsequenceDrop(a, b[1..]);
      JoinOfSubsequence(Tail(a), b[1..]);
    } else if CmdStart(b) == 1 {
      JoinOfSubsequence(a[1..], b[1..]);
    } else {
      SubsequenceDrop(a, b);
      JoinOfSubsequence(Tail(a), b);
    }
  }

  lemma {:induction false} SubsequenceSelf(a: seq<string>)
    ensures Subsequence(a, a)
  {
    if a != [] { SubsequenceSelf(a[1..]); }
  }

  /** Taking the prefix word off makes the command no longer. */
  lemma TailIsShorter(ts: seq<string>)
    ensures |Join(Tail(ts))| <= |Join(ts)|
  {
    SubsequenceSelf(ts);
    if CmdStart(ts) == 1 {
      SubsequenceDrop(ts, ts);
      JoinOfSubsequence(ts[1..], ts);
    }
  }

  lemma TokensAfterWord(word: string, rest: string)
    requires IsToken(word)
    ensures Tokens(word + " " + rest) == [word] + Tokens(rest)
  {
    var s := word + (" " + rest);
    assert s == word + " " + rest && s == (word + " ") + rest;
    FirstToken(word, " " + rest);
    assert s[|word|] == ' ';
    TokensShift(word + " ", rest, 0);
  }

  /** A prefix word is taken off once, and nothing else is: the line "subnode-Iv" or "subnode" followed by
      another line makes the command of that line's tokens; a line that begins with neither keeps all. */
  lemma PrefixIsDropped(line: string)
    ensures Tail(Tokens("subnode-Iv" + " " + line)) == Tokens(line)
    ensures Tail(Tokens("subnode" + " " + line)) == Tokens(line)
    ensures Tokens(line) != [] && Tokens(line)[0] != "subnode-Iv" && Tokens(line)[0] != "subnode" ==>
              Tail(Tokens(line)) == Tokens(line)
  {
    TokensAfterWord("subnode-Iv", line);
    TokensAfterWord("subnode", line);
  }

  /** The command made from a line leaves room for the terminator in the buffer for every line of
      length n exactly if n is at most 512. */
  lemma LinesThatFit(n: nat)
    ensures (forall line: string :: |line| == n ==> |Join(Tail(Tokens(line)))| < COMMAND_BUFFER) <==> n <= 512
  {
    forall line: string | |line| == n && n <= 512 ensures |Join(Tail(Tokens(line)))| < COMMAND_BUFFER {
      TailIsShorter(Tokens(line));
      JoinLength(line);
    }
    if n > 512 {
      JoinLength(Pipes(n));
      NoPrefixInPipes(n);
      assert |Pipes(n)| == n;
    }
  }

  lemma NoPrefixInPipes(n: nat)
    requires n > 0
    ensures Tail(Tokens(Pipes(n))) == Tokens(Pipes(n))
  {
    assert Tokens(Pipes(n))[0] == "|";
  }

  lemma {:induction false} JoinNoNul(ts: seq<string>)
    requires forall k :: 0 <= k < |ts| ==> NoNul(ts[k])
    ensures NoNul(Join(ts))
  {
    if |ts| > 1 {
      JoinNoNul(ts[1..]);
      var more := Join(ts[1..]);
      forall k | 0 <= k < |Join(ts)| ensures Join(ts)[k] != '\0' {
        if |ts[0]| < k { assert Join(ts)[k] == more[k - |ts[0]| - 1]; }
      }
    }
  }

  lemma {:induction false} TokensNoNul(s: string, i: nat)
    requires i <= |s| && NoNul(s)
    ensures forall k :: 0 <= k < |TokensFrom(s, i)| ==> NoNul(TokensFrom(s, i)[k])
    decreases |s| - i
  {
    if i < |s| {
      TokensNoNul(s, if Boundary(s[i]) then i + 1 else WordEnd(s, i));
    }
  }

  lemma {:induction false} SubsequenceIn(a: seq<string>, b: seq<string>, k: nat)
    requires Subsequence(a, b) && k < |a|
    ensures a[k] in b
    decreases b
  {
    if a[0] == b[0] && Subsequence(a[1..], b[1..]) {
      if k > 0 {
        SubsequenceIn(a[1..], b[1..], k - 1);
        assert a[1..][k - 1] == a[k];
      }
    } else {
      SubsequenceIn(a, b[1..], k);
    }
  }

  // ---------------------------------------------------------------- the buffer

  /** The buffer holds a terminated C string. */
  ghost predicate HoldsString(buf: array<char>, s: string)
    reads buf
  {
    |s| < buf.Length && buf[..|s|] == s && buf[|s|] == '\0' && NoNul(s)
  }

  method Strlen(buf: array<char>, ghost s: string) returns (n: nat)
    requires HoldsString(buf, s)
    ensures n == |s|
  {
    n := 0;
    assert forall k :: 0 <= k < |s| ==> buf[k] == buf[..|s|][k];
    while buf[n] != '\0'
      invariant n <= |s|
      decreases |s| - n
    {
      n := n + 1;
    }
  }

  /** strcat needs room for both strings and the terminator. */
  method Strcat(buf: array<char>, more: string, ghost s: string)
    requires HoldsString(buf, s) && NoNul(more) && |s| + |more| < buf.Length
    modifies buf
    ensures HoldsString(buf, s + more)
  {
    var n := Strlen(buf, s);
    for k := 0 to |more|
      invariant buf[..n] == s
      invariant buf[n..n + k] == more[..k]
    {
      buf[n + k] := more[k];
      assert buf[n..n + k + 1] == buf[n..n + k] + [more[k]];
    }
    buf[n + |more|] := '\0';
    assert buf[..n + |more|] == buf[..n] + buf[n..n + |more|];
  }

  lemma JoinStep(ts: seq<string>, i: nat)
    requires i < |ts|
    ensures Join(ts[i..]) == if i + 1 < |ts| then ts[i] + " " + Join(ts[i + 1..]) else ts[i]
    ensures i + 1 == |ts| ==> Join(ts[i + 1..]) == ""
  {
    assert ts[i..][1..] == ts[i + 1..];
  }

  lemma JoinEnd(ts: seq<string>)
    ensures Join(ts[|ts|..]) == ""
  {
  }

  /** The loop that joins the tokens from `from` on, as long as it stays inside the buffer. */
  method JoinInto(buf: array<char>, ts: seq<string>, from: nat) returns (inside: bool, ghost joined: string)
    requires from <= |ts| && HoldsString(buf, "")
    requires forall k :: 0 <= k < |ts| ==> NoNul(ts[k])
    modifies buf
    ensures inside <==> |Join(ts[from..])| < buf.Length
    ensures inside ==> joined == Join(ts[from..]) && HoldsString(buf, joined)
  {
    joined := "";
    for i := from to |ts|
      invariant HoldsString(buf, joined)
      invariant joined + Join(ts[i..]) == Join(ts[from..])
    {
      hide *;
      var more := if i < |ts| - 1 then ts[i] + " " else ts[i];
      JoinStep(ts, i);
      Progress(ts, i, joined, more);
      var used := Strlen(buf, joined);
      if used + |more| >= buf.Length {
        return false, joined;
      }
      OnePiece(ts, i, joined, more);
      Strcat(buf, ts[i], joined);
      if i < |ts| - 1 {
        Strcat(buf, " ", joined + ts[i]);
      }
      joined := joined + more;
    }
    JoinEnd(ts);
    assert joined + "" == joined;
    Inside(buf, joined);
    inside := true;
  }

  /** What the join has ahead of it once token `i` is appended. */
  lemma Progress(ts: seq<string>, i: nat, joined: string, more: string)
    requires i < |ts| && more == if i < |ts| - 1 then ts[i] + " " else ts[i]
    ensures joined + more + Join(ts[i + 1..]) == joined + Join(ts[i..])
  {
    JoinStep(ts, i);
    hide Join;
    var rest := Join(ts[i + 1..]);
    if i < |ts| - 1 {
      assert joined + (ts[i] + " " + rest) == joined + (ts[i] + " ") + rest;
    } else {
      assert joined + ts[i] + rest == joined + ts[i];
    }
  }

  lemma OnePiece(ts: seq<string>, i: nat, joined: string, more: string)
    requires i < |ts| && more == (if i < |ts| - 1 then ts[i] + " " else ts[i])
    requires forall k :: 0 <= k < |ts| ==> NoNul(ts[k])
    ensures NoNul(ts[i]) && NoNul(" ") && |more| == |ts[i]| + if i < |ts| - 1 then 1 else 0
    ensures if i < |ts| - 1 then joined + ts[i] + " " == joined + more else joined + ts[i] == joined + more
  {
  }

  lemma Inside(buf: array<char>, s: string)
    requires HoldsString(buf, s)
    ensures |s| < buf.Length
  {
  }

  /** The payload made from tokens `ts`. */
  predicate MadeFrom(p: Payload, ts: seq<string>) {
    && ts != []
    && p.commandLine == Join(Tail(ts)) && p.cmdLen == |p.commandLine| + 1
    && Tokens(p.commandLine) == Tail(ts)
    && p.flags == (if ts[0] == "subnode-Iv" then INTERACTIVE else 0)
    && p.shapeHint == (if ts[0] == "subnode-Iv" then "hexagon" else "default")
  }

  /** parser_create_payload. `memory` answers the tokenizer's allocations, `room` the one for the
      payload; tokens the tokenizer had no memory for are lost. A line of at most 512 characters never
      overruns the buffer (LinesThatFit).
   */
  method CreatePayload(line: string, memory: nat -> bool, room: bool) returns (outcome: Outcome)
    requires NoNul(line)
    ensures Tokens(line) == [] || !memory(0) || !memory(1) ==> outcome == NoPayload
    ensures outcome == Overrun ==> |Join(Tail(Tokens(line)))| >= COMMAND_BUFFER
    ensures AlwaysGrants(memory) && Tokens(line) != [] ==>
              && (outcome == Overrun <==> |Join(Tail(Tokens(line)))| >= COMMAND_BUFFER)
              && (outcome == NoPayload <==> |Join(Tail(Tokens(line)))| < COMMAND_BUFFER && !room)
    ensures AlwaysGrants(memory) && outcome.Made? ==> MadeFrom(outcome.payload, Tokens(line))
    ensures outcome.Made? ==>
              && room && outcome.payload.cmdLen <= COMMAND_BUFFER
              && exists ts :: Subsequence(ts, Tokens(line)) && MadeFrom(outcome.payload, ts)
  {
    var list := Tokenize(line, memory);
    if list == null || list.count == 0 {
      return NoPayload;
    }
    var ts := ReadAll(list);
    var flags, shape, cmdStart := 0, "default", 0;
    if ts[0] == "subnode-Iv" {
      flags, shape, cmdStart := INTERACTIVE, "hexagon", 1;
    } else if ts[0] == "subnode" {
      cmdStart := 1;
    }
    Fits(ts, line);
    var buf := new char[COMMAND_BUFFER](_ => '\0');
    var inside, joined := JoinInto(buf, ts, cmdStart);
    if !inside {
      return Overrun;
    }
    var n := Strlen(buf, joined);
    JoinInverts(Tail(ts));
    outcome := NoPayload;
    if room {
      outcome := Made(Payload(flags, shape, n + 1, buf[..n]));
      assert MadeFrom(outcome.payload, ts);
    }
  }

  lemma Fits(ts: seq<string>, line: string)
    requires NoNul(line) && Subsequence(ts, Tokens(line))
    ensures |Join(Tail(ts))| <= |Join(Tail(Tokens(line)))|
    ensures forall k :: 0 <= k < |ts| ==> NoNul(ts[k]) && IsToken(ts[k])
  {
    TailOfSubsequence(ts, Tokens(line));
    TokensNoNul(line, 0);
    TokensWellFormed(line);
    forall k | 0 <= k < |ts| ensures NoNul(ts[k]) && IsToken(ts[k]) {
      SubsequenceIn(ts, Tokens(line), k);
    }
  }

  method ReadAll(list: TokenList) returns (ts: seq<string>)
    requires list.Valid()
    ensures ts == list.Contents()
  {
    ts := [];
    for i := 0 to list.count
      invariant ts == list.Contents()[..i]
    {
      ts := ts + [list.tokens[i].text];
    }
  }
}
