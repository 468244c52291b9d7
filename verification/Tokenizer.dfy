/** The shell's token language (shell/src/core/tokenizer.c): words and pipes, written with single
    spaces between them by the parser's join. A C string is the sequence of its characters before
    the terminator.
 */
module Tokenizer {

  predicate IsSpace(c: char) {
    c == ' ' || c == '\t' || c == '\n' || c == '\r' || c == '\U{00000B}' || c == '\U{00000C}'
  }

  predicate Boundary(c: char) {
    IsSpace(c) || c == '|'
  }

  /** The first boundary at or after `i`. */
  function WordEnd(s: string, i: nat): (e: nat)
    requires i <= |s|
    ensures i <= e <= |s|
    ensures forall k :: i <= k < e ==> !Boundary(s[k])
    ensures e < |s| ==> Boundary(s[e])
    decreases |s| - i
  {
    if i < |s| && !Boundary(s[i]) then WordEnd(s, i + 1) else i
  }

  /** The tokens of `s` from position `i` on. */
  function TokensFrom(s: string, i: nat): seq<string>
    requires i <= |s|
    decreases |s| - i
  {
    if i == |s| then []
    else if IsSpace(s[i]) then TokensFrom(s, i + 1)
    else if s[i] == '|' then [s[i..i + 1]] + TokensFrom(s, i + 1)
    else
      var e := WordEnd(s, i);
      [s[i..e]] + TokensFrom(s, e)
  }

  function Tokens(s: string): seq<string> {
    TokensFrom(s, 0)
  }

  predicate IsToken(t: string) {
    t != "" && (t == "|" || forall i :: 0 <= i < |t| ==> !Boundary(t[i]))
  }

  // ---------------------------------------------------------------- what a tokenization is

  datatype Span = Span(start: nat, end: nat)

  /** Where the token that begins at `i` ends. */
  function TokenEnd(s: string, i: nat): (e: nat)
    requires i < |s| && !IsSpace(s[i])
    ensures i < e <= |s|
  {
    if s[i] == '|' then i + 1 else WordEnd(s, i)
  }

  function SpansFrom(s: string, i: nat): seq<Span>
    requires i <= |s|
    decreases |s| - i
  {
    if i == |s| then []
    else if IsSpace(s[i]) then SpansFrom(s, i + 1)
    else if s[i] == '|' then [Span(i, i + 1)] + SpansFrom(s, i + 1)
    else [Span(i, WordEnd(s, i))] + SpansFrom(s, WordEnd(s, i))
  }

  /** A span holds one pipe, or a word that cannot be made longer at either end. */
  ghost predicate GoodSpan(s: string, i: nat, p: Span) {
    && i <= p.start < p.end <= |s|
    && ((p.end == p.start + 1 && s[p.start] == '|')
        || ((forall k :: p.start <= k < p.end ==> !Boundary(s[k]))
            && (p.start == i || Boundary(s[p.start - 1]))
            && (p.end == |s| || Boundary(s[p.end]))))
  }

  ghost predicate Covered(spans: seq<Span>, k: nat) {
    exists j :: 0 <= j < |spans| && spans[j].start <= k < spans[j].end
  }

  /** Spans in order, each good, that leave out nothing but whitespace. */
  ghost predicate Tokenization(s: string, i: nat, spans: seq<Span>) {
    && (forall j :: 0 <= j < |spans| ==> GoodSpan(s, i, spans[j]))
    && (forall j, k :: 0 <= j < k < |spans| ==> spans[j].end <= spans[k].start)
    && (forall k :: i <= k < |s| && !IsSpace(s[k]) ==> Covered(spans, k))
  }

  lemma CoveredCons(p: Span, rest: seq<Span>, k: nat)
    ensures Covered([p] + rest, k) <==> p.start <= k < p.end || Covered(rest, k)
  {
    var all := [p] + rest;
    assert all[0] == p;
    if Covered(rest, k) {
      var j :| 0 <= j < |rest| && rest[j].start <= k < rest[j].end;
      assert all[j + 1] == rest[j];
    }
    if j :| 0 < j < |all| && all[j].start <= k < all[j].end {
      assert rest[j - 1] == all[j];
    }
  }

  lemma {:induction false} WordEndIs(s: string, i: nat, e: nat)
    requires i <= e <= |s| && (forall k :: i <= k < e ==> !Boundary(s[k])) && (e < |s| ==> Boundary(s[e]))
    ensures WordEnd(s, i) == e
    decreases e - i
  {
    if i < e { WordEndIs(s, i + 1, e); }
  }

  lemma TokenizationCons(s: string, i: nat, rest: seq<Span>)
    requires i < |s| && !IsSpace(s[i])
    requires Tokenization(s, if s[i] == '|' then i + 1 else WordEnd(s, i), rest)
    ensures var e := if s[i] == '|' then i + 1 else WordEnd(s, i);
            Tokenization(s, i, [Span(i, e)] + rest)
  {
    var e := if s[i] == '|' then i + 1 else WordEnd(s, i);
    var all := [Span(i, e)] + rest;
    forall k | i <= k < |s| && !IsSpace(s[k]) ensures Covered(all, k) {
      CoveredCons(Span(i, e), rest, k);
    }
    forall j | 0 <= j < |all| ensures GoodSpan(s, i, all[j]) && (j > 0 ==> e <= all[j].start) {
      if j > 0 { assert GoodSpan(s, e, rest[j - 1]); }
    }
  }

  lemma {:induction false} SpansTokenize(s: string, i: nat)
    requires i <= |s|
    ensures Tokenization(s, i, SpansFrom(s, i))
    decreases |s| - i
  {
    if i < |s| {
      if IsSpace(s[i]) {
        SpansTokenize(s, i + 1);
        var spans := SpansFrom(s, i);
        forall j | 0 <= j < |spans| ensures GoodSpan(s, i, spans[j]) {
          assert GoodSpan(s, i + 1, spans[j]);
        }
      } else {
        var e := if s[i] == '|' then i + 1 else WordEnd(s, i);
        SpansTokenize(s, e);
        TokenizationCons(s, i, SpansFrom(s, e));
      }
    }
  }

  lemma SkipStep(s: string, i: nat, spans: seq<Span>)
    requires i < |s| && IsSpace(s[i]) && Tokenization(s, i, spans)
    ensures Tokenization(s, i + 1, spans)
  {
    forall j | 0 <= j < |spans| ensures GoodSpan(s, i + 1, spans[j]) {
      assert GoodSpan(s, i, spans[j]);
    }
  }

  lemma FirstSpan(s: string, i: nat, spans: seq<Span>)
    requires i < |s| && !IsSpace(s[i]) && Tokenization(s, i, spans)
    ensures spans != [] && spans[0] == Span(i, if s[i] == '|' then i + 1 else WordEnd(s, i))
  {
    assert Covered(spans, i);
    assert GoodSpan(s, i, spans[0]) && spans[0].start == i;
    if s[i] != '|' { WordEndIs(s, i, spans[0].end); }
  }

  /** Cutting the text after its first token cuts the tokenization after its first span. */
  lemma TokenizationStep(s: string, i: nat, spans: seq<Span>)
    requires i < |s| && !IsSpace(s[i]) && Tokenization(s, i, spans)
    ensures var e := TokenEnd(s, i);
            spans != [] && spans[0] == Span(i, e) && Tokenization(s, e, spans[1..])
  {
    FirstSpan(s, i, spans);
    var e := spans[0].end;
    var rest := spans[1..];
    assert spans == [spans[0]] + rest;
    forall k | e <= k < |s| && !IsSpace(s[k]) ensures Covered(rest, k) {
      CoveredCons(spans[0], rest, k);
    }
    forall j | 0 <= j < |rest| ensures GoodSpan(s, e, rest[j]) {
      assert rest[j] == spans[j + 1] && GoodSpan(s, i, spans[j + 1]);
    }
  }

  lemma SpansLeaveText(s: string, i: nat, spans: seq<Span>)
    requires Tokenization(s, i, spans) && spans != []
    ensures i < |s|
  {
    assert GoodSpan(s, i, spans[0]);
  }

  lemma {:induction false} TokenizationUnique(s: string, i: nat, spans: seq<Span>)
    requires i <= |s| && Tokenization(s, i, spans)
    ensures spans == SpansFrom(s, i)
    decreases |s| - i
  {
    if i == |s| {
      if spans != [] { SpansLeaveText(s, i, spans); }
    } else {
      hide *;
      if IsSpace(s[i]) {
        SkipStep(s, i, spans);
        TokenizationUnique(s, i + 1, spans);
        SpansSkip(s, i);
      } else {
        TokenizationStep(s, i, spans);
        var e := TokenEnd(s, i);
        TokenizationUnique(s, e, spans[1..]);
        SpansStep(s, i);
        HeadAndTail(spans);
      }
    }
  }

  lemma HeadAndTail(spans: seq<Span>)
    requires spans != []
    ensures spans == [spans[0]] + spans[1..]
  {
  }

  lemma SpansSkip(s: string, i: nat)
    requires i < |s| && IsSpace(s[i])
    ensures SpansFrom(s, i) == SpansFrom(s, i + 1)
  {
  }

  lemma SpansStep(s: string, i: nat)
    requires i < |s| && !IsSpace(s[i])
    ensures SpansFrom(s, i) == [Span(i, TokenEnd(s, i))] + SpansFrom(s, TokenEnd(s, i))
  {
  }

  function Texts(s: string, spans: seq<Span>): seq<string>
    requires forall j :: 0 <= j < |spans| ==> spans[j].start <= spans[j].end <= |s|
  {
    if spans == [] then [] else [s[spans[0].start..spans[0].end]] + Texts(s, spans[1..])
  }

  lemma {:induction false} TokensAreSpans(s: string, i: nat)
    requires i <= |s|
    ensures forall j :: 0 <= j < |SpansFrom(s, i)| ==> SpansFrom(s, i)[j].start <= SpansFrom(s, i)[j].end <= |s|
    ensures TokensFrom(s, i) == Texts(s, SpansFrom(s, i))
    decreases |s| - i
  {
    SpansTokenize(s, i);
    forall j | 0 <= j < |SpansFrom(s, i)|
      ensures SpansFrom(s, i)[j].start <= SpansFrom(s, i)[j].end <= |s|
    {
      assert GoodSpan(s, i, SpansFrom(s, i)[j]);
    }
    if i < |s| {
      TokensAreSpans(s, if IsSpace(s[i]) || s[i] == '|' then i + 1 else WordEnd(s, i));
    }
  }

  /** The tokens are the text of exactly one list of spans: the pipes and maximal words that, in
      order, leave out nothing but whitespace. */
  lemma TokensCharacterised(s: string, spans: seq<Span>)
    ensures Tokenization(s, 0, spans) <==> spans == SpansFrom(s, 0)
    ensures spans == SpansFrom(s, 0) ==>
              (forall j :: 0 <= j < |spans| ==> spans[j].start <= spans[j].end <= |s|) && Tokens(s) == Texts(s, spans)
  {
    SpansTokenize(s, 0);
    TokensAreSpans(s, 0);
    if Tokenization(s, 0, spans) { TokenizationUnique(s, 0, spans); }
  }

  /** What one character between two letters does: whitespace separates, a pipe is a token of its own, and
      anything else joins. */
  lemma BetweenLetters(c: char)
    ensures var tokens := Tokens(['a', c, 'b']);
            if c in {' ', '\t', '\n', '\r', '\U{00000B}', '\U{00000C}'} then tokens == ["a", "b"]
            else if c == '|' then tokens == ["a", "|", "b"]
            else tokens == [['a', c, 'b']]
  {
    var s := ['a', c, 'b'];
    assert s[0..1] == "a" && s[2..3] == "b" && s[0..3] == s && s[1..2] == [c];
    assert TokensFrom(s, 2) == ["b"] by {
      WordEndIs(s, 2, 3);
    }
    if IsSpace(c) || c == '|' {
      WordEndIs(s, 0, 1);
      assert TokensFrom(s, 1) == if c == '|' then ["|"] + ["b"] else ["b"];
    } else {
      WordEndIs(s, 0, 3);
    }
  }

  // ---------------------------------------------------------------- properties of the tokens

  function Flatten(ts: seq<string>): string {
    if ts == [] then "" else ts[0] + Flatten(ts[1..])
  }

  function NoSpaces(s: string, i: nat): string
    requires i <= |s|
    decreases |s| - i
  {
    if i == |s| then "" else if IsSpace(s[i]) then NoSpaces(s, i + 1) else [s[i]] + NoSpaces(s, i + 1)
  }

  lemma {:induction false} NoSpacesWord(s: string, i: nat, e: nat)
    requires i <= e <= |s| && forall k :: i <= k < e ==> !IsSpace(s[k])
    ensures NoSpaces(s, i) == s[i..e] + NoSpaces(s, e)
    decreases e - i
  {
    if i < e {
      NoSpacesWord(s, i + 1, e);
      calc {
        NoSpaces(s, i);
        [s[i]] + NoSpaces(s, i + 1);
        [s[i]] + (s[i + 1..e] + NoSpaces(s, e));
        { assert s[i..e] == [s[i]] + s[i + 1..e]; }
        s[i..e] + NoSpaces(s, e);
      }
    }
  }

  lemma {:induction false} TokensAreTokens(s: string, i: nat)
    requires i <= |s|
    ensures forall k :: 0 <= k < |TokensFrom(s, i)| ==> IsToken(TokensFrom(s, i)[k])
    decreases |s| - i
  {
    if i < |s| {
      if IsSpace(s[i]) || s[i] == '|' {
        TokensAreTokens(s, i + 1);
      } else {
        TokensAreTokens(s, WordEnd(s, i));
      }
    }
  }

  lemma FlattenCons(t: string, rest: seq<string>)
    ensures Flatten([t] + rest) == t + Flatten(rest)
  {
    assert ([t] + rest)[1..] == rest;
  }

  lemma {:induction false} TokensFlatten(s: string, i: nat)
    requires i <= |s|
    ensures Flatten(TokensFrom(s, i)) == NoSpaces(s, i)
    decreases |s| - i
  {
    if i < |s| {
      hide Flatten;
      if IsSpace(s[i]) {
        TokensFlatten(s, i + 1);
      } else {
        var e := if s[i] == '|' then i + 1 else WordEnd(s, i);
        TokensFlatten(s, e);
        FlattenCons(s[i..e], TokensFrom(s, e));
        NoSpacesWord(s, i, e);
      }
    }
  }

  /** Tokens are well formed, and together they are the input without its whitespace. */
  lemma TokensWellFormed(s: string)
    ensures forall k :: 0 <= k < |Tokens(s)| ==> IsToken(Tokens(s)[k])
    ensures Flatten(Tokens(s)) == NoSpaces(s, 0)
  {
    TokensAreTokens(s, 0);
    TokensFlatten(s, 0);
  }

  // ---------------------------------------------------------------- the join inverts

  function Join(ts: seq<string>): string {
    if ts == [] then "" else if |ts| == 1 then ts[0] else ts[0] + " " + Join(ts[1..])
  }

  /** The join ends with its last token behind a single space. */
  lemma {:induction false} JoinSnoc(ts: seq<string>, t: string)
    ensures Join([]) == "" && Join(ts + [t]) == if ts == [] then t else Join(ts) + " " + t
  {
    if ts == [] {
      assert ts + [t] == [t];
    } else {
      assert (ts + [t])[1..] == ts[1..] + [t];
      JoinSnoc(ts[1..], t);
      if |ts| > 1 {
        assert ts[0] + " " + (Join(ts[1..]) + " " + t) == ts[0] + " " + Join(ts[1..]) + " " + t;
      } else {
        assert ts[1..] == [];
      }
    }
  }

  lemma {:induction false} WordEndShift(a: string, b: string, i: nat)
    requires i <= |b|
    ensures WordEnd(a + b, |a| + i) == |a| + WordEnd(b, i)
    decreases |b| - i
  {
    if i < |b| && !Boundary(b[i]) { WordEndShift(a, b, i + 1); }
  }

  lemma SliceShift(a: string, b: string, i: nat, e: nat)
    requires i <= e <= |b|
    ensures (a + b)[|a| + i..|a| + e] == b[i..e]
  {
  }

  lemma TokensSkip(s: string, i: nat)
    requires i < |s| && IsSpace(s[i])
    ensures TokensFrom(s, i) == TokensFrom(s, i + 1)
  {
  }

  lemma TokensStep(s: string, i: nat)
    requires i < |s| && !IsSpace(s[i])
    ensures TokensFrom(s, i) == [s[i..TokenEnd(s, i)]] + TokensFrom(s, TokenEnd(s, i))
  {
  }

  lemma TokenEndShift(a: string, b: string, i: nat)
    requires i < |b| && !IsSpace(b[i])
    ensures (a + b)[|a| + i] == b[i] && TokenEnd(a + b, |a| + i) == |a| + TokenEnd(b, i)
  {
    WordEndShift(a, b, i);
  }

  lemma {:induction false} TokensShift(a: string, b: string, i: nat)
    requires i <= |b|
    ensures TokensFrom(a + b, |a| + i) == TokensFrom(b, i)
    decreases |b| - i
  {
    if i < |b| {
      hide *;
      assert (a + b)[|a| + i] == b[i];
      if IsSpace(b[i]) {
        TokensSkip(b, i);
        TokensSkip(a + b, |a| + i);
        TokensShift(a, b, i + 1);
      } else {
        var e := TokenEnd(b, i);
        TokenEndShift(a, b, i);
        TokensStep(b, i);
        TokensStep(a + b, |a| + i);
        SliceShift(a, b, i, e);
        TokensShift(a, b, e);
      }
    }
  }

  lemma FirstToken(t: string, rest: string)
    requires IsToken(t) && (rest == "" || rest[0] == ' ')
    ensures Tokens(t + rest) == [t] + TokensFrom(t + rest, |t|)
  {
    var s := t + rest;
    assert s[0] == t[0];
    if t == "|" {
      assert s[0..1] == t;
    } else {
      WordEndIs(s, 0, |t|);
      assert s[0..|t|] == t;
    }
  }

  /** Joining well-formed tokens with single spaces and tokenizing gives them back. */
  lemma {:induction false} JoinInverts(ts: seq<string>)
    requires forall k :: 0 <= k < |ts| ==> IsToken(ts[k])
    ensures Tokens(Join(ts)) == ts
  {
    if |ts| == 1 {
      FirstToken(ts[0], "");
      assert ts[0] + "" == ts[0];
    } else if |ts| > 1 {
      var more := Join(ts[1..]);
      var s := ts[0] + (" " + more);
      assert Join(ts) == s;
      FirstToken(ts[0], " " + more);
      assert s[|ts[0]|] == ' ';
      assert s == (ts[0] + " ") + more;
      TokensShift(ts[0] + " ", more, 0);
      JoinInverts(ts[1..]);
    }
  }

  /** For any line, joining its tokens from any position on and tokenizing again gives exactly those
      tokens, and nothing for an empty tail. */
  lemma RoundTrip(line: string, from: nat)
    requires from <= |Tokens(line)|
    ensures Tokens(Join(Tokens(line)[from..])) == Tokens(line)[from..]
  {
    TokensWellFormed(line);
    JoinInverts(Tokens(line)[from..]);
  }

  // ---------------------------------------------------------------- the length of the join

  lemma {:induction false} JoinLengthFrom(s: string, i: nat)
    requires i <= |s|
    ensures TokensFrom(s, i) != [] ==> |Join(TokensFrom(s, i))| + 1 <= 2 * (|s| - i)
    ensures (forall k :: i <= k < |s| ==> s[k] != '|') ==> |Join(TokensFrom(s, i))| <= |s| - i
    decreases |s| - i
  {
    if i < |s| {
      if IsSpace(s[i]) || s[i] == '|' {
        JoinLengthFrom(s, i + 1);
      } else {
        var e := WordEnd(s, i);
        JoinLengthFrom(s, e);
        if e < |s| && IsSpace(s[e]) { JoinLengthFrom(s, e + 1); }
      }
    }
  }

  function Pipes(n: nat): (s: string)
    ensures |s| == n && forall k :: 0 <= k < n ==> s[k] == '|'
  {
    seq(n, _ => '|')
  }

  lemma {:induction false} PipesJoin(n: nat, i: nat)
    requires i < n
    ensures |TokensFrom(Pipes(n), i)| == n - i
    ensures |Join(TokensFrom(Pipes(n), i))| == 2 * (n - i) - 1
    decreases n - i
  {
    if i + 1 < n { PipesJoin(n, i + 1); }
  }

  /** The join of a non-blank line of length n has at most 2n - 1 characters, a bound reached by n
      pipes, and at most n if the line has no pipe. */
  lemma JoinLength(line: string)
    ensures Tokens(line) != [] ==> |Join(Tokens(line))| <= 2 * |line| - 1
    ensures (forall k :: 0 <= k < |line| ==> line[k] != '|') ==> |Join(Tokens(line))| <= |line|
    ensures |line| > 0 ==> |Join(Tokens(Pipes(|line|)))| == 2 * |line| - 1
  {
    JoinLengthFrom(line, 0);
    if |line| > 0 { PipesJoin(|line|, 0); }
  }
}
