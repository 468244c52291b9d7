/** The tokenizer's loops and its growable vector, proved against Tokenizer. `memory` tells for each
    allocation in turn whether it succeeds; where one fails the vector drops a token, and nothing
    worse happens.
 */
module TokenizerObject {
  import opened Tokenizer

  /** A vector entry: a null pointer or a token. */
  datatype Entry = Null | Text(text: string)

  const INITIAL_CAPACITY: nat := 8

  /** `a` is `b` with some elements left out. */
  ghost predicate Subsequence(a: seq<string>, b: seq<string>) {
    if a == [] then true
    else if b == [] then false
    else (a[0] == b[0] && Subsequence(a[1..], b[1..])) || Subsequence(a, b[1..])
  }

  lemma EmptySubsequence()
    ensures Subsequence([], [])
  {
  }

  lemma {:induction false} SubsequenceAppend(a: seq<string>, b: seq<string>, t: string)
    requires Subsequence(a, b)
    ensures Subsequence(a, b + [t]) && Subsequence(a + [t], b + [t])
    decreases b
  {
    if b == [] {
      assert a + [t] == [t] && b + [t] == [t];
    } else {
      assert (b + [t])[1..] == b[1..] + [t];
      if a == [] {
        SubsequenceAppend([], b[1..], t);
        assert a + [t] == [] + [t];
      } else {
        if Subsequence(a, b[1..]) { SubsequenceAppend(a, b[1..], t); }
        if a[0] == b[0] && Subsequence(a[1..], b[1..]) {
          SubsequenceAppend(a[1..], b[1..], t);
          assert (a + [t])[1..] == a[1..] + [t];
        }
      }
    }
  }

  /** token_list_t */
  class TokenList {
    var tokens: array<Entry>
    var count: nat

    /** There is always room for the terminating null. */
    ghost predicate Valid()
      reads this, tokens
    {
      count < tokens.Length && forall k :: 0 <= k < count ==> tokens[k].Text?
    }

    ghost function Contents(): (r: seq<string>)
      reads this, tokens
      requires Valid()
      ensures |r| == count && forall k :: 0 <= k < count ==> tokens[k] == Text(r[k])
    {
      seq(count, k requires 0 <= k < tokens.Length && tokens[k].Text? reads this, tokens => tokens[k].text)
    }

    /** The vector ends with a null, as execve wants it. */
    ghost predicate Terminated()
      reads this, tokens
    {
      Valid() && tokens[count] == Null
    }

    /** The store behind the loop of shell_tokenize. */
    method Terminate()
      requires Valid()
      modifies tokens
      ensures Terminated() && Valid() && Contents() == old(Contents())
    {
      tokens[count] := Null;
    }

    constructor ()
      ensures Valid() && Contents() == [] && fresh(tokens) && tokens.Length == INITIAL_CAPACITY
    {
      tokens := new Entry[INITIAL_CAPACITY](_ => Null);
      count := 0;
    }

    /** internal_add_token, given whether the copy of the word and a larger vector can be had. */
    method Add(word: string, copied: bool, enlarged: bool)
      requires Valid()
      modifies this, tokens
      ensures Valid() && (tokens == old(tokens) || fresh(tokens))
      ensures Contents()
              == if word != "" && copied && (enlarged || old(count + 1 < tokens.Length)) then old(Contents()) + [word]
                 else old(Contents())
    {
      if word == "" || !copied {
        return;
      }
      if count + 1 >= tokens.Length {
        if !enlarged {
          return;
        }
        Enlarge();
      }
      ghost var before := Contents();
      tokens[count] := Text(word);
      count := count + 1;
      assert Contents() == before + [word];
    }

    /** The realloc of internal_add_token. */
    method Enlarge()
      requires Valid()
      modifies `tokens
      ensures Valid() && fresh(tokens) && tokens.Length == 2 * old(tokens.Length)
      ensures Contents() == old(Contents())
    {
      var bigger := new Entry[2 * tokens.Length](_ => Null);
      ghost var before := Contents();
      for k := 0 to count
        invariant Valid() && tokens == old(tokens) && Contents() == before
        invariant forall j :: 0 <= j < k ==> bigger[j] == tokens[j]
      {
        bigger[k] := tokens[k];
      }
      tokens := bigger;
      assert Contents() == before;
    }
  }

  /** internal_trim_whitespace: a view without the whitespace at both ends. */
  method Trim(str: string) returns (start: nat, len: nat)
    ensures start + len <= |str|
    ensures forall k :: 0 <= k < |str| && !(start <= k < start + len) ==> IsSpace(str[k])
    ensures len > 0 ==> !IsSpace(str[start]) && !IsSpace(str[start + len - 1])
  {
    start := 0;
    while start < |str| && IsSpace(str[start])
      invariant start <= |str| && forall k :: 0 <= k < start ==> IsSpace(str[k])
    {
      start := start + 1;
    }
    if start == |str| {
      return start, 0;
    }
    var end := |str| - 1;
    while end > start && IsSpace(str[end])
      invariant start <= end < |str| && forall k :: end < k < |str| ==> IsSpace(str[k])
    {
      end := end - 1;
    }
    len := end - start + 1;
  }

  lemma {:induction false} BlankFrom(s: string, i: nat)
    requires i <= |s| && forall k :: i <= k < |s| ==> IsSpace(s[k])
    ensures TokensFrom(s, i) == []
    decreases |s| - i
  {
    if i < |s| { BlankFrom(s, i + 1); }
  }

  lemma {:induction false} SkipSpaces(s: string, i: nat, j: nat)
    requires i <= j <= |s| && forall k :: i <= k < j ==> IsSpace(s[k])
    ensures TokensFrom(s, i) == TokensFrom(s, j)
    decreases j - i
  {
    if i < j { SkipSpaces(s, i + 1, j); }
  }

  lemma {:induction false} SomeToken(s: string, i: nat, k: nat)
    requires i <= k < |s| && !IsSpace(s[k])
    ensures TokensFrom(s, i) != []
    decreases k - i
  {
    if IsSpace(s[i]) { SomeToken(s, i + 1, k); }
  }

  /** The body of the scan: the next token of `s`, where everything from `end` on is whitespace. */
  method NextToken(s: string, p: nat, end: nat) returns (found: bool, start: nat, q: nat)
    requires p < end <= |s| && forall k :: end <= k < |s| ==> IsSpace(s[k])
    ensures p <= start <= q <= end && p < q
    ensures !found ==> TokensFrom(s, p) == []
    ensures found ==> start < q && TokensFrom(s, p) == [s[start..q]] + TokensFrom(s, q)
  {
    q := p;
    while q < end && IsSpace(s[q])
      invariant p <= q <= end && forall k :: p <= k < q ==> IsSpace(s[k])
    {
      q := q + 1;
    }
    SkipSpaces(s, p, q);
    if q >= end {
      BlankFrom(s, q);
      return false, q, q;
    }
    start := q;
    found := true;
    if s[q] == '|' {
      q := q + 1;
      return;
    }
    while q < end && !IsSpace(s[q]) && s[q] != '|'
      invariant start <= q <= end && forall k :: start <= k < q ==> !Boundary(s[k])
      invariant q == start ==> !Boundary(s[q])
    {
      q := q + 1;
    }
    WordEndIs(s, start, q);
  }

  ghost predicate AlwaysGrants(memory: nat -> bool) {
    forall k :: memory(k)
  }

  lemma Granted(memory: nat -> bool, k: nat)
    ensures AlwaysGrants(memory) ==> memory(k) && memory(k + 1)
  {
  }

  /** One call of internal_add_token by the scan: `done` are the tokens found before, `granted` says
      that all memory asked for is there. */
  method AddFound(list: TokenList, word: string, copied: bool, enlarged: bool,
                  ghost done: seq<string>, ghost granted: bool)
    requires list.Valid() && word != "" && (granted ==> copied && enlarged)
    requires Subsequence(list.Contents(), done) && (granted ==> list.Contents() == done)
    modifies list, list.tokens
    ensures list.Valid() && (list.tokens == old(list.tokens) || fresh(list.tokens))
    ensures Subsequence(list.Contents(), done + [word]) && (granted ==> list.Contents() == done + [word])
  {
    hide *;
    SubsequenceAppend(list.Contents(), done, word);
    list.Add(word, copied, enlarged);
  }

  lemma FromStart(s: string)
    ensures Tokens(s) == TokensFrom(s, 0)
  {
  }

  /** shell_tokenize: null exactly for a blank line or when the list itself cannot be had. The list
      is the tokens of the line - or, where `memory` fails, some of them in order - and always leaves
      room for its null, so the last enlargement in the program is never reached. */
  method Tokenize(input: string, memory: nat -> bool) returns (list: TokenList?)
    ensures list == null <==> Tokens(input) == [] || !memory(0) || !memory(1)
    ensures list != null ==>
              && fresh(list) && list.Terminated() && list.Valid()
              && Subsequence(list.Contents(), Tokens(input))
              && (AlwaysGrants(memory) ==> list.Contents() == Tokens(input))
  {
    hide *;
    FromStart(input);
    var from, len := Trim(input);
    if len < 1 {
      BlankFrom(input, 0);
      return null;
    }
    SomeToken(input, 0, from);
    if !memory(0) || !memory(1) {
      return null;
    }
    list := new TokenList();
    var p, end, asked := from, from + len, 2;
    ghost var done: seq<string> := [];
    SkipSpaces(input, 0, from);
    EmptySubsequence();
    while p < end
      invariant from <= p <= end
      invariant fresh(list) && fresh(list.tokens) && list.Valid()
      invariant done + TokensFrom(input, p) == Tokens(input)
      invariant Subsequence(list.Contents(), done) && (AlwaysGrants(memory) ==> list.Contents() == done)
      decreases end - p
    {
      var found, start, q := NextToken(input, p, end);
      if !found {
        break;
      }
      var word := input[start..q];
      Granted(memory, asked);
      AddFound(list, word, memory(asked), memory(asked + 1), done, AlwaysGrants(memory));
      asked := asked + 2;
      assert done + ([word] + TokensFrom(input, q)) == (done + [word]) + TokensFrom(input, q);
      done := done + [word];
      p := q;
    }
    if p == end {
      BlankFrom(input, p);
    }
    assert done == Tokens(input);
    list.Terminate();
  }
}
