/** What boost::tokenizer runs on: a tokenizer function advances through the
    input one token a call.  Its state and the outcome of a call are values here;
    the classes that update them in place are proved against these. */
module Tokens {

  /** One call: true with a token, false, or escaped_list_error. */
  datatype Outcome<S> =
    | Emitted(next: nat, state: S, token: string)
    | Ended(next: nat, state: S)
    | Threw(next: nat, state: S, partial: string)

  type TokenizerFunc<!S> = (S, string, nat) -> Outcome<S>

  /** Calling f again and again from position pos gives exactly toks and then false. */
  ghost predicate Yields<S(!new)>(f: TokenizerFunc<S>, s: S, input: string, pos: nat, toks: seq<string>)
    decreases |toks|
  {
    match f(s, input, pos)
    case Emitted(next, s', token) =>
      toks != [] && toks[0] == token && Yields(f, s', input, next, toks[1..])
    case Ended(_, _) => toks == []
    case Threw(_, _, _) => false
  }

  /** ... and then an exception. */
  ghost predicate FailsAfter<S(!new)>(f: TokenizerFunc<S>, s: S, input: string, pos: nat, toks: seq<string>)
    decreases |toks|
  {
    match f(s, input, pos)
    case Emitted(next, s', token) =>
      toks != [] && toks[0] == token && FailsAfter(f, s', input, next, toks[1..])
    case Ended(_, _) => false
    case Threw(_, _, _) => toks == []
  }

  ghost predicate Fails<S(!new)>(f: TokenizerFunc<S>, s: S, input: string, pos: nat) {
    exists toks :: FailsAfter(f, s, input, pos, toks)
  }

  /** A reading that comes to an end, in one of the two ways. */
  ghost predicate Gives<S(!new)>(f: TokenizerFunc<S>, s: S, input: string, pos: nat, toks: seq<string>, fails: bool) {
    if fails then FailsAfter(f, s, input, pos, toks) else Yields(f, s, input, pos, toks)
  }

  /** An iterator asks nothing of its function on an empty range. */
  ghost predicate IteratorYields<S(!new)>(f: TokenizerFunc<S>, s: S, input: string, toks: seq<string>) {
    if input == "" then toks == [] else Yields(f, s, input, 0, toks)
  }

  /** The same for the range from begin on. */
  ghost predicate IteratorGives<S(!new)>(f: TokenizerFunc<S>, s: S, input: string, begin: nat,
                                         toks: seq<string>, fails: bool)
  {
    if begin == |input| then toks == [] && !fails else Gives(f, s, input, begin, toks, fails)
  }

  lemma {:induction false} YieldsUnique<S(!new)>(f: TokenizerFunc<S>, s: S, input: string, pos: nat,
                                                 toks: seq<string>, toks': seq<string>)
    requires Yields(f, s, input, pos, toks) && Yields(f, s, input, pos, toks')
    ensures toks == toks'
    decreases |toks|
  {
    match f(s, input, pos)
    case Emitted(next, s', token) =>
      YieldsUnique(f, s', input, next, toks[1..], toks'[1..]);
      assert toks == [toks[0]] + toks[1..] && toks' == [toks'[0]] + toks'[1..];
    case Ended(_, _) =>
    case Threw(_, _, _) => assert false;
  }

  /** An input has at most one reading. */
  lemma {:induction false} GivesUnique<S(!new)>(f: TokenizerFunc<S>, s: S, input: string, pos: nat,
                                                toks: seq<string>, fails: bool, toks': seq<string>, fails': bool)
    requires Gives(f, s, input, pos, toks, fails) && Gives(f, s, input, pos, toks', fails')
    ensures toks == toks' && fails == fails'
    decreases |toks|
  {
    match f(s, input, pos)
    case Emitted(next, s', token) =>
      GivesUnique(f, s', input, next, toks[1..], fails, toks'[1..], fails');
      assert toks == [toks[0]] + toks[1..] && toks' == [toks'[0]] + toks'[1..];
    case Ended(_, _) =>
    case Threw(_, _, _) =>
  }

  lemma GivesMore<S(!new)>(f: TokenizerFunc<S>, s: S, input: string, pos: nat,
                           next: nat, s': S, token: string, rest: seq<string>, fails: bool)
    requires f(s, input, pos) == Emitted(next, s', token)
    ensures Gives(f, s, input, pos, [token] + rest, fails) <==> Gives(f, s', input, next, rest, fails)
  {
    assert ([token] + rest)[1..] == rest;
  }

  lemma YieldsMore<S(!new)>(f: TokenizerFunc<S>, s: S, input: string, pos: nat,
                            next: nat, s': S, token: string, rest: seq<string>)
    requires f(s, input, pos) == Emitted(next, s', token)
    ensures Yields(f, s, input, pos, [token] + rest) <==> Yields(f, s', input, next, rest)
  {
    assert ([token] + rest)[1..] == rest;
  }

  /** A last token, after which the function ends. */
  lemma YieldsLast<S(!new)>(f: TokenizerFunc<S>, s: S, input: string, pos: nat, next: nat, s': S, token: string)
    requires f(s, input, pos) == Emitted(next, s', token) && f(s', input, next).Ended?
    ensures Yields(f, s, input, pos, [token])
  {
    assert [token][1..] == [];
    assert Yields(f, s', input, next, []);
  }

  // ----- positions ---------------------------------------------------------------------

  /** The position and state after n successful calls. */
  ghost predicate Reaches<S(!new)>(f: TokenizerFunc<S>, input: string, i: nat, s: S, n: nat, i': nat, s': S)
    decreases n
  {
    if n == 0 then i == i' && s == s'
    else
      var out := f(s, input, i);
      out.Emitted? && Reaches(f, input, out.next, out.state, n - 1, i', s')
  }

  /** None of n calls takes any input. */
  ghost predicate TakesNothing<S(!new)>(f: TokenizerFunc<S>, input: string, i: nat, s: S, n: nat)
    decreases n
  {
    n > 0 ==>
      var out := f(s, input, i);
      out.next == i && TakesNothing(f, input, i, out.state, n - 1)
  }

  /** The function never moves back, and stays in the input. */
  ghost predicate Forward<S(!new)>(f: TokenizerFunc<S>) {
    forall s, input: string, i: nat :: i <= |input| ==> i <= f(s, input, i).next <= |input|
  }

  /** After n calls the position is the old one exactly if none of them took any input. */
  lemma {:induction false} SamePosition<S(!new)>(f: TokenizerFunc<S>, input: string, i: nat, s: S, n: nat,
                                                 i': nat, s': S)
    requires Forward(f) && i <= |input| && Reaches(f, input, i, s, n, i', s')
    ensures i <= i' <= |input|
    ensures i == i' <==> TakesNothing(f, input, i, s, n)
    decreases n
  {
    if n > 0 {
      var out := f(s, input, i);
      SamePosition(f, input, out.next, out.state, n - 1, i', s');
    }
  }

  // ----- concatenation -----------------------------------------------------------------

  function Concat(toks: seq<string>): string {
    if toks == [] then "" else toks[0] + Concat(toks[1..])
  }

  lemma ConcatCons(t: string, rest: seq<string>)
    ensures Concat([t] + rest) == t + Concat(rest)
  {
    assert ([t] + rest)[1..] == rest;
  }

  lemma AppendAssoc(a: string, b: string, c: string)
    ensures (a + b) + c == a + (b + c) && a + "" == a && "" + a == a
  {}

  lemma OneChar(s: string, i: nat)
    requires i < |s|
    ensures s[i..i + 1] == [s[i]] == "" + [s[i]]
  {}

  lemma EmptySlice(s: string, i: nat)
    requires i <= |s|
    ensures s[i..i] == ""
  {}

  lemma SliceStep(s: string, i: nat, j: nat)
    requires i < j <= |s|
    ensures s[i..j] == [s[i]] + s[i + 1..j]
    ensures s[i..j] == s[i..j - 1] + [s[j - 1]]
  {}

  lemma {:induction false} ConcatAppend(a: seq<string>, b: seq<string>)
    ensures Concat(a + b) == Concat(a) + Concat(b)
  {
    if a == [] {
      assert a + b == b;
    } else {
      assert (a + b)[1..] == a[1..] + b;
      ConcatAppend(a[1..], b);
    }
  }

  // ----- fast and slow tokens --------------------------------------------------------

  /** Whether the input iterator can be copied and re-read, or only stepped. */
  datatype Category = MultiPass | InputOnly

  /** assign_or_plus_equal: a multi-pass iterator assigns the whole range at the end,
      an input iterator appends character by character. */
  function AssignRange(c: Category, input: string, from: nat, to: nat, tok: string): string
    requires from <= to <= |input|
  {
    if c.MultiPass? then input[from..to] else tok
  }

  function PlusEqual(c: Category, tok: string, ch: char): string {
    if c.MultiPass? then tok else tok + [ch]
  }

  function Clear(c: Category, tok: string): string {
    if c.MultiPass? then tok else ""
  }
}
