/** offset_separator: cutting the input into pieces of given lengths. */
module OffsetSeparator {
  import opened Tokens

  datatype Offsets = Offsets(lengths: seq<int>, wrap: bool, partialLast: bool)

  /** How many characters one call takes: the wanted length, or what is left. */
  function Taken(c: int, left: nat): nat {
    if c <= 0 then 0 else if c <= left then c else left
  }

  /** One call; the state is the index of the next length. */
  function Call(o: Offsets, cur: nat, input: string, i: nat): Outcome<nat> {
    if i >= |input| || o.lengths == [] || (cur >= |o.lengths| && !o.wrap) then Ended(i, cur)
    else
      var k := if cur >= |o.lengths| then 0 else cur;
      var n := Taken(o.lengths[k], |input| - i);
      if !o.partialLast && n < o.lengths[k] - 1 then Ended(i + n, k)
      else Emitted(i + n, k + 1, input[i..i + n])
  }

  function Caller(o: Offsets): TokenizerFunc<nat> {
    (cur: nat, input: string, i: nat) => Call(o, cur, input, i)
  }

  class Separator {
    const offsets: seq<int>
    var current: nat
    const wrap: bool
    const partialLast: bool

    ghost predicate Valid()
      reads this
    {
      current <= |offsets|
    }

    function Config(): Offsets {
      Offsets(offsets, wrap, partialLast)
    }

    constructor (offsets: seq<int>, wrap: bool, partialLast: bool)
      ensures Valid() && current == 0 && Config() == Offsets(offsets, wrap, partialLast)
    {
      this.offsets, current, this.wrap, this.partialLast := offsets, 0, wrap, partialLast;
    }

    /** Without arguments: single characters. */
    constructor Default()
      ensures Valid() && current == 0 && Config() == Offsets([1], true, true)
    {
      offsets, current, wrap, partialLast := [1], 0, true, true;
    }

    method Reset()
      modifies this
      ensures Valid() && current == 0
    {
      current := 0;
    }

    /** Both iterator categories take the same steps and deliver the same tokens. */
    method Next(cat: Category, input: string, next0: nat, tok0: string) returns (ok: bool, next: nat, tok: string)
      requires Valid() && offsets != [] && next0 <= |input|
      modifies this
      ensures Valid()
      ensures var out := Call(Config(), old(current), input, next0);
              ok == out.Emitted? && next == out.next && current == out.state && (ok ==> tok == out.token)
    {
      tok, next := Clear(cat, tok0), next0;
      var start := next;
      if next == |input| {
        return false, next, tok;
      }
      if current == |offsets| {
        if wrap {
          current := 0;
        } else {
          return false, next, tok;
        }
      }
      var c := offsets[current];
      var i := 0;
      while i < c
        invariant 0 <= i && (i <= c || i == 0) && next == start + i <= |input|
        invariant tok == if cat.MultiPass? then Clear(cat, tok0) else input[start..next]
      {
        if next == |input| {
          break;
        }
        tok := PlusEqual(cat, tok, input[next]);
        next := next + 1;
        i := i + 1;
      }
      tok := AssignRange(cat, input, start, next, tok);
      if !partialLast {
        if i < c - 1 {
          return false, next, tok;
        }
      }
      current := current + 1;
      ok := true;
    }
  }

  // ----- when reading comes to an end -----------------------------------------------------

  ghost predicate SomePositive(lengths: seq<int>) {
    exists k :: 0 <= k < |lengths| && lengths[k] > 0
  }

  /** The lengths get used up, or one of them takes something. */
  ghost predicate Finite(o: Offsets) {
    o.lengths != [] && (!o.wrap || SomePositive(o.lengths))
  }

  ghost predicate UsedUp(o: Offsets, cur: nat) {
    cur >= |o.lengths| && !o.wrap
  }

  /** The length whose turn it is. */
  function Turn(o: Offsets, cur: nat): (k: nat)
    requires o.lengths != []
    ensures k < |o.lengths|
  {
    if cur >= |o.lengths| then 0 else cur
  }

  function Want(o: Offsets, cur: nat): nat
    requires o.lengths != []
  {
    if o.lengths[Turn(o, cur)] > 0 then o.lengths[Turn(o, cur)] else 0
  }

  ghost function APositive(lengths: seq<int>): (k: nat)
    requires SomePositive(lengths)
    ensures k < |lengths| && lengths[k] > 0
  {
    var k: nat :| k < |lengths| && lengths[k] > 0;
    k
  }

  /** Calls until the lengths are used up or a positive one has its turn. */
  ghost function Gap(o: Offsets, cur: nat): nat
    requires Finite(o)
  {
    if !o.wrap then if cur < |o.lengths| then |o.lengths| - cur else 0
    else
      var p := APositive(o.lengths);
      if Turn(o, cur) <= p then p - Turn(o, cur) else |o.lengths| - Turn(o, cur) + p
  }

  /** When all that is left of s is shorter than the wanted length. */
  ghost predicate Short(o: Offsets, cur: nat, s: string, i: nat)
    requires o.lengths != [] && i <= |s|
  {
    |s| - i < Want(o, cur)
  }

  /** The pieces of s from i on, taken in turn with the lengths, until s or the lengths
      are used up.  A last piece that lacks two or more characters may not count. */
  ghost function Pieces(o: Offsets, cur: nat, s: string, i: nat): seq<string>
    requires Finite(o) && i <= |s|
    decreases |s| - i, Gap(o, cur)
  {
    if i == |s| || UsedUp(o, cur) then []
    else if Short(o, cur, s, i) then
      if o.partialLast || Want(o, cur) - (|s| - i) <= 1 then [s[i..]] else []
    else [s[i..i + Want(o, cur)]] + Pieces(o, Turn(o, cur) + 1, s, i + Want(o, cur))
  }

  /** By how many characters the last piece is short. */
  ghost function Shortfall(o: Offsets, cur: nat, s: string, i: nat): nat
    requires Finite(o) && i <= |s|
    decreases |s| - i, Gap(o, cur)
  {
    if i == |s| || UsedUp(o, cur) then 0
    else if Short(o, cur, s, i) then Want(o, cur) - (|s| - i)
    else Shortfall(o, Turn(o, cur) + 1, s, i + Want(o, cur))
  }

  /** How many characters are left over when the lengths are used up. */
  ghost function LeftOver(o: Offsets, cur: nat, s: string, i: nat): (n: nat)
    requires Finite(o) && i <= |s|
    ensures n <= |s| - i && (o.wrap ==> n == 0)
    decreases |s| - i, Gap(o, cur)
  {
    if i == |s| then 0
    else if UsedUp(o, cur) then |s| - i
    else if Short(o, cur, s, i) then 0
    else LeftOver(o, Turn(o, cur) + 1, s, i + Want(o, cur))
  }

  ghost predicate LastCounts(o: Offsets, cur: nat, s: string, i: nat)
    requires Finite(o) && i <= |s|
  {
    o.partialLast || Shortfall(o, cur, s, i) <= 1
  }

  lemma CallIsPiece(o: Offsets, cur: nat, input: string, i: nat)
    requires Finite(o) && i <= |input|
    ensures var out := Call(o, cur, input, i);
            if i == |input| || UsedUp(o, cur) then out.Ended?
            else if Short(o, cur, input, i) then
              if o.partialLast || Want(o, cur) - (|input| - i) <= 1
              then out == Emitted(|input|, Turn(o, cur) + 1, input[i..]) else out.Ended?
            else out == Emitted(i + Want(o, cur), Turn(o, cur) + 1, input[i..i + Want(o, cur)])
  {
    assert input[i..|input|] == input[i..];
  }

  /** The calls yield the pieces. */
  lemma {:induction false} YieldsPieces(o: Offsets, cur: nat, input: string, i: nat)
    requires Finite(o) && i <= |input|
    ensures Yields(Caller(o), cur, input, i, Pieces(o, cur, input, i))
    decreases |input| - i, Gap(o, cur)
  {
    CallIsPiece(o, cur, input, i);
    if i < |input| && !UsedUp(o, cur) {
      var k, next := Turn(o, cur), i + Want(o, cur);
      if !Short(o, cur, input, i) {
        YieldsPieces(o, k + 1, input, next);
        YieldsMore(Caller(o), cur, input, i, next, k + 1, input[i..next], Pieces(o, k + 1, input, next));
      } else if o.partialLast || Want(o, cur) - (|input| - i) <= 1 {
        YieldsLast(Caller(o), cur, input, i, |input|, k + 1, input[i..]);
      }
    }
  }

  /** Wrapping round lengths that take nothing, the separator delivers empty tokens for ever. */
  lemma {:induction false} NeverEnds(o: Offsets, cur: nat, input: string, i: nat, toks: seq<string>)
    requires o.wrap && o.lengths != [] && !SomePositive(o.lengths) && i < |input|
    ensures !Yields(Caller(o), cur, input, i, toks)
    decreases |toks|
  {
    assert o.lengths[Turn(o, cur)] <= 0;
    if toks != [] {
      NeverEnds(o, Turn(o, cur) + 1, input, i, toks[1..]);
    }
  }

  /** A non-empty input has a token list exactly if the lengths get used up or one is
      positive. */
  lemma EndsExactlyIf(o: Offsets, input: string)
    requires o.lengths != [] && input != ""
    ensures (exists toks :: IteratorYields(Caller(o), 0, input, toks)) <==> !o.wrap || SomePositive(o.lengths)
  {
    if Finite(o) {
      YieldsPieces(o, 0, input, 0);
      assert IteratorYields(Caller(o), 0, input, Pieces(o, 0, input, 0));
    } else if toks :| IteratorYields(Caller(o), 0, input, toks) {
      NeverEnds(o, 0, input, 0, toks);
    }
  }

  // ----- what is read -----------------------------------------------------------------------

  /** Each token has the length whose turn it is, the last one less the shortfall; without
      wrapping there is at most one token for each length. */
  ghost predicate FollowLengths(o: Offsets, cur: nat, toks: seq<string>, short: nat)
    requires o.lengths != []
    decreases |toks|
  {
    toks != [] ==>
      && !UsedUp(o, cur)
      && if |toks| == 1 then |toks[0]| == Want(o, cur) - short
         else |toks[0]| == Want(o, cur) && FollowLengths(o, Turn(o, cur) + 1, toks[1..], short)
  }

  /** Only the last token is short. */
  lemma {:induction false} PiecesFollowLengths(o: Offsets, cur: nat, s: string, i: nat)
    requires Finite(o) && i <= |s|
    ensures FollowLengths(o, cur, Pieces(o, cur, s, i), if LastCounts(o, cur, s, i) then Shortfall(o, cur, s, i) else 0)
    ensures Pieces(o, cur, s, i) == [] && LastCounts(o, cur, s, i) ==> Shortfall(o, cur, s, i) == 0
    decreases |s| - i, Gap(o, cur)
  {
    if i < |s| && !UsedUp(o, cur) && !Short(o, cur, s, i) {
      var k, next := Turn(o, cur), i + Want(o, cur);
      PiecesFollowLengths(o, k + 1, s, next);
      var rest := Pieces(o, k + 1, s, next);
      assert ([s[i..next]] + rest)[1..] == rest;
    }
  }

  /** Nothing is lost but what the lengths do not reach ... */
  lemma {:induction false} PiecesConserve(o: Offsets, cur: nat, s: string, i: nat, to: nat)
    requires Finite(o) && i <= |s| && LastCounts(o, cur, s, i) && to == |s| - LeftOver(o, cur, s, i)
    ensures Concat(Pieces(o, cur, s, i)) == s[i..to]
    decreases |s| - i, Gap(o, cur)
  {
    if i == |s| || UsedUp(o, cur) {
      EmptySlice(s, i);
    } else if Short(o, cur, s, i) {
      WholeSuffix(s, i);
    } else {
      var k, next := Turn(o, cur), i + Want(o, cur);
      PiecesConserve(o, k + 1, s, next, to);
      ConcatSlice(s, i, next, to, Pieces(o, k + 1, s, next));
    }
  }

  /** ... and a last piece that is left out. */
  lemma {:induction false} PiecesFallShort(o: Offsets, cur: nat, s: string, i: nat)
    requires Finite(o) && i <= |s| && !LastCounts(o, cur, s, i)
    ensures |Concat(Pieces(o, cur, s, i))| < |s| - i
    decreases |s| - i, Gap(o, cur)
  {
    if !Short(o, cur, s, i) {
      var k, next := Turn(o, cur), i + Want(o, cur);
      PiecesFallShort(o, k + 1, s, next);
      ConcatSlice(s, i, next, next, Pieces(o, k + 1, s, next));
    }
  }

  lemma WholeSuffix(s: string, i: nat)
    requires i <= |s|
    ensures Concat([s[i..]]) == s[i..|s|]
  {
    ConcatCons(s[i..], []);
    AppendAssoc(s[i..], "", "");
  }

  lemma ConcatSlice(s: string, i: nat, j: nat, k: nat, rest: seq<string>)
    requires i <= j <= k <= |s|
    ensures Concat(rest) == s[j..k] ==> Concat([s[i..j]] + rest) == s[i..k]
    ensures |Concat([s[i..j]] + rest)| == j - i + |Concat(rest)|
  {
    ConcatCons(s[i..j], rest);
    assert s[i..k] == s[i..j] + s[j..k];
  }

  /** What the lengths from cur on take together. */
  function Total(o: Offsets, cur: nat): nat
    requires o.lengths != []
    decreases |o.lengths| - cur
  {
    if cur >= |o.lengths| then 0 else Want(o, cur) + Total(o, cur + 1)
  }

  lemma {:induction false} LeftOverIsDifference(o: Offsets, cur: nat, s: string, i: nat)
    requires !o.wrap && o.lengths != [] && i <= |s|
    ensures LeftOver(o, cur, s, i) == if Total(o, cur) < |s| - i then |s| - i - Total(o, cur) else 0
    decreases |o.lengths| - cur
  {
    if i < |s| && !UsedUp(o, cur) && !Short(o, cur, s, i) {
      LeftOverIsDifference(o, cur + 1, s, i + Want(o, cur));
    }
  }

  /** The whole input comes out exactly if the lengths reach its end and, with partial
      tokens switched off, the last piece lacks at most one character: a last piece that
      lacks one is delivered all the same. */
  lemma PartialLastIsOffByOne(o: Offsets, input: string, toks: seq<string>)
    requires Finite(o) && IteratorYields(Caller(o), 0, input, toks)
    ensures Concat(toks) == input <==>
              && (o.wrap || Total(o, 0) >= |input|)
              && (o.partialLast || Shortfall(o, 0, input, 0) <= 1)
    ensures FollowLengths(o, 0, toks, if LastCounts(o, 0, input, 0) then Shortfall(o, 0, input, 0) else 0)
  {
    YieldsPieces(o, 0, input, 0);
    if input != "" {
      YieldsUnique(Caller(o), 0, input, 0, toks, Pieces(o, 0, input, 0));
    }
    if LastCounts(o, 0, input, 0) {
      PiecesConserve(o, 0, input, 0, |input| - LeftOver(o, 0, input, 0));
    } else {
      PiecesFallShort(o, 0, input, 0);
    }
    PiecesFollowLengths(o, 0, input, 0);
    if !o.wrap {
      LeftOverIsDifference(o, 0, input, 0);
    }
    assert input[0..|input|] == input;
  }

  // ----- what iterator equality sees -----------------------------------------------------------

  lemma CallerForward(o: Offsets)
    ensures Forward(Caller(o))
  {}

  /** None of the next n lengths in turn is positive. */
  ghost predicate NonePositive(o: Offsets, cur: nat, n: nat)
    requires o.lengths != []
    decreases n
  {
    n > 0 ==> o.lengths[Turn(o, cur)] <= 0 && NonePositive(o, Turn(o, cur) + 1, n - 1)
  }

  /** Calls take no input exactly if the lengths whose turns they are are not positive. */
  lemma {:induction false} OnlyZeroLengthsTakeNothing(o: Offsets, input: string, i: nat, cur: nat, n: nat,
                                                        i': nat, cur': nat)
    requires o.lengths != [] && i <= |input| && Reaches(Caller(o), input, i, cur, n, i', cur')
    ensures TakesNothing(Caller(o), input, i, cur, n) <==> NonePositive(o, cur, n)
    decreases n
  {
    if n > 0 {
      var out := Call(o, cur, input, i);
      assert out.next == i <==> o.lengths[Turn(o, cur)] <= 0;
      OnlyZeroLengthsTakeNothing(o, input, out.next, out.state, n - 1, i', cur');
    }
  }

  /** Three of four wanted characters are delivered although partial tokens are off. */
  lemma ThreeOfFour()
    ensures IteratorYields(Caller(Offsets([4], true, false)), 0, "abc", ["abc"])
  {
    var o := Offsets([4], true, false);
    assert "abc"[0..3] == "abc";
    YieldsLast(Caller(o), 0, "abc", 0, 3, 1, "abc");
  }

  /** A zero among the lengths delivers an empty token each time it has its turn. */
  lemma ZeroThenThree()
    ensures IteratorYields(Caller(Offsets([0, 3], true, true)), 0, "abc", ["", "abc"])
  {
    var o := Offsets([0, 3], true, true);
    assert "abc"[0..0] == "" && "abc"[0..3] == "abc";
    YieldsLast(Caller(o), 1, "abc", 0, 3, 2, "abc");
    YieldsMore(Caller(o), 0, "abc", 0, 0, 1, "", ["abc"]);
    assert [""] + ["abc"] == ["", "abc"];
  }
}
