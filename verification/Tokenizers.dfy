/** Whole tokenizers: each separator behind the iterator, from begin() to end(). */
module Tokenizers {
  import opened Tokens
  import opened TokenIterators
  import EscapedList
  import CharSeparator
  import OffsetSeparator

  /** A separator that keeps empty tokens; an empty input still has none. */
  method TokenizeKeeping(d: CharSeparator.Classes, input: string) returns (toks: seq<string>)
    ensures toks == if input == "" then [] else CharSeparator.KeepTokens(d, input, 0)
  {
    ghost var expected := if input == "" then [] else CharSeparator.KeepTokens(d, input, 0);
    if input != "" {
      CharSeparator.KeepModeReads(d, input, expected);
    }
    var thrown;
    thrown, toks := Visit(CharSeparator.Caller(d, CharSeparator.KeepEmptyTokens), (s: bool) => s, false, input,
                          expected, false);
  }

  method TokenizeDropping(d: CharSeparator.Classes, input: string) returns (toks: seq<string>)
    ensures toks == CharSeparator.DropTokens(d, input, 0)
  {
    CharSeparator.DropModeReads(d, false, input, CharSeparator.DropTokens(d, input, 0));
    var thrown;
    thrown, toks := Visit(CharSeparator.Caller(d, CharSeparator.DropEmptyTokens), (s: bool) => s, false, input,
                          CharSeparator.DropTokens(d, input, 0), false);
  }

  /** A separator that cuts by offsets. */
  method TokenizeByOffsets(o: OffsetSeparator.Offsets, input: string) returns (toks: seq<string>)
    requires OffsetSeparator.Finite(o)
    ensures toks == OffsetSeparator.Pieces(o, 0, input, 0)
    ensures Concat(toks) == input <==>
              && (o.wrap || OffsetSeparator.Total(o, 0) >= |input|)
              && (o.partialLast || OffsetSeparator.Shortfall(o, 0, input, 0) <= 1)
  {
    ghost var expected := OffsetSeparator.Pieces(o, 0, input, 0);
    OffsetSeparator.YieldsPieces(o, 0, input, 0);
    OffsetSeparator.PartialLastIsOffByOne(o, input, expected);
    var thrown;
    thrown, toks := Visit(OffsetSeparator.Caller(o), (k: nat) => 0, 0, input, expected, false);
  }

  /** Two valid iterators compare equal exactly when they are over one input and, the second
      being n calls ahead, none of those calls took any input. */
  lemma EqualIterators<S(!new)>(a: TokenIterator<S>, b: TokenIterator<S>, n: nat)
    requires a.valid && b.valid && a.begin <= |a.input| && Forward(a.func)
    requires a.input == b.input ==> Reaches(a.func, a.input, a.begin, a.f, n, b.begin, b.f)
    ensures a.Equal(b) <==> a.input == b.input && TakesNothing(a.func, a.input, a.begin, a.f, n)
  {
    if a.input == b.input {
      SamePosition(a.func, a.input, a.begin, a.f, n, b.begin, b.f);
    }
  }

  /** Keeping empty tokens: exactly neighbours of which the later stands at an empty field. */
  lemma EqualKeeping(a: TokenIterator<bool>, b: TokenIterator<bool>, d: CharSeparator.Classes, n: nat)
    requires a.valid && b.valid && a.input == b.input && a.begin <= |a.input| && n > 0
    requires a.func == CharSeparator.Caller(d, CharSeparator.KeepEmptyTokens)
    requires Reaches(a.func, a.input, a.begin, a.f, n, b.begin, b.f)
    ensures a.Equal(b) <==> n == 1 && !a.f && (a.begin == |a.input| || d.Delim(a.input[a.begin]))
  {
    CharSeparator.CallerForward(d, CharSeparator.KeepEmptyTokens);
    CharSeparator.OnlyEmptyFieldsTakeNothing(d, a.input, a.begin, a.f, n, b.begin, b.f);
    EqualIterators(a, b, n);
  }

  /** Dropping empty tokens: never. */
  lemma EqualDropping(a: TokenIterator<bool>, b: TokenIterator<bool>, d: CharSeparator.Classes, n: nat)
    requires a.valid && b.valid && a.input == b.input && a.begin <= |a.input| && n > 0
    requires a.func == CharSeparator.Caller(d, CharSeparator.DropEmptyTokens)
    requires Reaches(a.func, a.input, a.begin, a.f, n, b.begin, b.f)
    ensures !a.Equal(b)
  {
    CharSeparator.CallerForward(d, CharSeparator.DropEmptyTokens);
    CharSeparator.DroppersAdvance(d, a.input, a.begin, a.f, n, b.begin, b.f);
    EqualIterators(a, b, n);
  }

  /** An escaped list: exactly the field before a last separator and the blank behind it. */
  lemma EqualFields(a: TokenIterator<bool>, b: TokenIterator<bool>, x: EscapedList.Lexicon, n: nat)
    requires a.valid && b.valid && a.input == b.input && a.begin <= |a.input| && n > 0
    requires a.func == EscapedList.Caller(x)
    requires Reaches(a.func, a.input, a.begin, a.f, n, b.begin, b.f)
    ensures a.Equal(b) <==> n == 1 && a.begin == |a.input| && a.f
  {
    EscapedList.CallerForward(x);
    EscapedList.OnlyLastBlankTakesNothing(x, a.input, a.begin, a.f, n, b.begin, b.f);
    EqualIterators(a, b, n);
  }

  /** Offsets: exactly when none of the lengths in between is positive. */
  lemma EqualPieces(a: TokenIterator<nat>, b: TokenIterator<nat>, o: OffsetSeparator.Offsets, n: nat)
    requires a.valid && b.valid && a.input == b.input && a.begin <= |a.input| && o.lengths != []
    requires a.func == OffsetSeparator.Caller(o)
    requires Reaches(a.func, a.input, a.begin, a.f, n, b.begin, b.f)
    ensures a.Equal(b) <==> OffsetSeparator.NonePositive(o, a.f, n)
  {
    OffsetSeparator.CallerForward(o);
    OffsetSeparator.OnlyZeroLengthsTakeNothing(o, a.input, a.begin, a.f, n, b.begin, b.f);
    EqualIterators(a, b, n);
  }

  /** Writing fields as one line and reading the line back. */
  method WriteAndRead(e: char, c: char, q: char, fields: seq<string>, quoted: seq<bool>) returns (read: seq<string>)
    requires EscapedList.Distinct(e, c, q) && 0 < |fields| == |quoted|
    ensures !(fields == [""] && quoted == [false]) ==> read == fields
    ensures fields == [""] && quoted == [false] ==> read == []
  {
    var line := EscapedList.LineText(EscapedList.WriteLine(e, c, q, fields, quoted));
    EscapedList.RoundTrip(e, c, q, fields, quoted);
    ghost var expected := if fields == [""] && quoted == [false] then [] else fields;
    var thrown;
    thrown, read := Visit(EscapedList.Caller(EscapedList.Lexicon([e], [c], [q])), (s: bool) => false, false, line,
                          expected, false);
  }
}
