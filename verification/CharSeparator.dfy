/** char_separator and the deprecated char_delimiters_separator: splitting at kept
    and dropped delimiter characters, with or without empty tokens. */
module CharSeparator {
  import opened Tokens

  /** Which characters delimit; the two classes may overlap. */
  datatype Classes = Classes(kept: char -> bool, dropped: char -> bool) {
    predicate Delim(c: char) {
      kept(c) || dropped(c)
    }
  }

  datatype Policy = DropEmptyTokens | KeepEmptyTokens

  /** The end of the delimiter-free run that starts at i. */
  function RunEnd(d: Classes, input: string, i: nat): (j: nat)
    requires i <= |input|
    ensures i <= j <= |input|
    ensures forall k :: i <= k < j ==> !d.Delim(input[k])
    ensures j < |input| ==> d.Delim(input[j])
    decreases |input| - i
  {
    if i < |input| && !d.Delim(input[i]) then RunEnd(d, input, i + 1) else i
  }

  /** The first character at or after i that is not dropped. */
  function SkipDropped(d: Classes, input: string, i: nat): (j: nat)
    requires i <= |input|
    ensures i <= j <= |input|
    ensures forall k :: i <= k < j ==> d.dropped(input[k])
    ensures j < |input| ==> !d.dropped(input[j])
    decreases |input| - i
  {
    if i < |input| && d.dropped(input[i]) then SkipDropped(d, input, i + 1) else i
  }

  /** The end of the token that starts at j: one kept delimiter, or a run. */
  function TokenEnd(d: Classes, input: string, j: nat): (k: nat)
    requires j < |input| && !d.dropped(input[j])
    ensures j < k <= |input|
  {
    if d.kept(input[j]) then j + 1 else RunEnd(d, input, j)
  }

  function CallDropping(d: Classes, done: bool, input: string, i: nat): Outcome<bool>
    requires i <= |input|
  {
    var j := SkipDropped(d, input, i);
    if j == |input| then Ended(j, done)
    else Emitted(TokenEnd(d, input, j), done, input[j..TokenEnd(d, input, j)])
  }

  /** `done` says that the token before the next delimiter has been delivered. */
  function CallKeeping(d: Classes, done: bool, input: string, i: nat): Outcome<bool>
    requires i <= |input|
  {
    if i == |input| then if done then Ended(i, true) else Emitted(i, true, "")
    else if d.kept(input[i]) then
      if done then Emitted(i + 1, false, [input[i]]) else Emitted(i, true, "")
    else if !done && d.dropped(input[i]) then Emitted(i, true, "")
    else
      var start := if d.dropped(input[i]) then i + 1 else i;
      Emitted(RunEnd(d, input, start), true, input[start..RunEnd(d, input, start)])
  }

  function Call(d: Classes, p: Policy, done: bool, input: string, i: nat): Outcome<bool> {
    if i > |input| then Ended(i, done)
    else if p == DropEmptyTokens then CallDropping(d, done, input, i)
    else CallKeeping(d, done, input, i)
  }

  function Caller(d: Classes, p: Policy): TokenizerFunc<bool> {
    (done: bool, input: string, i: nat) => Call(d, p, done, input, i)
  }

  /** The locale's classification, an outside function. */
  datatype Locale = Locale(isPunct: char -> bool, isSpace: char -> bool)

  class Separator {
    const keptDelims: string
    const droppedDelims: string
    const usePunct: bool
    const useSpace: bool
    const policy: Policy
    const locale: Locale
    var outputDone: bool

    constructor (dropped: string, kept: string, policy: Policy, locale: Locale)
      ensures keptDelims == kept && droppedDelims == dropped && !usePunct && !useSpace
      ensures this.policy == policy && this.locale == locale && !outputDone
      ensures forall c :: Delims().kept(c) <==> c in kept
      ensures forall c :: Delims().dropped(c) <==> c in dropped
    {
      droppedDelims, keptDelims, usePunct, useSpace := dropped, kept, false, false;
      this.policy, this.locale, outputDone := policy, locale, false;
    }

    /** The default constructor leaves m_output_done uninitialised; drop mode never reads it. */
    constructor Default(locale: Locale, uninitialised: bool)
      ensures keptDelims == "" && droppedDelims == "" && usePunct && useSpace
      ensures policy == DropEmptyTokens && this.locale == locale
      ensures forall c :: Delims().kept(c) <==> locale.isPunct(c)
      ensures forall c :: Delims().dropped(c) <==> locale.isSpace(c)
    {
      droppedDelims, keptDelims, usePunct, useSpace := "", "", true, true;
      policy, this.locale, outputDone := DropEmptyTokens, locale, uninitialised;
    }

    /** reset() does nothing: the flag of an earlier input stays. */
    method Reset()
      ensures outputDone == old(outputDone)
    {}

    predicate IsKept(c: char) {
      if |keptDelims| != 0 then c in keptDelims else usePunct && locale.isPunct(c)
    }

    predicate IsDropped(c: char) {
      if |droppedDelims| != 0 then c in droppedDelims else useSpace && locale.isSpace(c)
    }

    function Delims(): Classes {
      Classes((c: char) => IsKept(c), (c: char) => IsDropped(c))
    }

    /** Both iterator categories take the same steps and deliver the same tokens. */
    method Next(cat: Category, input: string, next0: nat, tok0: string) returns (ok: bool, next: nat, tok: string)
      requires next0 <= |input|
      modifies this
      ensures var out := Call(Delims(), policy, old(outputDone), input, next0);
              && ok == out.Emitted? && next == out.next && outputDone == out.state
              && tok == if ok then out.token else if cat.InputOnly? then "" else tok0
    {
      next, tok := next0, Clear(cat, tok0);
      if policy == DropEmptyTokens {
        next := Skip(input, next);
      }
      var start := next;
      EmptySlice(input, start);
      if policy == DropEmptyTokens {
        if next == |input| {
          return false, next, tok;
        }
        OneChar(input, next);
        if IsKept(input[next]) {
          tok := PlusEqual(cat, tok, input[next]);
          next := next + 1;
        } else {
          next, tok := Run(cat, input, next, tok);
        }
      } else {
        if next == |input| {
          if !outputDone {
            outputDone := true;
            tok := AssignRange(cat, input, start, next, tok);
            return true, next, tok;
          } else {
            return false, next, tok;
          }
        }
        OneChar(input, next);
        if IsKept(input[next]) {
          if !outputDone {
            outputDone := true;
          } else {
            tok := PlusEqual(cat, tok, input[next]);
            next := next + 1;
            outputDone := false;
          }
        } else if !outputDone && IsDropped(input[next]) {
          outputDone := true;
        } else {
          if IsDropped(input[next]) {
            next := next + 1;
            start := next;
          }
          next, tok := Run(cat, input, next, tok);
          outputDone := true;
        }
      }
      tok := AssignRange(cat, input, start, next, tok);
      ok := true;
    }

    /** The loop past all dropped delimiters. */
    method Skip(input: string, start: nat) returns (next: nat)
      requires start <= |input|
      ensures next == SkipDropped(Delims(), input, start)
    {
      next := start;
      while next != |input| && IsDropped(input[next])
        invariant next <= |input| && SkipDropped(Delims(), input, next) == SkipDropped(Delims(), input, start)
        decreases |input| - next
      {
        next := next + 1;
      }
    }

    /** The inner loop over the characters that are no delimiters. */
    method Run(cat: Category, input: string, start: nat, tok0: string) returns (next: nat, tok: string)
      requires start <= |input| && (cat.InputOnly? ==> tok0 == "")
      ensures next == RunEnd(Delims(), input, start)
      ensures tok == if cat.MultiPass? then tok0 else input[start..next]
    {
      next, tok := start, tok0;
      while next != |input| && !IsDropped(input[next]) && !IsKept(input[next])
        invariant start <= next <= |input|
        invariant RunEnd(Delims(), input, next) == RunEnd(Delims(), input, start)
        invariant tok == if cat.MultiPass? then tok0 else input[start..next]
        decreases |input| - next
      {
        SliceStep(input, start, next + 1);
        tok := PlusEqual(cat, tok, input[next]);
        next := next + 1;
      }
    }
  }

  // ----- keeping empty tokens ---------------------------------------------------------------

  /** From position i: the fields between consecutive delimiters, and each kept
      delimiter between its fields. */
  function KeepTokens(d: Classes, s: string, i: nat): seq<string>
    requires i <= |s|
    decreases |s| - i
  {
    var j := RunEnd(d, s, i);
    [s[i..j]] + AtDelimiter(d, s, j)
  }

  /** The same where the field before position j is already out. */
  function AtDelimiter(d: Classes, s: string, j: nat): seq<string>
    requires j <= |s|
    decreases |s| - j, 0
  {
    if j == |s| then []
    else if d.kept(s[j]) then [[s[j]]] + KeepTokens(d, s, j + 1)
    else KeepTokens(d, s, j + 1)
  }

  /** One call from a state where the field at i is still due. */
  lemma CallField(d: Classes, input: string, i: nat)
    requires i <= |input|
    ensures var j := RunEnd(d, input, i);
            Call(d, KeepEmptyTokens, false, input, i) == Emitted(j, true, input[i..j])
  {
    if i == |input| || d.Delim(input[i]) {
      assert input[i..i] == "";
    }
  }

  lemma {:induction false} KeepYields(d: Classes, input: string, i: nat)
    requires i <= |input|
    ensures Yields(Caller(d, KeepEmptyTokens), false, input, i, KeepTokens(d, input, i))
    decreases |input| - i, 1
  {
    var j := RunEnd(d, input, i);
    CallField(d, input, i);
    DelimiterYields(d, input, j);
    YieldsMore(Caller(d, KeepEmptyTokens), false, input, i, j, true, input[i..j], AtDelimiter(d, input, j));
  }

  lemma {:induction false} DelimiterYields(d: Classes, input: string, j: nat)
    requires j <= |input| && (j < |input| ==> d.Delim(input[j]))
    ensures Yields(Caller(d, KeepEmptyTokens), true, input, j, AtDelimiter(d, input, j))
    decreases |input| - j, 0
  {
    var f := Caller(d, KeepEmptyTokens);
    if j < |input| {
      if d.kept(input[j]) {
        KeepYields(d, input, j + 1);
        YieldsMore(f, true, input, j, j + 1, false, [input[j]], KeepTokens(d, input, j + 1));
      } else {
        // passing a dropped delimiter and reading the next field is one call
        var k := RunEnd(d, input, j + 1);
        DelimiterYields(d, input, k);
        YieldsMore(f, true, input, j, k, true, input[j + 1..k], AtDelimiter(d, input, k));
      }
    }
  }

  /** A non-empty input yields exactly its fields and kept delimiters. */
  lemma KeepModeReads(d: Classes, input: string, toks: seq<string>)
    requires input != ""
    ensures IteratorYields(Caller(d, KeepEmptyTokens), false, input, toks) <==> toks == KeepTokens(d, input, 0)
  {
    KeepYields(d, input, 0);
    if IteratorYields(Caller(d, KeepEmptyTokens), false, input, toks) {
      YieldsUnique(Caller(d, KeepEmptyTokens), false, input, 0, toks, KeepTokens(d, input, 0));
    }
  }

  /** Reset does not clear the flag.  A function object whose last call set it yields the
      same tokens on its next input exactly when that does not start with a delimiter. */
  lemma StaleFlag(d: Classes, input: string)
    requires input != ""
    ensures IteratorYields(Caller(d, KeepEmptyTokens), true, input, KeepTokens(d, input, 0)) <==> !d.Delim(input[0])
  {
    var f := Caller(d, KeepEmptyTokens);
    KeepYields(d, input, 0);
    if d.Delim(input[0]) {
      DelimiterYields(d, input, 0);
      if Yields(f, true, input, 0, KeepTokens(d, input, 0)) {
        YieldsUnique(f, true, input, 0, KeepTokens(d, input, 0), AtDelimiter(d, input, 0));
      }
    }
  }

  /** With the comma dropped, ",a" has two fields for a fresh object and one for a used one. */
  lemma UsedObjectLosesField(d: Classes)
    requires d.dropped(',') && !d.kept(',') && !d.Delim('a')
    ensures IteratorYields(Caller(d, KeepEmptyTokens), false, ",a", ["", "a"])
    ensures IteratorYields(Caller(d, KeepEmptyTokens), true, ",a", ["a"])
  {
    var f := Caller(d, KeepEmptyTokens);
    assert RunEnd(d, ",a", 1) == RunEnd(d, ",a", 2) == 2;
    assert ",a"[1..2] == "a";
    YieldsLast(f, true, ",a", 0, 2, true, "a");
    YieldsMore(f, false, ",a", 0, 0, true, "", ["a"]);
    assert [""] + ["a"] == ["", "a"];
  }

  /** How many characters from i on satisfy p. */
  function Count(p: char -> bool, s: string, i: nat): nat
    requires i <= |s|
    decreases |s| - i
  {
    if i == |s| then 0 else (if p(s[i]) then 1 else 0) + Count(p, s, i + 1)
  }

  /** The characters from i on that do not satisfy p. */
  function Without(p: char -> bool, s: string, i: nat): string
    requires i <= |s|
    decreases |s| - i
  {
    if i == |s| then "" else if p(s[i]) then Without(p, s, i + 1) else [s[i]] + Without(p, s, i + 1)
  }

  /** Dropped and not also kept: the kept class wins. */
  function Lost(d: Classes): char -> bool {
    (c: char) => d.dropped(c) && !d.kept(c)
  }

  /** A delimiter-free run has no characters to count or to lose. */
  lemma {:induction false} OverRun(p: char -> bool, s: string, i: nat, j: nat)
    requires i <= j <= |s| && forall k :: i <= k < j ==> !p(s[k])
    ensures Count(p, s, i) == Count(p, s, j)
    ensures Without(p, s, i) == s[i..j] + Without(p, s, j)
    decreases j - i
  {
    if i < j {
      OverRun(p, s, i + 1, j);
      SliceStep(s, i, j);
      AppendAssoc([s[i]], s[i + 1..j], Without(p, s, j));
    } else {
      AppendAssoc(Without(p, s, j), "", "");
    }
  }

  /** D dropped and K kept delimiters make D + 2K + 1 tokens, which hold every
      character but the dropped delimiters, in order. */
  lemma {:induction false} KeepConserves(d: Classes, s: string, i: nat)
    requires i <= |s|
    ensures |KeepTokens(d, s, i)| == Count(Lost(d), s, i) + 2 * Count(d.kept, s, i) + 1
    ensures Concat(KeepTokens(d, s, i)) == Without(Lost(d), s, i)
    decreases |s| - i
  {
    var j := RunEnd(d, s, i);
    OverRun(Lost(d), s, i, j);
    OverRun(d.kept, s, i, j);
    if j < |s| {
      KeepConserves(d, s, j + 1);
      ConcatCons([s[j]], KeepTokens(d, s, j + 1));
    }
    ConcatCons(s[i..j], AtDelimiter(d, s, j));
  }

  /** Each successful call makes progress, even where the position stays. */
  lemma KeepMeasureFalls(d: Classes, done: bool, input: string, i: nat)
    requires i <= |input|
    ensures var out := Call(d, KeepEmptyTokens, done, input, i);
            out.Emitted? ==>
              && i <= out.next <= |input|
              && 2 * (|input| - out.next) + (if out.state then 0 else 1) < 2 * (|input| - i) + (if done then 0 else 1)
  {}

  // ----- dropping empty tokens -----------------------------------------------------------------

  function DropTokens(d: Classes, s: string, i: nat): seq<string>
    requires i <= |s|
    decreases |s| - i
  {
    var j := SkipDropped(d, s, i);
    if j == |s| then [] else [s[j..TokenEnd(d, s, j)]] + DropTokens(d, s, TokenEnd(d, s, j))
  }

  lemma {:induction false} DropYields(d: Classes, done: bool, input: string, i: nat)
    requires i <= |input|
    ensures Yields(Caller(d, DropEmptyTokens), done, input, i, DropTokens(d, input, i))
    decreases |input| - i
  {
    var j := SkipDropped(d, input, i);
    if j < |input| {
      var next := TokenEnd(d, input, j);
      DropYields(d, done, input, next);
      YieldsMore(Caller(d, DropEmptyTokens), done, input, i, next, done, input[j..next], DropTokens(d, input, next));
    }
  }

  lemma DropModeReads(d: Classes, done: bool, input: string, toks: seq<string>)
    ensures IteratorYields(Caller(d, DropEmptyTokens), done, input, toks) <==> toks == DropTokens(d, input, 0)
  {
    DropYields(d, done, input, 0);
    if input != "" && Yields(Caller(d, DropEmptyTokens), done, input, 0, toks) {
      YieldsUnique(Caller(d, DropEmptyTokens), done, input, 0, toks, DropTokens(d, input, 0));
    }
  }

  function NonEmpty(toks: seq<string>): seq<string> {
    if toks == [] then [] else (if toks[0] == "" then [] else [toks[0]]) + NonEmpty(toks[1..])
  }

  lemma NonEmptyFirst(t: string, rest: seq<string>)
    ensures NonEmpty([t] + rest) == (if t == "" then [] else [t]) + NonEmpty(rest)
  {
    assert ([t] + rest)[1..] == rest;
  }

  /** Here a character of both classes is dropped before it could be kept. */
  function DroppedWins(d: Classes): Classes {
    Classes((c: char) => d.kept(c) && !d.dropped(c), d.dropped)
  }

  lemma {:induction false} SameRun(d: Classes, s: string, i: nat)
    requires i <= |s|
    ensures RunEnd(DroppedWins(d), s, i) == RunEnd(d, s, i)
    decreases |s| - i
  {
    if i < |s| {
      SameRun(d, s, i + 1);
    }
  }

  /** Drop mode yields the non-empty tokens of keep mode, so each token is one kept
      delimiter or a whole run between two delimiters. */
  lemma {:induction false} DropIsKeepWithoutEmpties(d: Classes, s: string, i: nat)
    requires i <= |s|
    ensures DropTokens(d, s, i) == NonEmpty(KeepTokens(DroppedWins(d), s, i))
    decreases |s| - i, 1
  {
    var j := RunEnd(d, s, i);
    SameRun(d, s, i);
    DropAtDelimiter(d, s, j);
    NonEmptyFirst(s[i..j], AtDelimiter(DroppedWins(d), s, j));
  }

  lemma {:induction false} DropAtDelimiter(d: Classes, s: string, j: nat)
    requires j <= |s| && (j < |s| ==> d.Delim(s[j]))
    ensures DropTokens(d, s, j) == NonEmpty(AtDelimiter(DroppedWins(d), s, j))
    decreases |s| - j, 0
  {
    if j < |s| {
      DropIsKeepWithoutEmpties(d, s, j + 1);
      if !d.dropped(s[j]) {
        OneChar(s, j);
        NonEmptyFirst([s[j]], KeepTokens(DroppedWins(d), s, j + 1));
      }
    }
  }

  ghost predicate DropToken(d: Classes, t: string) {
    t != "" && ((|t| == 1 && d.kept(t[0]) && !d.dropped(t[0])) || forall c :: c in t ==> !d.Delim(c))
  }

  /** No token is empty, and together they hold the input without its dropped characters. */
  lemma {:induction false} DropConserves(d: Classes, s: string, i: nat)
    requires i <= |s|
    ensures Concat(DropTokens(d, s, i)) == Without(d.dropped, s, i)
    decreases |s| - i
  {
    var j := SkipDropped(d, s, i);
    AllDropped(d.dropped, s, i, j);
    if j < |s| {
      var next := TokenEnd(d, s, j);
      DropConserves(d, s, next);
      OverRun(d.dropped, s, j, next);
      OneChar(s, j);
      ConcatCons(s[j..next], DropTokens(d, s, next));
    }
  }

  lemma {:induction false} DropShape(d: Classes, s: string, i: nat)
    requires i <= |s|
    ensures forall t :: t in DropTokens(d, s, i) ==> DropToken(d, t)
    decreases |s| - i
  {
    var j := SkipDropped(d, s, i);
    if j < |s| {
      DropShape(d, s, TokenEnd(d, s, j));
    }
  }

  lemma {:induction false} AllDropped(p: char -> bool, s: string, i: nat, j: nat)
    requires i <= j <= |s| && forall k :: i <= k < j ==> p(s[k])
    ensures Without(p, s, i) == Without(p, s, j)
    decreases j - i
  {
    if i < j {
      AllDropped(p, s, i + 1, j);
    }
  }

  // ----- what iterator equality sees -----------------------------------------------------------------

  lemma CallerForward(d: Classes, p: Policy)
    ensures Forward(Caller(d, p))
  {}

  /** In keep mode a call takes no input exactly if the field that is due is empty, and no
      two such calls follow each other. */
  lemma OnlyEmptyFieldsTakeNothing(d: Classes, input: string, i: nat, done: bool, n: nat, i': nat, done': bool)
    requires i <= |input| && n > 0 && Reaches(Caller(d, KeepEmptyTokens), input, i, done, n, i', done')
    ensures TakesNothing(Caller(d, KeepEmptyTokens), input, i, done, n)
       <==> n == 1 && !done && (i == |input| || d.Delim(input[i]))
  {
    var f := Caller(d, KeepEmptyTokens);
    var out := f(done, input, i);
    assert out.next == i ==> !done && out.state;
    if n > 1 && out.next == i {
      assert Reaches(f, input, i, true, n - 1, i', done');
      assert f(true, input, i).next > i;
    }
    if !done {
      CallField(d, input, i);
    }
  }

  /** In drop mode every token takes some. */
  lemma DroppersAdvance(d: Classes, input: string, i: nat, done: bool, n: nat, i': nat, done': bool)
    requires i <= |input| && n > 0 && Reaches(Caller(d, DropEmptyTokens), input, i, done, n, i', done')
    ensures !TakesNothing(Caller(d, DropEmptyTokens), input, i, done, n)
  {
    var j := SkipDropped(d, input, i);
    assert j < |input| && Caller(d, DropEmptyTokens)(done, input, i).next == TokenEnd(d, input, j);
  }

  /** With the plus kept, the second and third token of "+" stand at the same position. */
  lemma PlusThenEmpty(d: Classes)
    requires d.kept('+')
    ensures Reaches(Caller(d, KeepEmptyTokens), "+", 0, false, 2, 1, false)
    ensures Reaches(Caller(d, KeepEmptyTokens), "+", 1, false, 1, 1, true)
    ensures KeepTokens(d, "+", 0) == ["", "+", ""]
  {
    var f := Caller(d, KeepEmptyTokens);
    assert RunEnd(d, "+", 0) == 0 && RunEnd(d, "+", 1) == 1;
    assert Call(d, KeepEmptyTokens, false, "+", 0) == Emitted(0, true, "");
    assert Call(d, KeepEmptyTokens, true, "+", 0) == Emitted(1, false, "+");
    assert Call(d, KeepEmptyTokens, false, "+", 1) == Emitted(1, true, "");
    assert Reaches(f, "+", 0, true, 1, 1, false);
    EmptySlice("+", 0);
    EmptySlice("+", 1);
    assert AtDelimiter(d, "+", 1) == [];
    assert KeepTokens(d, "+", 1) == [""];
    assert AtDelimiter(d, "+", 0) == ["+"] + KeepTokens(d, "+", 1);
    assert KeepTokens(d, "+", 0) == [""] + AtDelimiter(d, "+", 0);
  }

  // ----- the deprecated separator -------------------------------------------------------------------

  class DelimitersSeparator {
    const returnable: string
    const nonreturnable: string
    const returnDelims: bool
    const noPunct: bool
    const noSpace: bool
    const locale: Locale

    /** The two character sets are pointers in the original; None is the null pointer. */
    constructor (returnDelims: bool, returnable: Option<string>, nonreturnable: Option<string>, locale: Locale)
      ensures this.returnDelims == returnDelims && this.locale == locale
      ensures this.returnable == returnable.GetOr("") && this.nonreturnable == nonreturnable.GetOr("")
      ensures noPunct == returnable.Some? && noSpace == nonreturnable.Some?
      ensures forall c :: Delims().kept(c) <==>
                returnDelims && if returnable.Some? then c in returnable.value else locale.isPunct(c)
      ensures forall c :: Delims().dropped(c) <==>
                || (if nonreturnable.Some? then c in nonreturnable.value else locale.isSpace(c))
                || (!returnDelims && if returnable.Some? then c in returnable.value else locale.isPunct(c))
    {
      this.returnDelims, this.locale := returnDelims, locale;
      this.returnable, this.nonreturnable := returnable.GetOr(""), nonreturnable.GetOr("");
      noPunct, noSpace := returnable.Some?, nonreturnable.Some?;
    }

    predicate IsRet(c: char) {
      if |returnable| != 0 then c in returnable else !noPunct && locale.isPunct(c)
    }

    predicate IsNonRet(c: char) {
      if |nonreturnable| != 0 then c in nonreturnable else !noSpace && locale.isSpace(c)
    }

    /** Returned delimiters are kept; the others, and all if none are returned, are dropped. */
    function Delims(): Classes {
      Classes((c: char) => IsRet(c) && returnDelims, (c: char) => IsNonRet(c) || (IsRet(c) && !returnDelims))
    }

    /** The same step as the newer separator takes in drop mode. */
    method Next(input: string, next0: nat) returns (ok: bool, next: nat, tok: string)
      requires next0 <= |input|
      ensures var out := Call(Delims(), DropEmptyTokens, false, input, next0);
              && ok == out.Emitted? && next == out.next
              && tok == if ok then out.token else ""
    {
      var d := Delims();
      tok, next := "", next0;
      while next != |input| && (IsNonRet(input[next]) || (IsRet(input[next]) && !returnDelims))
        invariant next <= |input| && SkipDropped(d, input, next) == SkipDropped(d, input, next0)
        decreases |input| - next
      {
        next := next + 1;
      }
      if next == |input| {
        return false, next, tok;
      }
      if IsRet(input[next]) && returnDelims {
        tok := tok + [input[next]];
        next := next + 1;
      } else {
        next, tok := Run(input, next);
      }
      ok := true;
    }

    /** The inner loop over the characters that are no delimiters. */
    method Run(input: string, start: nat) returns (next: nat, tok: string)
      requires start <= |input|
      ensures next == RunEnd(Delims(), input, start) && tok == input[start..next]
    {
      next, tok := start, "";
      while next != |input| && !IsNonRet(input[next]) && !IsRet(input[next])
        invariant start <= next <= |input| && tok == input[start..next]
        invariant RunEnd(Delims(), input, next) == RunEnd(Delims(), input, start)
        decreases |input| - next
      {
        tok := tok + [input[next]];
        next := next + 1;
      }
    }
  }

  datatype Option<T> = None | Some(value: T) {
    function GetOr(default: T): T {
      if Some? then value else default
    }
  }

  ghost predicate SameClasses(d: Classes, d': Classes) {
    forall c :: d.kept(c) == d'.kept(c) && d.dropped(c) == d'.dropped(c)
  }

  lemma {:induction false} SameClassesSameEnds(d: Classes, d': Classes, s: string, i: nat)
    requires SameClasses(d, d') && i <= |s|
    ensures RunEnd(d, s, i) == RunEnd(d', s, i) && SkipDropped(d, s, i) == SkipDropped(d', s, i)
    decreases |s| - i
  {
    if i < |s| {
      SameClassesSameEnds(d, d', s, i + 1);
    }
  }

  lemma {:induction false} SameClassesSameTokens(d: Classes, d': Classes, s: string, i: nat)
    requires SameClasses(d, d') && i <= |s|
    ensures DropTokens(d, s, i) == DropTokens(d', s, i)
    decreases |s| - i
  {
    SameClassesSameEnds(d, d', s, i);
    var j := SkipDropped(d, s, i);
    if j < |s| {
      SameClassesSameEnds(d, d', s, j);
      SameClassesSameTokens(d, d', s, TokenEnd(d, s, j));
    }
  }

  // ----- the function objects at work -----------------------------------------------------------------

  /** One more call: the next token, or none. */
  lemma CallDrops(d: Classes, done: bool, input: string, i: nat, toks: seq<string>)
    requires i <= |input|
    ensures var out := Call(d, DropEmptyTokens, done, input, i);
            if out.Emitted?
            then i < out.next <= |input|
                 && toks + DropTokens(d, input, i) == toks + [out.token] + DropTokens(d, input, out.next)
            else toks + DropTokens(d, input, i) == toks
  {}

  /** Calling an object until it returns false: its tokens, for both iterator categories. */
  method ReadDropping(sep: Separator, cat: Category, input: string) returns (toks: seq<string>)
    requires sep.policy == DropEmptyTokens
    modifies sep
    ensures toks == DropTokens(sep.Delims(), input, 0)
  {
    toks := [];
    ghost var d := sep.Delims();
    CallDrops(d, sep.outputDone, input, 0, toks);
    var ok, next, tok := sep.Next(cat, input, 0, "");
    while ok
      invariant ok ==> next <= |input| && toks + [tok] + DropTokens(d, input, next) == DropTokens(d, input, 0)
      invariant !ok ==> toks == DropTokens(d, input, 0)
      decreases if ok then |input| - next + 1 else 0
    {
      toks := toks + [tok];
      CallDrops(d, sep.outputDone, input, next, toks);
      ok, next, tok := sep.Next(cat, input, next, tok);
    }
  }

  method ReadDeprecated(sep: DelimitersSeparator, input: string) returns (toks: seq<string>)
    ensures toks == DropTokens(sep.Delims(), input, 0)
  {
    toks := [];
    ghost var d := sep.Delims();
    CallDrops(d, false, input, 0, toks);
    var ok, next, tok := sep.Next(input, 0);
    while ok
      invariant ok ==> next <= |input| && toks + [tok] + DropTokens(d, input, next) == DropTokens(d, input, 0)
      invariant !ok ==> toks == DropTokens(d, input, 0)
      decreases if ok then |input| - next + 1 else 0
    {
      toks := toks + [tok];
      CallDrops(d, false, input, next, toks);
      ok, next, tok := sep.Next(input, next);
    }
  }

  /** The default separator keeps punctuation and drops space. */
  method ReadByDefault(locale: Locale, uninitialised: bool, cat: Category, input: string) returns (toks: seq<string>)
    ensures toks == DropTokens(Classes(locale.isPunct, locale.isSpace), input, 0)
  {
    var sep := new Separator.Default(locale, uninitialised);
    toks := ReadDropping(sep, cat, input);
    SameClassesSameTokens(sep.Delims(), Classes(locale.isPunct, locale.isSpace), input, 0);
  }

  /** The deprecated default, which is the default of tokenizer itself, drops both. */
  method ReadByDeprecatedDefault(locale: Locale, input: string) returns (toks: seq<string>)
    ensures var d := Classes((c: char) => false, (c: char) => locale.isPunct(c) || locale.isSpace(c));
            toks == DropTokens(d, input, 0)
  {
    var sep := new DelimitersSeparator(false, None, None, locale);
    toks := ReadDeprecated(sep, input);
    SameClassesSameTokens(sep.Delims(),
                          Classes((c: char) => false, (c: char) => locale.isPunct(c) || locale.isSpace(c)), input, 0);
  }

  lemma DropOne(d: Classes, s: string, i: nat, j: nat, k: nat)
    requires i <= j < k <= |s| && SkipDropped(d, s, i) == j && TokenEnd(d, s, j) == k
    ensures DropTokens(d, s, i) == [s[j..k]] + DropTokens(d, s, k)
  {}

  lemma CommaKept(d: Classes)
    requires d.kept(',') && !d.dropped(',') && d.dropped(' ')
    requires !d.Delim('a') && !d.Delim('b') && !d.Delim('c')
    ensures DropTokens(d, "a,b c", 0) == ["a", ",", "b", "c"]
  {
    var s := "a,b c";
    assert s[0..1] == "a" && s[1..2] == "," && s[2..3] == "b" && s[4..5] == "c";
    assert RunEnd(d, s, 1) == 1 && RunEnd(d, s, 3) == 3 && RunEnd(d, s, 5) == 5;
    assert SkipDropped(d, s, 4) == 4;
    DropOne(d, s, 0, 0, 1);
    DropOne(d, s, 1, 1, 2);
    DropOne(d, s, 2, 2, 3);
    DropOne(d, s, 3, 4, 5);
  }

  lemma CommaDropped(d: Classes)
    requires d.dropped(',') && d.dropped(' ')
    requires !d.Delim('a') && !d.Delim('b') && !d.Delim('c')
    ensures DropTokens(d, "a,b c", 0) == ["a", "b", "c"]
  {
    var s := "a,b c";
    assert s[0..1] == "a" && s[2..3] == "b" && s[4..5] == "c";
    assert RunEnd(d, s, 1) == 1 && RunEnd(d, s, 3) == 3 && RunEnd(d, s, 5) == 5;
    assert SkipDropped(d, s, 2) == 2 && SkipDropped(d, s, 4) == 4;
    DropOne(d, s, 0, 0, 1);
    DropOne(d, s, 1, 2, 3);
    DropOne(d, s, 3, 4, 5);
  }

  /** "a,b c" by the two defaults. */
  lemma DefaultsDiffer(locale: Locale)
    requires locale.isPunct(',') && locale.isSpace(' ') && !locale.isSpace(',')
    requires forall c :: c == 'a' || c == 'b' || c == 'c' ==> !locale.isPunct(c) && !locale.isSpace(c)
    ensures DropTokens(Classes(locale.isPunct, locale.isSpace), "a,b c", 0) == ["a", ",", "b", "c"]
    ensures DropTokens(Classes((c: char) => false, (c: char) => locale.isPunct(c) || locale.isSpace(c)), "a,b c", 0)
         == ["a", "b", "c"]
  {
    CommaKept(Classes(locale.isPunct, locale.isSpace));
    CommaDropped(Classes((c: char) => false, (c: char) => locale.isPunct(c) || locale.isSpace(c)));
  }

  /** With non-empty delimiter sets the deprecated separator returns the tokens of the newer one:
      with the same two sets if it returns delimiters, else with their union dropped. */
  lemma DeprecatedAgrees(old': DelimitersSeparator, sep: Separator, input: string)
    requires old'.returnable != "" && old'.nonreturnable != "" && sep.droppedDelims != ""
    requires old'.returnDelims ==>
               sep.keptDelims == old'.returnable && sep.droppedDelims == old'.nonreturnable
    requires !old'.returnDelims ==>
               sep.keptDelims == "" && !sep.usePunct && sep.droppedDelims == old'.nonreturnable + old'.returnable
    ensures DropTokens(old'.Delims(), input, 0) == DropTokens(sep.Delims(), input, 0)
  {
    SameClassesSameTokens(old'.Delims(), sep.Delims(), input, 0);
  }
}
