/** boost::token_iterator: drives a tokenizer function over a whole input. */
module TokenIterators {
  import opened Tokens

  class TokenIterator<!S(!new)> {
    const func: TokenizerFunc<S>
    const input: string
    var f: S
    var begin: nat
    var valid: bool
    var tok: string

    /** What dereferencing and incrementing will still deliver, and how it ends. */
    ghost predicate Remaining(toks: seq<string>, fails: bool)
      reads this
    {
      if valid then toks != [] && toks[0] == tok && Gives(func, f, input, begin, toks[1..], fails)
      else toks == [] && !fails
    }

    constructor (func: TokenizerFunc<S>, f: S, input: string, begin: nat)
      ensures this.func == func && this.input == input
      ensures this.f == f && this.begin == begin && !valid && tok == ""
    {
      this.func, this.f, this.input, this.begin := func, f, input, begin;
      valid, tok := false, "";
    }

    /** The public constructor: reset the function, then fetch the first token of the range
        from begin on.  If that throws there is no object. */
    static method Make(func: TokenizerFunc<S>, reset: S -> S, f: S, input: string, begin: nat)
      returns (thrown: bool, it: TokenIterator<S>)
      requires begin <= |input|
      ensures fresh(it) && it.input == input && it.func == func
      ensures thrown <==> begin < |input| && func(reset(f), input, begin).Threw?
      ensures it.valid <==> begin < |input| && func(reset(f), input, begin).Emitted?
      ensures forall toks, fails :: IteratorGives(func, reset(f), input, begin, toks, fails) ==>
                if toks == [] && fails then thrown else !thrown && it.Remaining(toks, fails)
    {
      it := new TokenIterator(func, f, input, begin);
      thrown := it.Initialize(reset);
      forall toks, fails | IteratorGives(func, reset(f), input, begin, toks, fails)
        ensures if toks == [] && fails then thrown else !thrown && it.Remaining(toks, fails)
      {
        assert begin < |input| ==> Gives(func, reset(f), input, begin, toks, fails);
      }
    }

    method Initialize(reset: S -> S) returns (thrown: bool)
      requires begin <= |input|
      modifies this
      ensures old(valid) ==> !thrown && unchanged(this)
      ensures !old(valid) && old(begin) == |input| ==>
                !thrown && !valid && begin == old(begin) && tok == old(tok) && f == reset(old(f))
      ensures !old(valid) && old(begin) < |input| ==>
                && Called(reset(old(f)), old(begin), old(valid), thrown)
                && forall toks, fails :: Gives(func, reset(old(f)), input, old(begin), toks, fails) ==>
                     if toks == [] && fails then thrown else !thrown && Remaining(toks, fails)
    {
      if valid {
        return false;
      }
      f := reset(f);
      if begin == |input| {
        return false;
      }
      thrown := Call();
    }

    /** The state after valid_ = f_(begin_, end_, tok_).  An exception leaves valid_ as it
        was, the position and the function where they stopped, and half a token. */
    ghost predicate Called(f0: S, begin0: nat, valid0: bool, thrown: bool)
      reads this
    {
      match func(f0, input, begin0)
      case Emitted(next, state, token) => !thrown && valid && begin == next && f == state && tok == token
      case Ended(next, state) => !thrown && !valid && begin == next && f == state
      case Threw(next, state, partial) => thrown && valid == valid0 && begin == next && f == state && tok == partial
    }

    method Call() returns (thrown: bool)
      modifies this
      ensures Called(old(f), old(begin), old(valid), thrown)
      ensures forall toks, fails :: Gives(func, old(f), input, old(begin), toks, fails) ==>
                if toks == [] && fails then thrown else !thrown && Remaining(toks, fails)
    {
      match func(f, input, begin)
      case Emitted(next, state, token) =>
        begin, f, tok, valid := next, state, token, true;
        thrown := false;
      case Ended(next, state) =>
        begin, f, valid := next, state, false;
        thrown := false;
      case Threw(next, state, partial) =>
        begin, f, tok := next, state, partial;
        thrown := true;
    }

    method Increment() returns (thrown: bool)
      requires valid
      modifies this
      ensures Called(old(f), old(begin), true, thrown)
      ensures forall toks, fails :: old(Remaining(toks, fails)) ==>
                if |toks| == 1 && fails then thrown else !thrown && Remaining(toks[1..], fails)
    {
      thrown := Call();
    }

    method Dereference() returns (t: string)
      requires valid
      ensures forall toks, fails :: Remaining(toks, fails) ==> t == toks[0]
    {
      t := tok;
    }

    /** Nothing remains. */
    predicate AtEnd(): (end: bool)
      reads this
      ensures forall toks, fails :: Remaining(toks, fails) ==> (end <==> toks == [])
    {
      !valid
    }

    /** Two valid iterators are compared by their position in the input only. */
    predicate Equal(a: TokenIterator<S>)
      reads this, a
    {
      if a.valid && valid then a.begin == begin && a.input == input else a.valid == valid
    }
  }

  /** An iterator equals one at the end exactly if nothing remains of it. */
  lemma EqualsEnd<S(!new)>(it: TokenIterator<S>, e: TokenIterator<S>, toks: seq<string>, fails: bool)
    requires it.Remaining(toks, fails) && e.Remaining([], false)
    ensures it.Equal(e) <==> toks == []
    ensures e.Equal(it) <==> toks == []
  {}

  /** A loop from begin() to end(), compared with !=, visits exactly the tokens the function
      delivers, and ends with an exception exactly if the function throws behind them. */
  method Visit<S(!new)>(func: TokenizerFunc<S>, reset: S -> S, f: S, input: string,
                        ghost toks: seq<string>, ghost fails: bool)
    returns (thrown: bool, visited: seq<string>)
    requires IteratorGives(func, reset(f), input, 0, toks, fails)
    ensures thrown == fails && visited == toks
  {
    var it, end;
    thrown, end := TokenIterator.Make(func, reset, f, input, |input|);
    thrown, it := TokenIterator.Make(func, reset, f, input, 0);
    visited := [];
    assert IteratorGives(func, reset(f), input, |input|, [], false);
    while !thrown && !it.Equal(end)
      invariant fresh(it) && fresh(end) && it != end && !end.valid
      invariant |visited| <= |toks| && visited == toks[..|visited|]
      invariant if thrown then fails && |visited| == |toks| else it.Remaining(toks[|visited|..], fails)
      decreases |toks| - |visited|, !thrown
    {
      EqualsEnd(it, end, toks[|visited|..], fails);
      ghost var n, rest := |visited|, toks[|visited|..];
      var t := it.Dereference();
      assert it.Remaining(rest, fails);
      assert t == rest[0] && toks[..n + 1] == toks[..n] + [toks[n]] && rest[1..] == toks[n + 1..];
      visited := visited + [t];
      thrown := it.Increment();
    }
    if !thrown {
      EqualsEnd(it, end, toks[|visited|..], fails);
    }
  }
}
