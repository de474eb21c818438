/** escaped_list_separator: fields between separators, with quotes and escapes.
    The scanner accepts exactly the lines of a small grammar and returns their
    fields, so any field list can be written down and read back. */
module EscapedList {
  import opened Tokens

  /** The three character classes; each may hold several characters. */
  datatype Lexicon = Lexicon(escape: string, sep: string, quote: string)

  /** The scanning loop from position i; the pending-blank flag has been cleared. */
  function Scan(x: Lexicon, input: string, i: nat, inQuote: bool, tok: string): (out: Outcome<bool>)
    ensures !out.Ended?
    decreases if i < |input| then |input| - i else 0
  {
    if i >= |input| then Emitted(i, false, tok)
    else if input[i] in x.escape then
      if i + 1 == |input| then Threw(i + 1, false, tok)
      else if input[i + 1] == 'n' then Scan(x, input, i + 2, inQuote, tok + ['\n'])
      else if input[i + 1] in x.quote || input[i + 1] in x.sep || input[i + 1] in x.escape then
        Scan(x, input, i + 2, inQuote, tok + [input[i + 1]])
      else Threw(i + 1, false, tok)
    else if input[i] in x.sep then
      if !inQuote then Emitted(i + 1, true, tok)
      else Scan(x, input, i + 1, inQuote, tok + [input[i]])
    else if input[i] in x.quote then Scan(x, input, i + 1, !inQuote, tok)
    else Scan(x, input, i + 1, inQuote, tok + [input[i]])
  }

  /** One call; `last` says that a separator ended the previous field. */
  function Call(x: Lexicon, last: bool, input: string, i: nat): Outcome<bool> {
    if i >= |input| then
      if last then Emitted(i, false, "") else Ended(i, false)
    else Scan(x, input, i, false, "")
  }

  function Caller(x: Lexicon): TokenizerFunc<bool> {
    (last: bool, input: string, i: nat) => Call(x, last, input, i)
  }

  class EscapedListSeparator {
    const escape: string
    const sep: string
    const quote: string
    var last: bool

    function Chars(): Lexicon {
      Lexicon(escape, sep, quote)
    }

    constructor (e: string, c: string, q: string)
      ensures Chars() == Lexicon(e, c, q) && !last
    {
      escape, sep, quote, last := e, c, q, false;
    }

    method Reset()
      modifies this
      ensures !last
    {
      last := false;
    }

    /** Reads the character after an escape; `next` is left on it. */
    method DoEscape(input: string, next0: nat, tok0: string) returns (next: nat, tok: string, thrown: bool)
      requires next0 < |input|
      ensures next == next0 + 1
      ensures thrown <==>
                || next == |input|
                || !(input[next] == 'n' || input[next] in quote || input[next] in sep || input[next] in escape)
      ensures tok == if thrown then tok0 else tok0 + [if input[next] == 'n' then '\n' else input[next]]
    {
      next, tok := next0 + 1, tok0;
      if next == |input| {
        return next, tok, true;
      }
      if input[next] == 'n' {
        tok := tok + ['\n'];
      } else if input[next] in quote {
        tok := tok + [input[next]];
      } else if input[next] in sep {
        tok := tok + [input[next]];
      } else if input[next] in escape {
        tok := tok + [input[next]];
      } else {
        return next, tok, true;
      }
      thrown := false;
    }

    method Next(input: string, next0: nat) returns (ok: bool, thrown: bool, next: nat, tok: string)
      requires next0 <= |input|
      modifies this
      ensures var out := Call(Chars(), old(last), input, next0);
              && ok == out.Emitted? && thrown == out.Threw?
              && next == out.next && last == out.state
              && (ok ==> tok == out.token) && (thrown ==> tok == out.partial)
    {
      var inQuote := false;
      tok, next, thrown := "", next0, false;
      if next == |input| {
        if last {
          last := false;
          return true, false, next, tok;
        } else {
          return false, false, next, tok;
        }
      }
      last := false;
      while next != |input|
        invariant next <= |input| && !thrown && !last
        invariant Scan(Chars(), input, next0, false, "") == Scan(Chars(), input, next, inQuote, tok)
        decreases |input| - next
      {
        if input[next] in escape {
          next, tok, thrown := DoEscape(input, next, tok);
          if thrown {
            return false, true, next, tok;
          }
        } else if input[next] in sep {
          if !inQuote {
            next := next + 1;
            last := true;
            return true, false, next, tok;
          } else {
            tok := tok + [input[next]];
          }
        } else if input[next] in quote {
          inQuote := !inQuote;
        } else {
          tok := tok + [input[next]];
        }
        next := next + 1;
      }
      ok := true;
    }
  }

  // ----- the grammar ---------------------------------------------------------------------

  /** The units a field is written in: a plain character, an escaped one, a quote mark. */
  datatype Piece = Raw(c: char) | Escaped(e: char, c: char) | Mark(q: char)

  ghost predicate LegalPiece(x: Lexicon, p: Piece, inQuote: bool) {
    match p
    case Raw(c) => c !in x.escape && (if c in x.sep then inQuote else c !in x.quote)
    case Escaped(e, c) => e in x.escape && (c == 'n' || c in x.quote || c in x.sep || c in x.escape)
    case Mark(q) => q in x.quote && q !in x.escape && q !in x.sep
  }

  function PieceText(p: Piece): string {
    match p
    case Raw(c) => [c]
    case Escaped(e, c) => [e, c]
    case Mark(q) => [q]
  }

  function PieceMeaning(p: Piece): string {
    match p
    case Raw(c) => [c]
    case Escaped(e, c) => if c == 'n' then "\n" else [c]
    case Mark(q) => ""
  }

  ghost predicate Legal(x: Lexicon, ps: seq<Piece>, inQuote: bool) {
    ps != [] ==> LegalPiece(x, ps[0], inQuote) && Legal(x, ps[1..], inQuote != ps[0].Mark?)
  }

  function Text(ps: seq<Piece>): string {
    if ps == [] then "" else PieceText(ps[0]) + Text(ps[1..])
  }

  function Meaning(ps: seq<Piece>): string {
    if ps == [] then "" else PieceMeaning(ps[0]) + Meaning(ps[1..])
  }

  /** Whether the quote is open after ps. */
  function QuoteAfter(ps: seq<Piece>, inQuote: bool): bool {
    if ps == [] then inQuote else QuoteAfter(ps[1..], inQuote != ps[0].Mark?)
  }

  /** A line: fields joined by separators.  Only the last may leave a quote open. */
  datatype Line = Last(ps: seq<Piece>) | Field(ps: seq<Piece>, sep: char, rest: Line)

  ghost predicate LegalLine(x: Lexicon, l: Line) {
    match l
    case Last(ps) => Legal(x, ps, false)
    case Field(ps, s, rest) =>
      && Legal(x, ps, false) && !QuoteAfter(ps, false)
      && s in x.sep && s !in x.escape
      && LegalLine(x, rest)
  }

  function LineText(l: Line): string {
    match l
    case Last(ps) => Text(ps)
    case Field(ps, s, rest) => Text(ps) + [s] + LineText(rest)
  }

  function LineFields(l: Line): seq<string> {
    match l
    case Last(ps) => [Meaning(ps)]
    case Field(ps, s, rest) => [Meaning(ps)] + LineFields(rest)
  }

  // ----- every legal line is read as its fields ------------------------------------------------

  /** The text t stands in the input at position i. */
  ghost predicate At(input: string, i: nat, t: string) {
    i + |t| <= |input| && forall k :: 0 <= k < |t| ==> input[i + k] == t[k]
  }

  lemma AtChar(input: string, i: nat, t: string, k: nat)
    requires At(input, i, t) && k < |t|
    ensures i + k < |input| && input[i + k] == t[k]
  {}

  lemma AtSplit(input: string, i: nat, a: string, b: string)
    requires At(input, i, a + b)
    ensures At(input, i, a) && At(input, i + |a|, b)
  {
    forall k | 0 <= k < |b| ensures input[i + |a| + k] == b[k] {
      assert input[i + (|a| + k)] == (a + b)[|a| + k];
    }
    forall k | 0 <= k < |a| ensures input[i + k] == a[k] {
      assert input[i + k] == (a + b)[k];
    }
  }

  /** One piece: the scan goes on behind it with its meaning added to the token. */
  lemma ScanPiece(x: Lexicon, input: string, i: nat, inQuote: bool, tok: string, p: Piece)
    requires LegalPiece(x, p, inQuote) && At(input, i, PieceText(p))
    ensures Scan(x, input, i, inQuote, tok)
         == Scan(x, input, i + |PieceText(p)|, inQuote != p.Mark?, tok + PieceMeaning(p))
  {
    AtChar(input, i, PieceText(p), 0);
    AtChar(input, i, PieceText(p), |PieceText(p)| - 1);
    if p.Mark? {
      assert tok + PieceMeaning(p) == tok;
    }
  }

  /** Scanning over legal pieces adds their meaning to the token. */
  lemma {:induction false} ScanPieces(x: Lexicon, input: string, i: nat, inQuote: bool, tok: string, ps: seq<Piece>)
    requires At(input, i, Text(ps)) && Legal(x, ps, inQuote)
    ensures Scan(x, input, i, inQuote, tok)
         == Scan(x, input, i + |Text(ps)|, QuoteAfter(ps, inQuote), tok + Meaning(ps))
    decreases |ps|
  {
    if ps == [] {
      AppendAssoc(tok, "", "");
    } else {
      var p, t := ps[0], PieceText(ps[0]);
      AtSplit(input, i, t, Text(ps[1..]));
      ScanPiece(x, input, i, inQuote, tok, p);
      ScanPieces(x, input, i + |t|, inQuote != p.Mark?, tok + PieceMeaning(p), ps[1..]);
      AppendAssoc(tok, PieceMeaning(p), Meaning(ps[1..]));
    }
  }

  lemma TextEmpty(ps: seq<Piece>)
    ensures Text(ps) == "" <==> ps == []
  {}

  lemma {:induction false} LineYields(x: Lexicon, input: string, i: nat, last: bool, l: Line)
    requires At(input, i, LineText(l)) && i + |LineText(l)| == |input|
    requires LegalLine(x, l) && (i < |input| || last)
    ensures Yields(Caller(x), last, input, i, LineFields(l))
    decreases l
  {
    match l
    case Last(ps) =>
      CallLast(x, input, i, last, ps);
      YieldsLast(Caller(x), last, input, i, |input|, false, Meaning(ps));
    case Field(ps, s, rest) =>
      FieldParts(input, i, Text(ps), s, LineText(rest));
      CallField(x, input, i, last, ps, s);
      LineYields(x, input, i + |Text(ps)| + 1, true, rest);
      YieldsMore(Caller(x), last, input, i, i + |Text(ps)| + 1, true, Meaning(ps), LineFields(rest));
  }

  lemma CallLast(x: Lexicon, input: string, i: nat, last: bool, ps: seq<Piece>)
    requires At(input, i, Text(ps)) && i + |Text(ps)| == |input|
    requires Legal(x, ps, false) && (i < |input| || last)
    ensures Call(x, last, input, i) == Emitted(|input|, false, Meaning(ps))
  {
    TextEmpty(ps);
    ScanPieces(x, input, i, false, "", ps);
    AppendAssoc(Meaning(ps), "", "");
  }

  lemma CallField(x: Lexicon, input: string, i: nat, last: bool, ps: seq<Piece>, s: char)
    requires At(input, i, Text(ps)) && i + |Text(ps)| < |input| && input[i + |Text(ps)|] == s
    requires Legal(x, ps, false) && !QuoteAfter(ps, false) && s in x.sep && s !in x.escape
    ensures Call(x, last, input, i) == Emitted(i + |Text(ps)| + 1, true, Meaning(ps))
  {
    ScanPieces(x, input, i, false, "", ps);
    AppendAssoc(Meaning(ps), "", "");
  }

  lemma FieldParts(input: string, i: nat, t: string, s: char, rest: string)
    requires At(input, i, t + [s] + rest)
    ensures At(input, i, t) && At(input, i + |t| + 1, rest)
    ensures i + |t| < |input| && input[i + |t|] == s
  {
    AtSplit(input, i, t + [s], rest);
    AtSplit(input, i, t, [s]);
    AtChar(input, i + |t|, [s], 0);
  }

  // ----- and nothing else is read ----------------------------------------------------------------

  ghost predicate AtSeparator(x: Lexicon, input: string, i: nat)
    requires i < |input|
  {
    input[i] in x.sep && input[i] !in x.escape
  }

  /** The piece a scan finds at position i. */
  function PieceAt(x: Lexicon, input: string, i: nat): Piece
    requires i < |input| && (input[i] in x.escape ==> i + 1 < |input|)
  {
    if input[i] in x.escape then Escaped(input[i], input[i + 1])
    else if input[i] !in x.sep && input[i] in x.quote then Mark(input[i])
    else Raw(input[i])
  }

  lemma PieceAtIsLegal(x: Lexicon, input: string, i: nat, inQuote: bool, tok: string)
    requires i < |input| && Scan(x, input, i, inQuote, tok).Emitted?
    requires !(AtSeparator(x, input, i) && !inQuote)
    ensures input[i] in x.escape ==> i + 1 < |input|
    ensures LegalPiece(x, PieceAt(x, input, i), inQuote)
    ensures i + |PieceText(PieceAt(x, input, i))| <= |input|
    ensures input[i..i + |PieceText(PieceAt(x, input, i))|] == PieceText(PieceAt(x, input, i))
  {}

  /** A scan that goes on has passed a legal piece. */
  lemma FirstPiece(x: Lexicon, input: string, i: nat, inQuote: bool, tok: string) returns (p: Piece, k: nat)
    requires i < |input| && Scan(x, input, i, inQuote, tok).Emitted?
    requires !(AtSeparator(x, input, i) && !inQuote)
    ensures LegalPiece(x, p, inQuote) && i < k <= |input| && input[i..k] == PieceText(p)
    ensures Scan(x, input, i, inQuote, tok) == Scan(x, input, k, inQuote != p.Mark?, tok + PieceMeaning(p))
  {
    PieceAtIsLegal(x, input, i, inQuote, tok);
    p := PieceAt(x, input, i);
    k := i + |PieceText(p)|;
    AtSlice(input, i, PieceText(p));
    ScanPiece(x, input, i, inQuote, tok, p);
  }

  /** Where a scan stopped: at the end of the input, or behind a separator. */
  ghost predicate StopsAt(x: Lexicon, input: string, j: nat, inQuote: bool, out: Outcome<bool>) {
    if j >= |input| then j == |input| && out.next == j && !out.state
    else out.next == j + 1 && out.state && !inQuote && AtSeparator(x, input, j)
  }

  /** A scan that does not throw has gone over legal pieces, up to the end of the
      input or to a separator outside quotes. */
  lemma {:induction false} ParsePieces(x: Lexicon, input: string, i: nat, inQuote: bool, tok: string)
    returns (ps: seq<Piece>, j: nat)
    requires i <= |input| && Scan(x, input, i, inQuote, tok).Emitted?
    ensures Legal(x, ps, inQuote)
    ensures i <= j <= |input| && input[i..j] == Text(ps)
    ensures Scan(x, input, i, inQuote, tok).token == tok + Meaning(ps)
    ensures StopsAt(x, input, j, QuoteAfter(ps, inQuote), Scan(x, input, i, inQuote, tok))
    decreases |input| - i
  {
    if i == |input| || (AtSeparator(x, input, i) && !inQuote) {
      ps, j := [], i;
      AppendAssoc(tok, "", "");
    } else {
      var p, k := FirstPiece(x, input, i, inQuote, tok);
      var rest;
      rest, j := ParsePieces(x, input, k, inQuote != p.Mark?, tok + PieceMeaning(p));
      ps := Prepend(x, p, rest, inQuote);
      SliceJoin(input, i, k, j);
      AppendAssoc(tok, PieceMeaning(p), Meaning(rest));
    }
  }

  lemma AtSlice(input: string, i: nat, t: string)
    requires i + |t| <= |input| && input[i..i + |t|] == t
    ensures At(input, i, t)
  {
    forall k | 0 <= k < |t| ensures input[i + k] == t[k] {
      assert input[i..i + |t|][k] == t[k];
    }
  }

  lemma SliceJoin(input: string, i: nat, k: nat, j: nat)
    requires i <= k <= j <= |input|
    ensures input[i..j] == input[i..k] + input[k..j]
  {}

  lemma Prepend(x: Lexicon, p: Piece, rest: seq<Piece>, inQuote: bool) returns (ps: seq<Piece>)
    requires LegalPiece(x, p, inQuote) && Legal(x, rest, inQuote != p.Mark?)
    ensures Legal(x, ps, inQuote) && QuoteAfter(ps, inQuote) == QuoteAfter(rest, inQuote != p.Mark?)
    ensures Text(ps) == PieceText(p) + Text(rest) && Meaning(ps) == PieceMeaning(p) + Meaning(rest)
  {
    ps := [p] + rest;
    assert ps[1..] == rest;
  }

  /** The field that a successful call has read. */
  lemma ParseField(x: Lexicon, input: string, i: nat, last: bool) returns (ps: seq<Piece>, j: nat)
    requires i <= |input| && Call(x, last, input, i).Emitted?
    ensures Legal(x, ps, false) && i <= j <= |input| && input[i..j] == Text(ps)
    ensures j == |input| ==> Call(x, last, input, i) == Emitted(j, false, Meaning(ps))
    ensures j < |input| ==>
              && Call(x, last, input, i) == Emitted(j + 1, true, Meaning(ps))
              && !QuoteAfter(ps, false) && AtSeparator(x, input, j)
  {
    if i == |input| {
      ps, j := [], i;
    } else {
      ps, j := ParsePieces(x, input, i, false, "");
      AppendAssoc(Meaning(ps), "", "");
    }
  }

  lemma {:induction false} ParseLine(x: Lexicon, input: string, i: nat, last: bool, toks: seq<string>) returns (l: Line)
    requires i <= |input| && (i < |input| || last) && Yields(Caller(x), last, input, i, toks)
    ensures LegalLine(x, l) && LineText(l) == input[i..] && LineFields(l) == toks
    decreases |toks|
  {
    var out := Call(x, last, input, i);
    assert out.Emitted? && toks[0] == out.token && Yields(Caller(x), out.state, input, out.next, toks[1..]);
    assert toks == [toks[0]] + toks[1..];
    var ps, j := ParseField(x, input, i, last);
    if j == |input| {
      YieldsLast(Caller(x), last, input, i, |input|, false, out.token);
      YieldsUnique(Caller(x), last, input, i, toks, [out.token]);
      l := Last(ps);
    } else {
      var rest := ParseLine(x, input, j + 1, true, toks[1..]);
      l := Field(ps, input[j], rest);
      SuffixJoin(input, i, j);
    }
  }

  lemma SuffixJoin(input: string, i: nat, j: nat)
    requires i <= j < |input|
    ensures input[i..] == input[i..j] + [input[j]] + input[j + 1..]
  {}

  ghost predicate Spells(x: Lexicon, l: Line, input: string, toks: seq<string>) {
    LegalLine(x, l) && LineText(l) == input && LineFields(l) == toks
  }

  /** The iterator reads toks from a non-empty input, without an error, exactly when
      the input spells toks in the grammar. */
  lemma ReadsExactlyTheGrammar(x: Lexicon, input: string, toks: seq<string>)
    requires input != ""
    ensures IteratorYields(Caller(x), false, input, toks) <==> exists l :: Spells(x, l, input, toks)
  {
    assert input[0..] == input;
    if IteratorYields(Caller(x), false, input, toks) {
      var l := ParseLine(x, input, 0, false, toks);
      assert Spells(x, l, input, toks);
    }
    if exists l :: Spells(x, l, input, toks) {
      var l :| Spells(x, l, input, toks);
      LineYields(x, input, 0, false, l);
    }
  }

  // ----- everything else is an error -----------------------------------------------------------------

  lemma {:induction false} ScanForward(x: Lexicon, input: string, i: nat, inQuote: bool, tok: string)
    requires i <= |input|
    ensures var out := Scan(x, input, i, inQuote, tok);
            i <= out.next <= |input| && (i < |input| ==> i < out.next)
    decreases |input| - i
  {
    if i < |input| {
      if input[i] !in x.escape {
        ScanForward(x, input, i + 1, inQuote, tok + [input[i]]);
        ScanForward(x, input, i + 1, !inQuote, tok);
      } else if i + 1 < |input| {
        ScanForward(x, input, i + 2, inQuote, tok + [if input[i + 1] == 'n' then '\n' else input[i + 1]]);
      }
    }
  }

  /** Every reading ends, with or without an exception. */
  lemma {:induction false} ReadingEnds(x: Lexicon, last: bool, input: string, i: nat)
    returns (toks: seq<string>, fails: bool)
    requires i <= |input|
    ensures Gives(Caller(x), last, input, i, toks, fails)
    decreases |input| - i, last
  {
    ScanForward(x, input, i, false, "");
    match Call(x, last, input, i)
    case Emitted(next, last', token) =>
      toks, fails := ReadingEnds(x, last', input, next);
      GivesMore(Caller(x), last, input, i, next, last', token, toks, fails);
      toks := [token] + toks;
    case Ended(_, _) => toks, fails := [], false;
    case Threw(_, _, _) => toks, fails := [], true;
  }

  ghost predicate Legible(x: Lexicon, input: string) {
    exists l, toks :: Spells(x, l, input, toks)
  }

  /** escaped_list_error comes, after some tokens, exactly if the input spells nothing. */
  lemma FailsExactlyOutsideTheGrammar(x: Lexicon, input: string)
    requires input != ""
    ensures Fails(Caller(x), false, input, 0) <==> !Legible(x, input)
  {
    var toks, fails := ReadingEnds(x, false, input, 0);
    if Legible(x, input) {
      var l, toks' :| Spells(x, l, input, toks');
      ReadsExactlyTheGrammar(x, input, toks');
      forall bad | FailsAfter(Caller(x), false, input, 0, bad) ensures false {
        GivesUnique(Caller(x), false, input, 0, bad, true, toks', false);
      }
    } else if fails {
      assert FailsAfter(Caller(x), false, input, 0, toks);
    } else {
      ReadsExactlyTheGrammar(x, input, toks);
    }
  }

  // ----- what iterator equality sees -----------------------------------------------------------------

  lemma CallerForward(x: Lexicon)
    ensures Forward(Caller(x))
  {
    forall last: bool, input: string, i: nat | i <= |input| ensures i <= Call(x, last, input, i).next <= |input| {
      ScanForward(x, input, i, false, "");
    }
  }

  /** Only the blank field behind a last separator takes no input. */
  lemma OnlyLastBlankTakesNothing(x: Lexicon, input: string, i: nat, last: bool, n: nat, i': nat, last': bool)
    requires i <= |input| && n > 0 && Reaches(Caller(x), input, i, last, n, i', last')
    ensures TakesNothing(Caller(x), input, i, last, n) <==> n == 1 && i == |input| && last
  {
    ScanForward(x, input, i, false, "");
    if n > 1 && i == |input| {
      assert Reaches(Caller(x), input, i, false, n - 1, i', last');
    }
  }

  /** The two fields of "a," stand at the same position. */
  lemma LastBlank(x: Lexicon)
    requires ',' in x.sep && ',' !in x.escape && 'a' !in x.escape + x.sep + x.quote
    ensures Yields(Caller(x), false, "a,", 0, ["a", ""])
    ensures Reaches(Caller(x), "a,", 0, false, 1, 2, true) && Reaches(Caller(x), "a,", 2, true, 1, 2, false)
  {
    assert Scan(x, "a,", 1, false, "" + ['a']) == Emitted(2, true, "a");
    assert Call(x, false, "a,", 0) == Emitted(2, true, "a");
    YieldsLast(Caller(x), true, "a,", 2, 2, false, "");
    YieldsMore(Caller(x), false, "a,", 0, 2, true, "a", [""]);
    assert ["a"] + [""] == ["a", ""];
  }

  // ----- writing a list of fields -------------------------------------------------------------------

  function WriteChar(e: char, special: string, c: char): Piece {
    if c == '\n' then Escaped(e, 'n') else if c in special then Escaped(e, c) else Raw(c)
  }

  /** Characters in `special`, and newlines, are escaped; the rest is written plainly. */
  function Write(e: char, special: string, field: string): seq<Piece> {
    if field == "" then [] else [WriteChar(e, special, field[0])] + Write(e, special, field[1..])
  }

  /** A field escaped throughout, or between quotes with only quotes and escapes escaped. */
  function WriteField(e: char, c: char, q: char, field: string, quoted: bool): seq<Piece> {
    if quoted then [Mark(q)] + Write(e, [e, q], field) + [Mark(q)] else Write(e, [e, c, q], field)
  }

  function WriteLine(e: char, c: char, q: char, fields: seq<string>, quoted: seq<bool>): Line
    requires 0 < |fields| == |quoted|
  {
    var ps := WriteField(e, c, q, fields[0], quoted[0]);
    if |fields| == 1 then Last(ps) else Field(ps, c, WriteLine(e, c, q, fields[1..], quoted[1..]))
  }

  ghost predicate Distinct(e: char, c: char, q: char) {
    e != c && e != q && c != q && 'n' !in [e, c, q]
  }

  lemma {:induction false} WriteMeans(e: char, c: char, q: char, field: string, quoted: bool)
    requires Distinct(e, c, q)
    ensures var ps := Write(e, if quoted then [e, q] else [e, c, q], field);
            Legal(Lexicon([e], [c], [q]), ps, quoted) && QuoteAfter(ps, quoted) == quoted && Meaning(ps) == field
    decreases |field|
  {
    if field != "" {
      var special := if quoted then [e, q] else [e, c, q];
      WriteMeans(e, c, q, field[1..], quoted);
      var ps := Write(e, special, field);
      assert ps[1..] == Write(e, special, field[1..]);
      assert field == [field[0]] + field[1..];
    }
  }

  lemma {:induction false} LegalAppend(x: Lexicon, ps: seq<Piece>, p: Piece, inQuote: bool)
    requires Legal(x, ps, inQuote) && LegalPiece(x, p, QuoteAfter(ps, inQuote))
    ensures Legal(x, ps + [p], inQuote)
    ensures QuoteAfter(ps + [p], inQuote) == (QuoteAfter(ps, inQuote) != p.Mark?)
    ensures Meaning(ps + [p]) == Meaning(ps) + PieceMeaning(p)
    decreases |ps|
  {
    if ps != [] {
      LegalAppend(x, ps[1..], p, inQuote != ps[0].Mark?);
      assert (ps + [p])[1..] == ps[1..] + [p];
    }
  }

  lemma WriteFieldMeans(e: char, c: char, q: char, field: string, quoted: bool)
    requires Distinct(e, c, q)
    ensures var ps := WriteField(e, c, q, field, quoted);
            Legal(Lexicon([e], [c], [q]), ps, false) && !QuoteAfter(ps, false) && Meaning(ps) == field
  {
    WriteMeans(e, c, q, field, quoted);
    if quoted {
      var body := Write(e, [e, q], field);
      LegalAppend(Lexicon([e], [c], [q]), body, Mark(q), true);
      assert [Mark(q)] + body + [Mark(q)] == [Mark(q)] + (body + [Mark(q)]);
      assert ([Mark(q)] + (body + [Mark(q)]))[1..] == body + [Mark(q)];
    }
  }

  lemma {:induction false} WriteLineMeans(e: char, c: char, q: char, fields: seq<string>, quoted: seq<bool>)
    requires Distinct(e, c, q) && 0 < |fields| == |quoted|
    ensures var l := WriteLine(e, c, q, fields, quoted);
            LegalLine(Lexicon([e], [c], [q]), l) && LineFields(l) == fields
    decreases |fields|
  {
    WriteFieldMeans(e, c, q, fields[0], quoted[0]);
    if |fields| > 1 {
      WriteLineMeans(e, c, q, fields[1..], quoted[1..]);
    }
    assert fields == [fields[0]] + fields[1..];
  }

  /** Round trip: the iterator returns exactly the fields that were written, whichever
      of them were quoted; the one exception is a sole empty field left unquoted. */
  lemma RoundTrip(e: char, c: char, q: char, fields: seq<string>, quoted: seq<bool>)
    requires Distinct(e, c, q) && 0 < |fields| == |quoted|
    ensures IteratorYields(Caller(Lexicon([e], [c], [q])), false, LineText(WriteLine(e, c, q, fields, quoted)), fields)
       <==> !(fields == [""] && quoted == [false])
  {
    var l := WriteLine(e, c, q, fields, quoted);
    WriteLineMeans(e, c, q, fields, quoted);
    var input := LineText(l);
    assert input == "" <==> fields == [""] && quoted == [false];
    if input != "" {
      LineYields(Lexicon([e], [c], [q]), input, 0, false, l);
    }
  }
}
