# Verified model of mmdriver's core

This project models the parts of mmdriver, and of the Boost code it carries, whose correctness rests on
an argument rather than on inspection, and proves that argument. `dafny verify dfyconfig.toml` checks it.

* **Exact fractions** (`lib/boost/boost/rational.hpp`). `NumberTheory` defines gcd and lcm by their divisibility
  properties and derives Bezout, Gauss and the coprimality laws. `CommonFactor` holds the gcd and lcm algorithms of
  `common_factor_rt.hpp`, including the binary gcd. `Fractions` says what a reduced fraction is, which real number
  it stands for, and what the textbook operations are. `FastForms` shows why the operators need no full
  renormalisation, and the class `Rational` is the in-place code, proved to refine the textbook operations.
  `ContinuedFractions` proves the loop of `operator<`, and `Ranges` says which values the operators go through on
  the way. `FieldLaws` and `RationalGcd` prove what follows.
* **Tokenizer** (`token_functions.hpp`, `token_iterator.hpp`). A tokenizer function is a state-passing function
  (`Tokens`); `Yields` is the relation between an input and the tokens read from it, `FailsAfter` the one for a
  reading that an exception cuts off. Each separator class is proved to take exactly the steps of its function, for
  both iterator categories, and each function is compared with an independent description of the tokens.
  `TokenIterators` is the iterator, `Tokenizers` puts the two together.
* **Service manager** (`src/service`). `Services` holds the two classes as single-threaded code. `Scheduler` is the
  transition system of the manager thread and any number of pool workers, one atomic step at a time;
  `SchedulerSafety` is about its finite runs, `SchedulerLiveness` about progress in its endless ones,
  `SchedulerReturn` says exactly when the manager returns, and `SchedulerTicks` that until then the services tick.
* **SQL cursor**, **split** and **dotted lookup** (`SqliteResult`, `StringUtility`, `LuaObjects`).

C++ division truncates; Dafny's does not, so `TruncDiv` and `TruncMod` are defined and used throughout. A thrown
exception is a `thrown` result. The class template `rational` is modelled over an integer type without overflow.
Where the original promises to stay in range, the method also returns every intermediate value it computed (`seen`,
`steps`) and says how they lie with respect to the inputs and the result. `BoundedRational` has comparison, addition
and multiplication once more over a 32-bit type in which every operation is checked for overflow, and `FixedWidth`
the constructor over two's complement, with the negation that `rational.hpp` describes at lines 419-422.

## What turned out not to hold

Each is stated with the exact condition under which it does hold, and most with a concrete input
(`FixedWidth.SmallestOverMinusOne`, `Ranges.SumLeavesRange`, `OffsetSeparator.ThreeOfFour`,
`OffsetSeparator.ZeroThenThree`, `CharSeparator.UsedObjectLosesField`, `CharSeparator.PlusThenEmpty`,
`EscapedList.LastBlank`, `SchedulerSafety.ThrowLeavesRunning`, `StringUtility.EmptyLastPartIsLost`).

* Over a fixed-width type `normalize` detects a denominator that it could not make positive, but not a numerator
  that it could not negate: constructing smallest/-1 leaves smallest/1. Of a pair without a common factor, the
  smallest value as denominator throws, and as numerator over a negative denominator it keeps its sign; every other
  pair comes out right (`FixedWidth.WrongExactlyIf`).
* `operator+=` and `operator-=` claim to avoid overflow. All their values lie within inputs and result, except the
  two products and their sum before the second gcd, so they stay in range exactly if those three do
  (`Rational.Rational.AddAssign`, `Ranges.StaysInRange`). Over eight bits 100/3 + -99/2 = -97/6 goes through 200.
  Each of the three lies between zero and what the textbook formula has in its place (`Ranges.StepsBelowTextbook`).
* `offset_separator` with `return_partial_last` off tests `i < c-1`, so a last piece that lacks one character is
  delivered anyway (`OffsetSeparator.PartialLastIsOffByOne`). Wrapping round offsets of which none is positive, it
  delivers empty tokens without end; with one positive offset it ends (`OffsetSeparator.EndsExactlyIf`).
* `char_separator::reset()` does not clear `m_output_done`; a reused function object loses the leading empty field
  exactly when the input starts with a delimiter (`CharSeparator.StaleFlag`).
* Token iterators compare positions only, so iterators at different tokens compare equal exactly when no call between
  them took any input (`Tokenizers.EqualIterators`). In keep-empty mode these are the neighbours of which the later
  is an empty field, in an escaped list the field before a last separator and the blank behind it, with offsets the
  pieces of non-positive length; in drop mode there are none.
* `Service::Run` sets the running state back only when it does not throw. `__LEAVE_FUNCTION` rethrows, and a second
  Run of a service in `SS_START_FAIL` asserts. `RS_RUNNING` means that a Run is executing exactly as long as no Run
  of the service has ended with an exception (`SchedulerSafety.OneRunPerService`); after one, in whatever phase, the
  service gets no Run any more and the manager does not return (`SchedulerSafety.ThrowIsForever`).
* The manager does not return if one service has the base class's `IsShutdownOK`, whatever the others answer
  (`SchedulerSafety.BaseNeverStops`). Under a fair scheduler, and if no `NeedSchedule` puts its service off for ever,
  it returns exactly if `ShutDown()` is called, no hook throws, every Init succeeds, and every `IsStartOK` and every
  `IsShutdownOK` answers true when asked often enough (`SchedulerReturn.ManagerReturnsExactlyIf`).
* Splitting loses an empty last part (`StringUtility.SplitAndJoin`), so a dotted name that ends in a dot finds
  what the name without it finds (`LuaObjects.LookupIsDescent`).

## Assumptions

* A worker thread whose task throws goes on with the next task; what the thread library itself does then is outside
  the model. A `Wait` that times out is outside the model: the manager leaves `Draining` only with an empty pool.
* Registration is complete before `Run`, and in the interleavings no service is registered twice. Every hook answers
  as it likes, from call to call, but endless runs assume that a `NeedSchedule` which would answer true in the base
  class, and is asked again and again, answers true some time (`SchedulerLiveness.NeedsRecur`); one that only limits
  the rate, as in `test/MonitorService.cpp`, is within that.
* No table is handed to a cursor twice, and it has the size SQLite gives it. The read operators of a cursor test the
  column but not the table, so they must not be called while counts came without a table.
* `atoi` and the locale's `isspace` and `ispunct` are function parameters. Texts contain no NUL character.

## Model

| member | source | states |
|---|---|---|
| CommonFactor.GcdEuclidean | lib/boost/boost/integer/common_factor_rt.hpp:84-108 | the alternating remainder loop terminates for all signs and leaves the gcd up to its sign |
| CommonFactor.GcdInteger | lib/boost/boost/integer/common_factor_rt.hpp:114-125 | the result is the non-negative gcd: a common divisor that every common divisor divides |
| CommonFactor.GcdBinary | lib/boost/boost/integer/common_factor_rt.hpp:130-187 | shifting out twos and subtracting computes the same gcd |
| CommonFactor.OddGcd | lib/boost/boost/integer/common_factor_rt.hpp:150-178 | the difference loop keeps the gcd of a pair of which one is odd |
| CommonFactor.LcmInteger | lib/boost/boost/integer/common_factor_rt.hpp:194-221 | the result is the least common multiple, zero if an argument is, although the gcd used may be negative |
| NumberTheory.EuclidIsGcd | lib/boost/boost/rational.hpp:96-108 | Euclid's algorithm yields a number with the defining property of the gcd |
| NumberTheory.LcmIsLcm | lib/boost/boost/rational.hpp:102-107 | the lcm is a common multiple that divides every common multiple |
| Rational.InnerGcdIsGcd | lib/boost/boost/rational.hpp:231-238 | the recursive truncating gcd terminates for all signed arguments and its absolute value is the gcd |
| Rational.IsNormalizedAgrees | lib/boost/boost/rational.hpp:247-253 | the compile-time check accepts exactly the reduced fractions with positive denominator |
| Rational.Rational.TestInvariant | lib/boost/boost/rational.hpp:536-541 | the run-time check accepts exactly the same |
| Rational.Rational.Zero | lib/boost/boost/rational.hpp:150-151 | the default value is 0/1, reduced |
| Rational.Rational.FromInt | lib/boost/boost/rational.hpp:152-153 | an integer n becomes n/1, reduced |
| Rational.Rational.Make | lib/boost/boost/rational.hpp:154 | construction throws exactly for a zero denominator and otherwise reduces |
| Rational.Rational.Normalize | lib/boost/boost/rational.hpp:544-578 | throws exactly for a zero denominator, leaving the fields; otherwise leaves the reduced form of the old fields, 0 as 0/1 |
| Rational.Rational.Assign | lib/boost/boost/rational.hpp:257-261 | assigns the reduced form, or throws and changes nothing |
| FixedWidth.Normalize | lib/boost/boost/rational.hpp:544-578 | over a type whose smallest value stays itself when negated: throws for a zero denominator and for a reduced denominator one above the largest value, gives the wrong sign for such a numerator, and is exact otherwise |
| FixedWidth.WrongExactlyIf | lib/boost/boost/rational.hpp:559-577 | for a non-zero denominator, construction throws if and only if the pair has no common factor and the smallest value as denominator, stores the wrong sign if and only if it has none and the smallest value stands over a negative denominator, and is right for every other pair |
| FixedWidth.SmallestOverMinusOne | lib/boost/boost/rational.hpp:564-575 | the smallest value over -1 is stored as itself over 1, where the exact value is one above the largest |
| Fractions.ReducedUnique | lib/boost/boost/rational.hpp:240-245 | reduced fractions with equal cross products have equal fields |
| Fractions.ReductionIsCanonical | lib/boost/boost/rational.hpp:523-526 | two pairs reduce to the same fields if and only if their cross products agree |
| Fractions.DivideByGcd | lib/boost/boost/rational.hpp:559-568 | dividing both parts by the gcd and fixing the sign reduces |
| Rational.Rational.AddAssign | lib/boost/boost/rational.hpp:279-311 | += leaves exactly the reduced form of the textbook sum, also when the operand is the object itself; every value on the way is within inputs and result but the two products and their sum, which are returned |
| Rational.Rational.SubAssign | lib/boost/boost/rational.hpp:313-330 | -= leaves exactly the reduced form of the difference, with the same said about the values on the way |
| Ranges.StaysInRange | lib/boost/boost/rational.hpp:282-307 | += and -= stay in a range that holds inputs and result if and only if the two products and their sum or difference do |
| Ranges.StepsBelowTextbook | lib/boost/boost/rational.hpp:282-307 | each of these three lies between zero and the value that the textbook formula has in its place |
| Ranges.SumLeavesRange | lib/boost/boost/rational.hpp:282-307 | 100/3 + -99/2 is -97/6, but goes through 200 and -297 |
| Ranges.SumFits | lib/boost/boost/rational.hpp:303-308 | gcds, cofactors, final numerator and denominator of += lie within inputs and result |
| Rational.Rational.MulAssign | lib/boost/boost/rational.hpp:332-345 | *= leaves exactly the reduced product, and no intermediate value leaves the range of inputs and result |
| Rational.Rational.DivAssign | lib/boost/boost/rational.hpp:347-374 | /= throws exactly for a zero divisor, changing nothing, and otherwise leaves the reduced quotient with positive denominator |
| FastForms.NumeratorCoprime | lib/boost/boost/rational.hpp:284-293 | the numerator over the common denominator is coprime to both cofactors |
| FastForms.FastSum | lib/boost/boost/rational.hpp:284-308 | dividing out gcd(numerator, g) alone reduces the sum, as the comment claims |
| FastForms.FastProduct | lib/boost/boost/rational.hpp:339-343 | dividing out the two cross gcds reduces the product |
| FastForms.FastQuotient | lib/boost/boost/rational.hpp:363-372 | the same for the quotient, with the sign moved to the numerator |
| Rational.Rational.AddInt | lib/boost/boost/rational.hpp:185 | += i is the reduced sum with i/1 |
| Rational.Rational.SubInt | lib/boost/boost/rational.hpp:186 | -= i is the reduced difference with i/1 |
| Rational.Rational.MulInt | lib/boost/boost/rational.hpp:377-387 | *= i is the reduced product with i/1, zero included |
| Rational.Rational.DivInt | lib/boost/boost/rational.hpp:389-410 | /= i throws exactly for zero and is otherwise the reduced quotient by i/1 |
| Rational.Rational.Increment | lib/boost/boost/rational.hpp:191 | ++ is the reduced sum with 1 |
| Rational.Rational.Decrement | lib/boost/boost/rational.hpp:192 | -- is the reduced difference with 1 |
| Rational.Rational.Negated | lib/boost/boost/rational.hpp:271-275 | unary minus keeps the fraction reduced |
| Rational.Rational.Absolute | lib/boost/boost/rational.hpp:668-672 | the absolute value |
| Rational.Rational.Equals | lib/boost/boost/rational.hpp:523-526 | comparing the fields of two objects compares the numbers they stand for |
| Rational.Rational.EqualsInt | lib/boost/boost/rational.hpp:528-533 | the test against an integer compares the numbers |
| Fractions.SumIsExact | lib/boost/boost/rational.hpp:279-311 | the reduced sum stands for the real sum |
| Fractions.DifferenceIsExact | lib/boost/boost/rational.hpp:313-330 | the reduced difference stands for the real difference |
| Fractions.ProductIsExact | lib/boost/boost/rational.hpp:332-345 | the reduced product stands for the real product |
| Fractions.QuotientIsExact | lib/boost/boost/rational.hpp:347-374 | the reduced quotient stands for the real quotient |
| FieldLaws.SumCommutes | lib/boost/boost/rational.hpp:240-245 | addition commutes on the stored fields |
| FieldLaws.SumAssociates | lib/boost/boost/rational.hpp:240-245 | addition associates on the stored fields |
| FieldLaws.ProductCommutes | lib/boost/boost/rational.hpp:240-245 | multiplication commutes on the stored fields |
| FieldLaws.ProductAssociates | lib/boost/boost/rational.hpp:240-245 | multiplication associates on the stored fields |
| FieldLaws.Distributes | lib/boost/boost/rational.hpp:240-245 | multiplication distributes over addition on the stored fields |
| FieldLaws.Inverses | lib/boost/boost/rational.hpp:271-330 | units, negation, and subtraction undoing addition, on the stored fields |
| FieldLaws.QuotientUndoesProduct | lib/boost/boost/rational.hpp:332-374 | dividing by a non-zero factor gives the other factor's fields back |
| FieldLaws.ProductUndoesQuotient | lib/boost/boost/rational.hpp:332-374 | multiplying by the divisor gives the dividend's fields back |
| FieldLaws.ChainIsExact | lib/boost/boost/rational.hpp:179-188 | after any chain of compound assignments, with the object itself as operand or a division by zero on the way, the fields are the reduced form of the exact real result |
| FieldLaws.ChainsAgree | lib/boost/boost/rational.hpp:523-526 | two chains end in equal fields if and only if they denote the same real number |
| Rational.Rational.LessThan | lib/boost/boost/rational.hpp:413-495 | the continued-fraction loop terminates and returns exactly n1*d2 < n2*d1, with every n, d, q and r between the smallest and the largest of the inputs and zero |
| BoundedRational.Rational32.LessThan | lib/boost/boost/rational.hpp:413-495 | over 32 bits the loop decides the order of the real values, and none of its operations overflows, whatever the operands |
| BoundedRational.Rational32.MulAssign | lib/boost/boost/rational.hpp:332-345 | over 32 bits no operation overflows if the reduced product fits |
| BoundedRational.Rational32.AddAssign | lib/boost/boost/rational.hpp:279-311 | over 32 bits no operation overflows if the reduced sum fits and the two products and their sum do |
| ContinuedFractions.FirstTerm | lib/boost/boost/rational.hpp:428-441 | the adjusted first term has a remainder in [0, d), its quotient is the floor, and all values stay within the inputs |
| ContinuedFractions.QuotientsDecide | lib/boost/boost/rational.hpp:446-455 | the first differing quotient orders the fractions, equal ones leave it to the fractional parts |
| ContinuedFractions.ReciprocalsReverse | lib/boost/boost/rational.hpp:451-469 | going on to the reciprocals of the fractional parts turns the order round |
| ContinuedFractions.RemaindersDecide | lib/boost/boost/rational.hpp:472-494 | where an expansion ends, the one that goes on is the larger, and equal ends mean equal values |
| ContinuedFractions.NextFits | lib/boost/boost/rational.hpp:466-469 | every field of the next term stays within the bounds of the fields before it |
| Ranges.WithinFits | lib/boost/boost/rational.hpp:37-39 | values within the inputs fit any range the inputs fit |
| Ranges.CrossGcdsFit | lib/boost/boost/rational.hpp:339-343 | gcds and cofactors of operator*= lie within the inputs |
| Rational.Rational.LessThanInt | lib/boost/boost/rational.hpp:497-513 | comparing the floor with i decides the order against i/1 |
| Rational.Rational.GreaterThanInt | lib/boost/boost/rational.hpp:515-519 | the negation with the equality test decides i/1 < value |
| ContinuedFractions.FloorDecides | lib/boost/boost/rational.hpp:508-511 | n/d < i if and only if the floor of n/d is below i |
| ContinuedFractions.LessIsRealOrder | lib/boost/boost/rational.hpp:413-495 | the cross-product order is the order of the real values |
| ContinuedFractions.Trichotomy | lib/boost/boost/operators.hpp:136-141 | neither less than the other if and only if the fields agree; never both, so the derived operators are consistent with == |
| ContinuedFractions.LessTransitive | lib/boost/boost/operators.hpp:136-141 | the order and its derived <= are transitive |
| RationalGcd.GcdEvaluator | lib/boost/boost/rational.hpp:676-688 | returns gcd of numerators over lcm of denominators, already reduced |
| RationalGcd.LcmEvaluator | lib/boost/boost/rational.hpp:690-702 | returns lcm of numerators over gcd of denominators, already reduced |
| RationalGcd.DividesComponents | lib/boost/boost/rational.hpp:685-686 | a reduced fraction goes into another an integral number of times if and only if the numerators and, the other way round, the denominators divide |
| RationalGcd.FractionGcdIsGcd | lib/boost/boost/rational.hpp:676-688 | the rational gcd goes into both fractions, and a fraction goes into both if and only if it goes into the gcd |
| RationalGcd.FractionLcmIsLcm | lib/boost/boost/rational.hpp:690-702 | both fractions go into the rational lcm, and into another fraction if and only if the lcm does |
| Tokens.YieldsUnique | lib/boost/boost/token_iterator.hpp:50-53 | an input yields at most one token list |
| Tokens.GivesUnique | lib/boost/boost/token_iterator.hpp:50-53 | an input has at most one reading, whether it ends or fails |
| Tokens.SamePosition | lib/boost/boost/token_iterator.hpp:59-65 | for a function that never moves back, the position after n calls is the old one if and only if none of them took any input |
| TokenIterators.TokenIterator.Make | lib/boost/boost/token_iterator.hpp:76-77 | construction throws if and only if the first call does; otherwise the iterator stands on the first of the tokens that its reset function delivers, before an end or an exception, and on an empty range it is at the end |
| TokenIterators.TokenIterator.Initialize | lib/boost/boost/token_iterator.hpp:67-72 | does nothing to a valid iterator, else resets the function and fetches a token only from a non-empty range; the state after an exception is stated |
| TokenIterators.TokenIterator.Increment | lib/boost/boost/token_iterator.hpp:50-53 | moves to the rest of the tokens; an exception comes exactly behind the last token before it, and leaves the iterator valid, at the position where the function stopped and with half a token |
| TokenIterators.TokenIterator.Dereference | lib/boost/boost/token_iterator.hpp:55-58 | gives the first remaining token |
| TokenIterators.TokenIterator.AtEnd | lib/boost/boost/token_iterator.hpp:97 | true if and only if no token remains |
| TokenIterators.EqualsEnd | lib/boost/boost/token_iterator.hpp:59-65 | an iterator equals one at the end, from either side, if and only if nothing remains of it |
| TokenIterators.Visit | lib/boost/boost/tokenizer.hpp:86-87 | a loop from begin() that compares with end() visits exactly the tokens the function delivers, and ends with an exception if and only if the function throws behind them |
| EscapedList.EscapedListSeparator.DoEscape | lib/boost/boost/token_functions.hpp:126-148 | reads the escaped character, or throws for a missing or unknown one |
| EscapedList.EscapedListSeparator.Next | lib/boost/boost/token_functions.hpp:161-198 | the loop with its pending-blank flag takes exactly the step of the scanning function, error cases included |
| EscapedList.ScanPieces | lib/boost/boost/token_functions.hpp:175-196 | scanning over legally written pieces adds exactly their meaning to the token |
| EscapedList.LineYields | lib/boost/boost/token_functions.hpp:161-198 | every line of the grammar is read as its fields, a blank field behind the last separator included |
| EscapedList.ReadsExactlyTheGrammar | lib/boost/boost/token_functions.hpp:127-198 | a non-empty input is read as given tokens, without an error, if and only if it spells them in the grammar |
| EscapedList.FailsExactlyOutsideTheGrammar | lib/boost/boost/token_functions.hpp:127-148 | reading a non-empty input ends, and with escaped_list_error if and only if the input spells nothing in the grammar |
| EscapedList.RoundTrip | lib/boost/boost/token_functions.hpp:80-87 | any non-empty list of fields, each escaped or quoted, is read back, except a sole empty field left unquoted |
| Tokenizers.WriteAndRead | lib/boost/boost/token_iterator.hpp:50-72 | the same through the iterator, and what the exception reads |
| CharSeparator.Separator.Next | lib/boost/boost/token_functions.hpp:457-527 | with assigned ranges or with appended characters, every call takes the same step and delivers the same token, in both modes |
| CharSeparator.Separator.constructor | lib/boost/boost/token_functions.hpp:433-446 | exactly the characters given are kept and dropped; no characters given, none |
| CharSeparator.Separator.Default | lib/boost/boost/token_functions.hpp:448-453 | exactly the locale's punctuation is kept and its space dropped |
| CharSeparator.ReadDropping | lib/boost/boost/token_functions.hpp:457-489 | calling a drop-mode object until it returns false gives the tokens of its characters, for both iterator categories |
| CharSeparator.ReadByDefault | lib/boost/boost/token_functions.hpp:448-489 | a default object reads the tokens that keep the locale's punctuation and drop its space |
| CharSeparator.Separator.Run | lib/boost/boost/token_functions.hpp:487-488 | the inner loop takes the longest delimiter-free run |
| CharSeparator.KeepModeReads | lib/boost/boost/token_functions.hpp:490-526 | keep mode yields exactly the fields between delimiters and the kept delimiters; kept wins over dropped |
| CharSeparator.KeepConserves | lib/boost/boost/token_functions.hpp:490-526 | D dropped and K kept delimiters give D+2K+1 tokens that concatenate to the input without the dropped ones |
| CharSeparator.KeepMeasureFalls | lib/boost/boost/token_functions.hpp:490-526 | 2*remaining + (0 if the output is done, else 1) falls with every successful call |
| CharSeparator.StaleFlag | lib/boost/boost/token_functions.hpp:455 | after use, an input yields the same tokens as for a fresh object if and only if it does not start with a delimiter |
| CharSeparator.UsedObjectLosesField | lib/boost/boost/token_functions.hpp:455 | ",a" has two fields for a fresh function object and one for a used one |
| CharSeparator.DropModeReads | lib/boost/boost/token_functions.hpp:469-489 | drop mode yields exactly the kept delimiters and the runs between delimiters |
| CharSeparator.DropIsKeepWithoutEmpties | lib/boost/boost/token_functions.hpp:469-526 | drop mode yields the non-empty tokens of keep mode, with dropped winning over kept |
| CharSeparator.DropConserves | lib/boost/boost/token_functions.hpp:469-489 | the tokens concatenate to the input without its dropped characters |
| CharSeparator.DropShape | lib/boost/boost/token_functions.hpp:409-414 | no token is empty; each is one kept delimiter or free of delimiters |
| CharSeparator.OnlyEmptyFieldsTakeNothing | lib/boost/boost/token_functions.hpp:490-526 | n successful keep-mode calls take no input if and only if n is 1 and the field that is due is empty |
| CharSeparator.DroppersAdvance | lib/boost/boost/token_functions.hpp:469-489 | every successful drop-mode call takes some input |
| CharSeparator.PlusThenEmpty | lib/boost/boost/token_iterator.hpp:59-65 | the second and third token of "+" are delivered at the same position |
| EscapedList.OnlyLastBlankTakesNothing | lib/boost/boost/token_functions.hpp:161-173 | n successful calls take no input if and only if n is 1 and the field is the blank behind a last separator |
| EscapedList.LastBlank | lib/boost/boost/token_functions.hpp:161-173 | the two fields of "a," are delivered at the same position |
| OffsetSeparator.OnlyZeroLengthsTakeNothing | lib/boost/boost/token_functions.hpp:391-397 | n successful calls take no input if and only if none of the n offsets in turn is positive |
| Tokenizers.EqualIterators | lib/boost/boost/token_iterator.hpp:59-65 | for any function that never moves back, valid iterators compare equal if and only if they are over one input and none of the calls between them took any of it |
| Tokenizers.EqualKeeping | lib/boost/boost/token_iterator.hpp:59-65 | keeping empty tokens: if and only if they are neighbours and the later token is an empty field |
| Tokenizers.EqualDropping | lib/boost/boost/token_iterator.hpp:59-65 | dropping empty tokens: never |
| Tokenizers.EqualFields | lib/boost/boost/token_iterator.hpp:59-65 | an escaped list: if and only if they are the field before a last separator and the blank behind it |
| Tokenizers.EqualPieces | lib/boost/boost/token_iterator.hpp:59-65 | offsets: if and only if none of the offsets in between is positive |
| CharSeparator.DelimitersSeparator.Next | lib/boost/boost/token_functions.hpp:619-645 | the deprecated separator takes the drop-mode step of the newer one |
| CharSeparator.DelimitersSeparator.constructor | lib/boost/boost/token_functions.hpp:607-613 | which characters are returned and which are skipped, for given characters, none, and null pointers |
| CharSeparator.ReadDeprecated | lib/boost/boost/token_functions.hpp:619-645 | calling the deprecated object until it returns false gives the tokens of its characters |
| CharSeparator.ReadByDeprecatedDefault | lib/boost/boost/token_functions.hpp:607-645 | the deprecated default drops the locale's punctuation and its space |
| CharSeparator.DefaultsDiffer | lib/boost/boost/token_functions.hpp:448-453 | "a,b c" is "a", ",", "b", "c" to the one default and "a", "b", "c" to the other |
| CharSeparator.DeprecatedAgrees | lib/boost/boost/token_functions.hpp:557-645 | with non-empty sets it yields the newer one's tokens, with or without returned delimiters |
| Tokenizers.TokenizeKeeping | lib/boost/boost/tokenizer.hpp:86-87 | the whole keep-mode tokenizer; an empty input has no token |
| Tokenizers.TokenizeDropping | lib/boost/boost/tokenizer.hpp:86-87 | the whole drop-mode tokenizer |
| Tokenizers.TokenizeByOffsets | lib/boost/boost/tokenizer.hpp:86-87 | the whole offset tokenizer, and exactly when its tokens make up the input |
| OffsetSeparator.Separator.Next | lib/boost/boost/token_functions.hpp:366-405 | with assigned ranges or with appended characters, every call takes the same step and delivers the same token |
| OffsetSeparator.YieldsPieces | lib/boost/boost/token_functions.hpp:366-405 | with or without wrapping, and for offsets of any sign, the calls yield the pieces of those lengths in turn until input or offsets are used up |
| OffsetSeparator.EndsExactlyIf | lib/boost/boost/token_functions.hpp:378-386 | a non-empty input has a finite token list if and only if the separator does not wrap or some offset is positive |
| OffsetSeparator.ZeroThenThree | lib/boost/boost/token_functions.hpp:391-397 | with the offsets 0 and 3, "abc" is read as an empty token and "abc" |
| OffsetSeparator.PiecesFollowLengths | lib/boost/boost/token_functions.hpp:378-397 | every token has the length whose turn it is, none for a negative one, but for the shortfall of the last; without wrapping there is at most one for each offset |
| OffsetSeparator.PiecesConserve | lib/boost/boost/token_functions.hpp:391-404 | if the last piece counts, the tokens make up the input as far as the offsets reach |
| OffsetSeparator.PiecesFallShort | lib/boost/boost/token_functions.hpp:399-401 | if it does not, something is lost |
| OffsetSeparator.LeftOverIsDifference | lib/boost/boost/token_functions.hpp:382-386 | without wrapping, what is left over is the input's length less the sum of the positive offsets |
| OffsetSeparator.PartialLastIsOffByOne | lib/boost/boost/token_functions.hpp:378-401 | the whole input comes out if and only if the separator wraps or its offsets reach the end, and partial tokens are on or the last piece lacks at most one character |
| OffsetSeparator.ThreeOfFour | lib/boost/boost/token_functions.hpp:399-401 | with partial tokens off, "abc" is delivered for a wanted length of four |
| Services.Service.Run | src/service/service.cpp:46-101 | for every state which hook is called, the state written for every outcome of it, and that a Run that throws leaves the service running |
| Services.BaseAnswersNo | src/service/service.cpp:103-116 | the states in which each of the base class's answers is no |
| Services.ServiceManager.Register | src/service/servicemanager.cpp:39-54 | throws for a null pointer; otherwise appends the service, even one registered before, and numbers it from one |
| Services.ServiceManager.Tick | src/service/servicemanager.cpp:122-161 | exactly the ready services in a state other than SS_NONE and SS_SHUTDOWN_OK become scheduled and get one job each, in order and once, even one registered twice; no other is touched |
| Services.ServiceManager.IsAllServiceStatusEqual | src/service/servicemanager.cpp:190-204 | true if and only if every service has the state |
| Services.ServiceManager.SetAllServiceStatus | src/service/servicemanager.cpp:205-215 | sets the state of every service and nothing else |
| Services.ServiceManager.RunLogicBreakCondition | src/service/servicemanager.cpp:103-120 | when each phase stops |
| Services.ServiceManager.ShutDown | src/service/servicemanager.cpp:163-172 | sets the flag |
| Scheduler.UndisturbedRun | src/service/service.cpp:46-101 | the atomic steps of one job, undisturbed, do to the service what Run does |
| Scheduler.WorkShows | src/service/service.cpp:52-83 | a Run begun in SS_START, SS_RUN or SS_SHUTDOWN calls Init, Tick or Shutdown, the call returns unless it throws, and no step of a Run touches the manager or another service |
| Scheduler.UndisturbedTick | src/service/servicemanager.cpp:122-161 | the manager's visits, undisturbed, give one run more to exactly the services that Tick schedules |
| Scheduler.UndisturbedCheck | src/service/servicemanager.cpp:103-120 | reading the states one by one, undisturbed, ends the loop if and only if all are the closing state |
| Scheduler.AdvanceKeeps | src/service/service.cpp:52-96 | a worker's step keeps its service within the phase and logs at most one event, of the kind of that phase: ticks only in the run phase |
| Scheduler.StepKeepsInv | src/service/servicemanager.cpp:75-101 | every step of manager or worker keeps the invariant of jobs, phases and events |
| SchedulerSafety.OneRunPerService | src/service/servicemanager.cpp:128-140 | in every interleaving a service has at most one outstanding Run: none when ready, one queued when scheduled; when running one executes if and only if no Run of it has ended with an exception |
| SchedulerSafety.ThrewExactlyIf | src/service/service.cpp:46-101 | the recorded flag is set if and only if in some step of the service a hook threw or a Run found SS_START_FAIL |
| SchedulerSafety.ThrowIsForever | src/service/service.cpp:99-101 | after a Run that ended with an exception, in whatever phase, the service stays running with nothing executing, no step of it follows, and the manager does not return |
| SchedulerSafety.ThrowLeavesRunning | src/service/service.cpp:54-60 | a service whose Init throws ends as running with nothing executing |
| SchedulerSafety.PhasesChangeOnEmptyPool | src/service/servicemanager.cpp:75-101 | states are set for a phase only while no Run is outstanding |
| SchedulerSafety.EventsInOrder | src/service/servicemanager.cpp:56-73 | every Init precedes every tick and every tick every Shutdown |
| SchedulerSafety.InitsBeforeTicks | src/service/service.cpp:54-78 | before any tick, Init of every service was called exactly once and returned true |
| SchedulerSafety.ShutdownOnce | src/service/service.cpp:80-93 | Shutdown is called at most once, and exactly once, with every service down, if the manager returns |
| SchedulerSafety.FailureIsForever | src/service/service.cpp:54-73 | a service that failed to start stays failed and the start phase never closes |
| SchedulerSafety.ThroughExactlyIfSaid | src/service/service.cpp:61-90 | a service has started if and only if its IsStartOK has answered true, and is down if and only if its IsShutdownOK has |
| SchedulerSafety.BaseNeverStops | src/service/service.cpp:113-116 | one service that asks the base IsShutdownOK, whatever the others answer, is never down and keeps the manager from returning |
| SchedulerLiveness.Progress | src/service/servicemanager.cpp:84-97 | in a fair run whose hooks cooperate in a phase, while a service has not got through it some service comes nearer to that |
| SchedulerLiveness.WaitingEnds | src/service/servicemanager.cpp:174-188 | while the manager waits no run is added, so the pool drains and the phase closes |
| SchedulerLiveness.ManagerProgress | src/service/servicemanager.cpp:128-140 | a service that is ready and has not got through the phase does not wait for ever: the manager comes to it, or some service gains before |
| SchedulerLiveness.PhaseCloses | src/service/servicemanager.cpp:75-101 | every fair run gets through each phase whose hooks cooperate: the start phase if every IsStartOK gives in, the run phase if ShutDown is called, the shutdown phase if every IsShutdownOK gives in |
| SchedulerReturn.StartPhaseCloses | src/service/servicemanager.cpp:84-97 | every fair run in whose start phase no hook throws, every Init succeeds and every IsStartOK gives in gets through that phase, with every service started and an empty pool |
| SchedulerReturn.ManagerReturnsExactlyIf | src/service/servicemanager.cpp:56-73 | in a fair run Run() returns if and only if ShutDown is called, no hook throws, every Init succeeds, and every IsStartOK and every IsShutdownOK answers true when asked often enough |
| SchedulerReturn.BaseStartsAndNeverStops | src/service/service.cpp:108-116 | the base class's IsStartOK meets that condition and its IsShutdownOK does not |
| SchedulerReturn.BaseNeedsRecur | src/service/service.cpp:103-106 | the base class's NeedSchedule puts no service off for ever |
| SchedulerReturn.FairRunExists | src/service/servicemanager.cpp:56-73 | for any number of services and any answers of IsStartOK and IsShutdownOK there are such runs in which nothing fails, with ShutDown and without |
| SchedulerTicks.TicksAgainAndAgain | src/service/service.cpp:76-78 | in a fair run that gets through its start phase, as long as ShutDown is not called, every service none of whose Runs throws is scheduled, and its Tick called, again and again, whatever the others do in the run phase |
| SchedulerTicks.VisitedAgain | src/service/servicemanager.cpp:128-140 | in the run phase the manager comes to every service again and again |
| SchedulerTicks.SuccessKeepsOn | src/service/servicemanager.cpp:84-95 | runs without ShutDown in which nothing fails meet that condition for every service |
| SqliteResult.Cursor.Destroy | src/db/sqlite_result.cpp:18-25 | every table ever handed over has been freed exactly once |
| SqliteResult.Cursor.SetResult | src/db/sqlite_result.cpp:27-39 | takes the table over, a null one too, frees the one before, and starts at the column names |
| SqliteResult.Cursor.FreeResult | src/db/sqlite_result.cpp:41-52 | frees the table once and leaves the cursor empty; without a table it changes nothing |
| SqliteResult.Cursor.FetchNextRow | src/db/sqlite_result.cpp:54-69 | moves to the start of the next row if and only if there is a table with one |
| SqliteResult.Cursor.ReadInt8 | src/db/sqlite_result.cpp:71-85 | reads the cell under the cursor, narrowed to eight bits; a NULL cell or an exhausted row leaves the variable |
| SqliteResult.Int8 | src/db/sqlite_result.cpp:78 | the narrowed number is within eight bits and differs from the number by a multiple of 256 |
| SqliteResult.Cursor.ReadString | src/db/sqlite_result.cpp:231-245 | the same for a string |
| SqliteResult.Cursor.GetString | src/db/sqlite_result.cpp:247-261 | copies a text that fits with its terminator and nothing else into the buffer |
| SqliteResult.Copied | src/db/sqlite_result.cpp:247-261 | the text, its terminator, and the rest of the buffer as it was |
| SqliteResult.Cursor.Index | src/db/sqlite_result.cpp:73-75 | whatever calls came before, the flat index under the cursor lies in the current row and inside the table |
| SqliteResult.IndexInTable | src/db/sqlite_result.cpp:73-75 | the flat index stays in the current row and in the table |
| SqliteResult.FlattenAt | src/db/sqlite_result.cpp:73-76 | the flat index of row r and column c holds the matrix entry |
| SqliteResult.ReadAll | src/db/sqlite_result.cpp:54-85 | reading the names, then fetching and reading, gives back the matrix that was flattened |
| StringUtility.SplitString | src/common/stringutility.cpp:5-27 | the loop returns the parts between separators, nothing behind a last one |
| StringUtility.PartsOfJoin | src/common/stringutility.cpp:5-27 | splitting a joined list gives it back, short of an empty last part |
| StringUtility.JoinOfParts | src/common/stringutility.cpp:5-27 | joining the parts gives the string back, short of one separator at its end |
| StringUtility.SplitAndJoin | src/common/stringutility.cpp:5-27 | the exact conditions under which each undoes the other |
| StringUtility.EmptyLastPartIsLost | src/common/stringutility.cpp:22-25 | the parts "a" and "", joined and split, are "a" alone |
| LuaObjects.GetChild | src/common/luaobject.cpp:141-148 | the child of that name, null if and only if there is none |
| LuaObjects.GetLuaObjectByKeys | src/common/luaobject.cpp:121-139 | finds an object if and only if the keys, at least one, lead to it through tables, and null if and only if there is no key or some of them lead to a non-table or a table without the next key |
| LuaObjects.GetLuaObject | src/common/luaobject.cpp:112-119 | the same for the parts of a dotted name |
| LuaObjects.DescendFollows | src/common/luaobject.cpp:121-139 | recursive descent finds exactly the object that the keys lead to, and nothing exactly if they are blocked |
| LuaObjects.LookupIsDescent | src/common/luaobject.cpp:112-139 | looking up the joined name of dot-free keys is descent along them, but for an empty last key |
| LuaObjects.DescendAppend | src/common/luaobject.cpp:121-139 | a lookup in two stages is one lookup |

## Left out

- Rational.Rational.Normalize: the class is over unbounded integers, so the second throw of `normalize` is not in it; `FixedWidth.Normalize` has it.
- Stream input and output, `rational_cast`, conversion between integer types and the boolean conversion of `rational`: iostreams, floating point or one-line members.
- The tokenizer's iterator conversions and `assign`, and the wide-character classification: forwarding and locale data.
- OffsetSeparator.Separator.Next: needs at least one offset, as the original asserts.
- Real threads, memory order, a pool wait that times out, and the "slowly" log branches: steps are atomic, and timing is not part of the state.
- `Service::RegisterMessage`, timers and message delivery: lookups and callbacks without protocol.
- SchedulerReturn.ManagerReturnsExactlyIf: does not say what happens when a `NeedSchedule` refuses for ever, or when the pool wait times out.
- The other `operator>>` overloads of the cursor differ from the modelled ones only in the conversion of the text.
- The luatable's filling from the Lua stack, the SQLite handler, sockets, shared memory, messages and packets: input, output and foreign calls.
- `size_t` and `int` overflow in the cursor's index and the separators' counters is not modelled; sizes are natural numbers.
