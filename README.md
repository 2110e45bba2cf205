# Shamir secret reconstruction by majority vote — a Dafny model

The program reads n shares `(x, y)` of a degree-(k-1) polynomial. Each `y` is
written in its own base, either as a plain numeral or as a nested expression
over `ADD`, `SUB`, `MUL` and `DIV`. The program then:

1. evaluates each share value exactly;
2. computes, for every k-subset of the shares, the Lagrange interpolant's
   value at 0 in exact rational arithmetic;
3. picks the value that the most subsets agree on as the secret;
4. rebuilds the full polynomial from the first subset, in lexicographic order,
   that produced that value;
5. lists the shares the polynomial does not pass through.

The model follows `Main.java`. The second copy,
`shamir-secret-reconstruction.java`, does not compile at its lambda (lines
292-298), and is otherwise the same program.

Modules, one per file:

- `Results` (`results.dfy`): the error cases the program can end in (its
  exceptions) and a `Result` type.
- `Arith` (`arith.dfy`): gcd, Bézout coefficients, divisibility and powers,
  which the canonical-fraction proofs rest on.
- `Rational` (`rational.dfy`): `BigFrac` as a datatype `Frac`.
  - `Valid()` is the class invariant: den > 0 and gcd(|num|, den) == 1.
  - `Value()` is the rational number it denotes, as a ghost `real`.
  - The constructor and the four operations produce valid fractions of the
    right value.
  - Two valid fractions are equal exactly when their values are, which is
    what makes the `HashMap<BigFrac, Integer>` tally count values.
- `Polynomial` (`polynomial.dfy`): `polyMul`, `polyAdd`, `polyScale` and
  `polyEval` as methods with their loops. Each is proved against the
  real-valued convolution, sum, scaling and evaluation of the coefficient
  list. Lemmas cover how evaluation commutes with each of those.
- `Lagrange` (`lagrange.dfy`): `f0FromSubset` and `polyFromSubset` as methods.
  - Both fail exactly when two x-coordinates of the subset coincide; the
    source's `new BigFrac(_, 0)` throws there.
  - The first returns the interpolant's value at 0.
  - The second returns a coefficient list that evaluates to the interpolant
    everywhere.
  - The interpolant passes through every point of the subset.
  - What f0 returns is the constant coefficient of the polynomial.
  - Neither result depends on the order of the points: a reordered subset
    gives the same interpolant, the same failure, and the same list of
    fractions, since a coefficient list of length k is fixed by its values at
    k distinct points.
- `Combinations` (`combinations.dfy`): `combinations` and `allCombinations`,
  with the index array updated in place. The result lists every strictly
  increasing k-tuple over 0..n-1 exactly once, in increasing lexicographic
  order, from `[0..k-1]` to `[n-k..n-1]`. `AllCombinations` requires k <= n: with
  k > n, `combinations` on its own never stops (its pivot test at
  `Main.java:224-226` never goes below zero), and `main` ends only because its
  consumer throws `IndexOutOfBounds` on the first tuple (`Main.java:268`).
- `Literals` (`literal.dfy`): the text helpers.
  - ASCII character classes.
  - `String.trim`, `indexOf` and upper-casing.
  - `new BigInteger(t, base)` on a sign-free token.
  - `looksLikeFunction`.
  - A printer of numerals that round-trips through the literal reader.
- `Expressions` (`expr.dfy`): the evaluator of share values.
  - The `ExprParser` class, with its string, base and mutable cursor, and one
    method per parser method.
  - It is proved against the functions `ExprAt` and `ArgsAt`, which say what
    `parseExpr` and its argument loop return and where they leave the cursor.
  - `apply`, with Java's truncating `divideAndRemainder`.
  - The share-decoding step of `main`.
- `ExpressionFacts` (`expr_facts.dfy`): a tree datatype `Expr` of the
  expressions, a printer and an evaluator. Parsing a printed well-formed tree
  gives the tree's value, and so does decoding it as a share. The module also
  proves how a position that does not start with a letter is read.
- `ExpressionExamples` (`expr_examples.dfy`): concrete share values worked
  through the evaluator.
- `Consensus` (`consensus.dfy`): the part of `main` after the shares are read.
  - The tally over all k-subsets, the choice of the best value, the search for
    a witness subset and the classification of shares.
  - `Reconstruct`, which strings these together.

Behaviour the model keeps, as the code has it:

- In a base above 10, an argument that starts with a letter digit is read as
  a function name. `ADD(A,1)` in base 16 fails with "expected '('".
- Whitespace is skipped before each expression and around the arguments, but
  not between a function name and its '(' (`Main.java:77-78`). `ADD (1,2)`
  fails with "expected '('". The printed trees of `ExpressionFacts` contain no
  whitespace, so `ParsePrinted` and `DecodePrinted` say nothing about spaced
  texts.
- The wrong-share check calls `toBigIntegerExact` inside its message, so a
  share at which the polynomial has a non-integer value aborts the run with
  `NonIntegerValue`; it is not listed.
- The secret must be an integer, or the run aborts with `NonIntegerValue`.
- Only the x-coordinates of the subsets actually enumerated matter: with
  `k == 1` duplicate x-coordinates are harmless.
- `k == 0` reaches `coeff.get(0)` on an empty list, and `k > n` reaches
  `all.get` out of range. Both end in `IndexOutOfBounds`; `k < 0` ends in
  `NegativeArraySize`.
- The "no subset matched" exception (`Main.java:290`) is unreachable.
  `Reconstruct` proves that it never ends in `NoWitness`. It also proves that
  it never ends in `NoConsensus` (`Main.java:277`).

## Model

| member | source | states |
|---|---|---|
| Rational.Make | Main.java:18-24 | fails with DivisionByZero exactly when the denominator is 0; otherwise the fraction is canonical (den > 0, coprime parts), has cross products equal to n/d's, and has value n/d |
| Rational.SameValueSameFrac | Main.java:16-24 | two canonical fractions are equal exactly when their values are equal |
| Rational.Of | Main.java:26 | `of(n)` is canonical with value n |
| Rational.OfIsMake | Main.java:26 | `of(n)` is the constructor applied to n and 1 |
| Rational.Add | Main.java:28 | the sum is canonical and its value is the sum of the values |
| Rational.Sub | Main.java:29 | the difference is canonical and its value is the difference of the values |
| Rational.Mul | Main.java:30 | the product is canonical and its value is the product of the values |
| Rational.Div | Main.java:31 | fails with DivisionByZero exactly when the divisor's numerator is 0; otherwise the quotient is canonical and its value is the quotient of the values |
| Rational.IntegerIffWholeValue | Main.java:33 | `isInteger` (den == 1) holds exactly when the value has no fractional part |
| Rational.ToIntExact | Main.java:34-37 | fails with NonIntegerValue exactly when the value is not whole; otherwise returns that integer |
| Rational.CompareTo | Main.java:38-40 | returns -1, 0 or 1, negative/zero/positive exactly when the first value is less than/equal to/greater than the second |
| Rational.CompareSign | Main.java:39 | comparing cross products orders the quotients the same way, for positive denominators |
| Rational.Equals | Main.java:41-45 | true exactly when the values are equal, and exactly when compareTo gives 0 |
| Polynomial.Values | Main.java:182-215 | the real coefficient list has one value per fraction, in order |
| Polynomial.PolyMul | Main.java:182-188 | the result has length \|a\|+\|b\|-1, is canonical, and its values are the convolution of the inputs' values |
| Polynomial.PolyAdd | Main.java:190-199 | the result has the longer length, is canonical, and its values are the inputs' values added coefficient-wise, padding with zero |
| Polynomial.PolyScale | Main.java:201-205 | the result has the same length, is canonical, and its values are the inputs' values times the scale |
| Polynomial.PolyEval | Main.java:207-215 | the result is canonical and equals the sum of c_i x^i over the coefficients |
| Polynomial.EvalConv | Main.java:182-188 | evaluating a convolution gives the product of the evaluations |
| Polynomial.EvalAdd | Main.java:190-199 | evaluating a padded sum gives the sum of the evaluations |
| Polynomial.EvalScale | Main.java:201-205 | evaluating a scaled list gives the scale times the evaluation |
| Polynomial.EvalAtZero | Main.java:207-215 | a polynomial's value at 0 is its constant coefficient |
| Lagrange.DistinctIffDenomsNonzero | Main.java:147-152 | the x-coordinates are pairwise distinct exactly when every denominator product is nonzero |
| Lagrange.BasisAtZero | Main.java:145-149 | at 0 the i-th basis product is the product of the -x_j |
| Lagrange.BasisAtSelf | Main.java:146-150 | at x_i the i-th basis product is the denominator product |
| Lagrange.BasisAtOther | Main.java:167-172 | at any other x_j of the subset the i-th basis product vanishes |
| Lagrange.Interpolates | Main.java:158-180 | the interpolant passes through every point of a subset with distinct x |
| Lagrange.F0FromSubset | Main.java:140-156 | fails with DivisionByZero exactly when two x coincide; otherwise returns a canonical fraction whose value is the interpolant at 0 |
| Lagrange.PolyFromSubset | Main.java:158-180 | fails with DivisionByZero exactly when two x coincide; otherwise returns k canonical coefficients that evaluate to the interpolant at every X |
| Lagrange.F0IsConstantCoefficient | Main.java:140-180 | f0 of a subset is the constant coefficient of the polynomial built from it |
| Lagrange.PolynomialThroughSubset | Main.java:158-180 | the rebuilt polynomial passes through every point of its subset |
| Lagrange.BasisPolyValue | Main.java:164-174 | the coefficient list of the inner loop evaluates to the product of X - x_j over j != i |
| Lagrange.LagrangePolyValue | Main.java:158-180 | the coefficient list of the outer loop evaluates to the sum of the Lagrange terms |
| Polynomial.AgreeingPolynomials | Main.java:158-180 | two coefficient lists of length n that agree at n distinct points are the same list, so the list polyFromSubset returns is the only one of length k through the subset |
| Lagrange.SameMultisetDistinct | Main.java:147-152 | a reordering of a subset with distinct x-coordinates has distinct x-coordinates |
| Lagrange.LagrangeReordered | Main.java:140-180 | the interpolant of a reordered subset is the same at every X |
| Lagrange.PolyFromSubsetReordered | Main.java:158-180 | two orders of the same points give the same polyFromSubset outcome: both fail with DivisionByZero, or both return the same list of canonical fractions |
| Combinations.First | Main.java:219-220 | the starting tuple is 0..k-1 |
| Combinations.Last | Main.java:224-225 | the final tuple is n-k..n-1 |
| Combinations.LexTotal | Main.java:218-229 | two distinct tuples of one length are ordered one way or the other |
| Combinations.FirstIsLeast | Main.java:219-220 | no combination is lexicographically below the starting tuple |
| Combinations.LastIsGreatest | Main.java:224-225 | every combination is the final tuple or below it |
| Combinations.Successor | Main.java:223-227 | bumping the pivot and resetting the tail gives a combination above the old one, with nothing between them |
| Combinations.Pivot | Main.java:223-224 | returns the last index not at its maximum, or -1 when every index is |
| Combinations.Advance | Main.java:226-227 | increments the pivot, keeps the prefix, and makes the tail consecutive after the pivot |
| Combinations.AllCombinations | Main.java:218-229 | with the collecting consumer of `allCombinations` (lines 308-312), returns every k-combination of 0..n-1 once, in strictly increasing lexicographic order, from the first tuple to the last |
| Literals.Trim | Main.java:251 | the result is a slice of the input with only characters <= ' ' cut at both ends, and it starts and ends with a character above ' ' |
| Literals.TrimKeeps | Main.java:251 | a string with non-blank ends is its own trim |
| Literals.TrimIdempotent | Main.java:64 | trimming twice is trimming once |
| Literals.IndexOf | Main.java:315 | gives -1 exactly when the character is absent, and otherwise its first position |
| Literals.LooksLikeFunction | Main.java:314-317 | true exactly when the text starts with a letter, contains '(' and ends with ')' |
| Literals.ParseLiteralMeaning | Main.java:88-93 | `new BigInteger(t, base)` succeeds exactly when 2 <= base <= 36 and t is a non-empty run of digits of the base, and the value lies below base^\|t\|; it fails with BadNumber otherwise |
| Literals.NumeralBound | Main.java:90 | a digit run of length m in base b reads as a value in [0, b^m) |
| Literals.ShowRoundTrip | Main.java:90 | reading back a printed natural number gives that number. `Show` models `BigInteger.toString(radix)`, which `Main.java` never calls; it is there to prove that every natural number has a numeral the reader accepts |
| Literals.UpperChar | Main.java:77 | upper-casing keeps letters letters, moves a-z down by 32, and keeps every other character |
| Literals.Upper | Main.java:77 | the upper-cased name has the same length, no lower-case letter, the same non-lower-case characters, and the same letters and identifier characters |
| Literals.DigitValue | Main.java:90 | `Character.digit(c, 36)` is in -1..35 and is a digit value exactly for letters and decimal digits |
| Expressions.SkipWs | Main.java:117 | `skip()` stops at the end or at the first non-whitespace character, never moving back |
| Expressions.IdentEnd | Main.java:121-126 | the identifier loop stops at the end or at the first character that is not a letter, digit or '_' |
| Expressions.TokenEnd | Main.java:127-136 | the number-token loop stops at the end or at the first character that is not a letter or digit |
| Expressions.TruncDiv | Main.java:105 | the quotient of `divideAndRemainder` has magnitude \|a\| / \|b\| rounded down, and a nonzero quotient is negative exactly when the signs of a and b differ |
| Expressions.TruncRem | Main.java:105 | the remainder of `divideAndRemainder` is smaller than \|b\| in magnitude and, when nonzero, has the sign of a |
| Expressions.TruncRemIs | Main.java:105 | the remainder of `divideAndRemainder` has the dividend's sign and the magnitude of \|a\| mod \|b\| |
| Expressions.ExactDivision | Main.java:105-108 | the remainder is zero exactly when \|b\| divides a, and then quotient times b is a |
| Expressions.Apply | Main.java:97-115 | only ADD, SUB, MUL and DIV on two arguments succeed, and a DIV that succeeds is exact: its quotient times the divisor is the dividend |
| Expressions.ApplyMeaning | Main.java:97-115 | names other than ADD/SUB/MUL/DIV fail as unknown; the four fail on anything but two arguments; ADD, SUB and MUL compute sum, difference and product; DIV fails on a zero divisor and on an inexact quotient, and otherwise returns q with q*b == a |
| Expressions.ExprAt | Main.java:74-95 | `parseExpr` never moves the cursor back or past the end. What it computes is stated by `ExpressionFacts.ExprAtPrinted` and `ExpressionFacts.OtherStartsLiteral` |
| Expressions.ArgsAt | Main.java:80-86 | the argument loop never moves the cursor back or past the end |
| Expressions.CallStart | Main.java:75-79 | at a letter, `parseExpr` reads the whole identifier and, when '(' follows it, continues with the arguments under the upper-cased name. This unfolds `ExprAt` once and follows from its definition |
| Expressions.CallWithoutParen | Main.java:76-78 | an identifier without '(' behind it fails with "expected '('" at the end of the identifier. This unfolds `ExprAt` once and follows from its definition |
| Expressions.LiteralStart | Main.java:87-94 | at any other character `parseExpr` reads the alphanumeric run: an empty run fails with NumberExpected, a non-empty one is converted in the base. This unfolds `ExprAt` once and follows from its definition |
| Expressions.ArgsFail | Main.java:81-82 | a failing argument ends the call with that failure. This unfolds `ExprAt` once and follows from its definition |
| Expressions.ArgsComma | Main.java:83-84 | an argument followed by ',' continues the loop after the comma with the value appended. This unfolds `ExprAt` once and follows from its definition |
| Expressions.ArgsClose | Main.java:84-86 | an argument followed by ')' ends the loop and applies the function to all the values. This unfolds `ExprAt` once and follows from its definition |
| Expressions.ArgsUnclosed | Main.java:84-85 | an argument followed by neither fails with "expected ')'". This unfolds `ExprAt` once and follows from its definition |
| Expressions.ExprParser.constructor | Main.java:64 | the parser holds the trimmed text, the base and cursor 0 |
| Expressions.ExprParser.Skip | Main.java:117 | moves the cursor to the end of the whitespace run |
| Expressions.ExprParser.Accept | Main.java:118 | consumes the character and reports true exactly when it is next |
| Expressions.ExprParser.Expect | Main.java:119 | succeeds and consumes exactly when the character is next; otherwise fails with "expected c" and leaves the cursor |
| Expressions.ExprParser.PeekAlpha | Main.java:120 | reports whether a letter is next |
| Expressions.ExprParser.ParseIdent | Main.java:121-126 | consumes the identifier run and returns it, or fails with IdentifierExpected when the run is empty |
| Expressions.ExprParser.ParseNumberToken | Main.java:127-136 | consumes the alphanumeric run and returns it, or fails with NumberExpected when the run is empty |
| Expressions.ExprParser.ParseExpr | Main.java:74-95 | returns what `ExprAt` gives from the old cursor and, on success, leaves the cursor where it ends |
| Expressions.ExprParser.ParseCall | Main.java:76-86 | the letter branch of `parseExpr`, with the same result and cursor as `ExprAt` |
| Expressions.ExprParser.ParseOpen | Main.java:78-86 | after the name, the same result and cursor as `ExprAt` from the name's start |
| Expressions.ExprParser.ParseArgs | Main.java:79-86 | the do-while loop with `expect(')')` and `apply`: the same result and cursor as `ArgsAt` |
| Expressions.ExprParser.ParseArg | Main.java:81-84 | one trip of the loop: a failure is the loop's failure; after a comma the loop goes on with the value appended; otherwise the loop ends as ')' decides |
| Expressions.ExprParser.Parse | Main.java:66-72 | `parse()` gives the parsed value only when nothing but whitespace follows it, and TrailingCharacters otherwise |
| Expressions.DecodeShareValue | Main.java:250-258 | decodes a share value as the reference `ShareValue`: trim, then the parser when it looks like a call, else one literal |
| ExpressionFacts.OtherStartsLiteral | Main.java:87-94 | a position not at a letter reads a maximal alphanumeric run; it succeeds exactly when the run is non-empty and all digits of a base in 2..36, with its numeral as value |
| ExpressionFacts.PrintShape | Main.java:314-317 | a printed well-formed call starts with a letter, has '(' after its name and ends with ')', so it looks like a function |
| ExpressionFacts.ExprAtPrinted | Main.java:74-95 | `parseExpr` on a printed tree, followed by a separator or the end, gives the tree's value and consumes exactly the printed text |
| ExpressionFacts.EvalArgsCons | Main.java:80-84 | arguments are evaluated left to right and the first failure wins |
| ExpressionFacts.ParsePrinted | Main.java:66-72 | `parse()` of a printed well-formed tree gives the tree's value |
| ExpressionFacts.DecodePrinted | Main.java:250-258 | decoding a printed well-formed tree as a share value gives the tree's value, in either branch |
| ExpressionExamples.NestedCall | Main.java:74-111 | `add(1,SUB(5,2))` in base 10 decodes to 4: names are upper-cased and calls nest |
| ExpressionExamples.ZeroDivisor | Main.java:102-104 | `DIV(7,0)` fails with DivisionByZero |
| ExpressionExamples.BareLiteral | Main.java:250-258 | ` 7f\n` in base 16 is trimmed and read as the literal 127 |
| ExpressionExamples.SpacedName | Main.java:76-78 | `ADD (1,2)` in base 10 fails with "expected '('", because no whitespace is skipped between a name and its '(' |
| ExpressionExamples.LetterDigitIsAName | Main.java:74-95 | `ADD(A,1)` in base 16 fails with "expected '('", because the digit A is read as a name |
| Consensus.Select | Main.java:267-268 | the subset has one point per index of the tuple |
| Consensus.Tally | Main.java:265-271 | fails with DivisionByZero exactly when some enumerated subset repeats an x; otherwise every key is canonical, maps to the number of subsets whose f0 has its value, is counted at least once, and every subset's f0 is a key |
| Consensus.VotesPositive | Main.java:270 | a value has a positive count exactly when some subset produces it |
| Consensus.PickBest | Main.java:273-277 | fails with NoConsensus exactly on an empty tally; otherwise returns a key with the largest count |
| Consensus.FindWitness | Main.java:280-290 | fails with NoWitness exactly when no subset produces the value; otherwise returns the points of the first subset, in enumeration order, that does |
| Consensus.Classify | Main.java:295-301 | fails with NonIntegerValue exactly when the polynomial is not whole at some share; otherwise returns the shares it misses, in share order, each with the polynomial's value and the share's y |
| Consensus.MismatchesAppend | Main.java:296-301 | the misses of two runs of shares are the misses of each, concatenated |
| Consensus.MismatchesMember | Main.java:296-301 | an entry is listed exactly when it reports a share the polynomial misses, with that share's x, its value and its y |
| Consensus.WinnerAgrees | Main.java:285-301 | no share of the witness subset is ever listed as wrong |
| Consensus.DistinctSharesDistinctSubsets | Main.java:265-271 | when all x are distinct, no subset fails |
| Consensus.DuplicateSharesFail | Main.java:265-271 | for 2 <= k <= n, two shares with the same x make some subset fail |
| Consensus.ThroughIsCombination | Main.java:218-229 | any two indices lie together in some k-combination |
| Consensus.WitnessIsLexFirst | Main.java:280-289 | the witness is lexicographically at or below every combination producing the winning value |
| Consensus.Reconstruct | Main.java:265-301 | fails on k < 0, k == 0 and k > n as the source does. Otherwise the combinations enumerated are all of them, in order, and it fails with DivisionByZero exactly when a subset repeats an x. Else the witness has a maximal count and is the first with its value, and the polynomial is the interpolant of the witness. It succeeds exactly when the secret and all the polynomial's values at the shares are whole; then its secret is the winning value and its wrong list is the shares missed. It never fails with NoConsensus or NoWitness |

Several functions of the model have no contract of their own beyond their
definition; the rows above name the members that state what they mean:

- `Expressions.ParseFrom`, what `parse()` returns, is the function
  `Expressions.ExprParser.Parse` is proved against; `ExpressionFacts.ParsePrinted`
  states its result on printed trees.
- `Expressions.ShareValue`, the share-decoding step of `main`, is the function
  `Expressions.DecodeShareValue` is proved against; `ExpressionFacts.DecodePrinted`
  and `ExpressionExamples.BareLiteral` state its results.
- `Literals.ParseLiteral` is stated by `Literals.ParseLiteralMeaning` and
  `Literals.ShowRoundTrip`.
- `Rational.IsInteger` is stated by `Rational.IntegerIffWholeValue`.
- `Literals.IsLetter`, `IsLetterOrDigit`, `IsIdentChar` and `IsWhitespace` are
  the ASCII character classes as definitions; `Literals.DigitValue` and
  `Literals.Upper` state how they relate to digits and upper-casing.
- `Lagrange.Point` is the share record of `Main.java:51-56` as a datatype.

## Left out

- Reading the JSON file, `Integer.parseInt` of the base and `new BigInteger(key)` of the x-coordinate are not modelled. The shares reach `Reconstruct` already decoded, as a sequence of points in reading order.
- The warning printed when the share count differs from n, and the output lines, are not modelled. The result is the secret and a list of `WrongShare` records in place of the printed strings.
- A share whose value fails to decode ends the program. The model decodes one value at a time, in `DecodeShareValue`, and does not chain the decoding into `Reconstruct`.
- `hashCode` and `toString` of `BigFrac` and `Point` are not modelled. The tally is a `map` keyed by the canonical fraction; `Rational.SameValueSameFrac` makes it count the same classes as the hash map.
- The iteration order of the `HashMap` is not modelled. `PickBest` may return any key with the largest count, just as the source returns whichever maximal key its iteration meets first.
- Character classes are ASCII only. `Character.isLetter`, `isLetterOrDigit` and `isWhitespace` accept more code points than this.
- On the bare-literal path, `new BigInteger(valueStr, base)` accepts a leading '+' or '-'; this is not modelled.
- `Expressions.ExprParser.ParseCall`, `ParseOpen`, `ParseArgs` and `ParseArg` split the body of `parseExpr` into separate methods. The cursor updates and error points are the same.
- `combinations` hands each tuple to a consumer. The model keeps only the consumer `allCombinations` uses, which collects the tuples into a list.
- The exception messages are not modelled. Each exception is an `Error` value naming its cause.
- Stack overflow on deeply nested values, and memory limits, are not modelled.
- The lambda version of the witness search in `shamir-secret-reconstruction.java` (lines 292-298) does not compile and is not modelled. `Main.java`'s loop is modelled instead.
