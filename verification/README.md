# Exact secret reconstruction from threshold shares

This project models the core of a Shamir-style secret reconstruction tool in
Dafny and proves properties of that model. The tool reads the points
`(x, y)` of a secret polynomial from a document and recovers the secret
`f(0)` by Lagrange interpolation at zero. All arithmetic is exact, over
arbitrary-precision integers and rationals. The model has three parts.

- **Fractions** (`fraction.dfy`, backed by `divisibility.dfy`). An immutable
  rational is held in lowest terms with a positive denominator. The one
  normalising constructor rejects a zero denominator, moves the sign into the
  numerator and divides by the gcd. The model covers `ZERO`, `of`, `add`,
  `mul`, `negate`, the integrality test and exact extraction. Each fraction
  denotes an exact `real`, and every operation is proved against that value.
- **Reconstruction** (`interpolator.dfy`). `secretAtZero` runs a double loop
  that accumulates `sum_i y_i * prod_{j != i} (-x_j) / (x_i - x_j)`. The model
  writes the loops as recursive functions. They are proved equal to a
  real-valued Lagrange specification, with the three failure kinds the code
  distinguishes: too few shares, a duplicate abscissa, and a non-integer
  result.
- **Share loading** (`decimal_keys.dfy`, `share_order.dfy`,
  `share_loading.dfy`). This is the pure part of the document reader. It:
  - recognises digit-only keys;
  - rejects a non-positive threshold, a base outside 2..36 and an
    undecodable value;
  - detects duplicate abscissae, where distinct keys such as "1" and "01"
    collide;
  - checks the minimum count;
  - sorts ascending by x.

  Its input is the document's properties, already parsed and decoded.

`shares.dfy` holds the share record, and `outcomes.dfy` holds the typed result
that replaces the source's exceptions. The result is `Ok(v)` or an `Err` of
`InsufficientShares`, `DuplicateAbscissa`, `NotAnInteger`, `DivisionByZero`
or `InvalidInput(problem)`.

Where the system's documentation and its code differ, the model follows the
code:
- The interpolator's duplicate-x failure carries no x value, because the
  code's message names none (Interpolator.java:30).
- The interpolator's too-few-shares failure carries no have/need counts,
  because its message names none (Interpolator.java:14).
- Each loader problem carries the x, the base or the have/need counts its
  message reports. The threshold problem also keeps the rejected k, which its
  message (JsonInput.java:48) does not print.

## Model

| member | source | states |
|---|---|---|
| Fractions.Make | Fraction.java:9-25 | Construction fails with DivisionByZero exactly when the denominator is 0, and otherwise yields a valid fraction (positive denominator, lowest terms) whose value is num/den |
| Fractions.Normalize | Fraction.java:13-24 | The normalised pair is valid and represents the same rational: num'*den == num*den' and num'/den' == num/den |
| Fractions.Reduce | Fraction.java:18-22 | Dividing a positive-denominator pair by its gcd gives a valid fraction equal to the input by cross-multiplication |
| Fractions.NormalizeReduced | Fraction.java:18-22 | Normalising a fraction that is already in lowest terms returns it unchanged (normalisation is idempotent) |
| Fractions.Canonical | Fraction.java:9-25 | Two valid fractions with the same value are identical, so the reduced form is the unique representation |
| Fractions.ZeroNormalForm | Fraction.java:18-22 | Any zero numerator over any non-zero denominator normalises to 0/1, which is ZERO |
| Fractions.Of | Fraction.java:27-29 | An integer becomes a valid fraction with denominator 1 and the same value |
| Fractions.Add | Fraction.java:31-35 | The sum is valid and its value is the sum of the operands' values |
| Fractions.AddZero | Fraction.java:31-35 | ZERO is a two-sided identity of add, on the representation |
| Fractions.Mul | Fraction.java:37-41 | The product is valid and its value is the product of the operands' values |
| Fractions.MulOne | Fraction.java:37-41 | Multiplying by of(1) returns the operand itself |
| Fractions.Commutes | Fraction.java:31-41 | add and mul give identical fractions whichever operand comes first |
| Fractions.Negate | Fraction.java:43-45 | Negation is valid, keeps the denominator and negates the value |
| Fractions.NegateInverse | Fraction.java:43-45 | Negating twice gives the operand back, and a fraction plus its negation is ZERO |
| Fractions.IsInteger | Fraction.java:47-49 | The test (den == 1) holds exactly when the denominator divides the numerator, i.e. it is exact on reduced fractions |
| Fractions.IntegerIffUnitDenominator | Fraction.java:47-49 | On a reduced fraction, the denominator divides the numerator if and only if it is 1 |
| Fractions.ToIntegerExact | Fraction.java:51-54 | Succeeds exactly when the value is a whole number and then returns that number; otherwise fails with NotAnInteger, never truncating |
| Fractions.WholeIffInteger | Fraction.java:51-54 | A reduced fraction denotes a whole number if and only if its denominator is 1 |
| Divisibility.Gcd | Fraction.java:18 | The gcd of the numerator's magnitude and the positive denominator, by Euclid's algorithm; what it means is stated by GcdDivides and GcdGreatest |
| Divisibility.TruncDiv | Fraction.java:20-21 | The integer divide, truncating toward zero; TruncDivExact states that it is exact on every divide the constructor performs |
| Divisibility.GcdDivides | Fraction.java:18 | The gcd is positive unless both arguments are 0, and divides both |
| Divisibility.GcdGreatest | Fraction.java:18 | Every common divisor divides the gcd |
| Divisibility.GcdOfQuotients | Fraction.java:18-22 | Dividing both parts by their gcd leaves coprime parts |
| Divisibility.TruncDivExact | Fraction.java:20-21 | Truncating division agrees with exact division when the divisor divides the dividend, so the sign rule of the integer divide never matters here |
| Interpolation.SecretAtZero | Interpolator.java:12-38 | Fails with InsufficientShares iff fewer than k shares are given; never with DivisionByZero; with DuplicateAbscissa iff two of the first k share an x; otherwise succeeds iff the exact Lagrange value at zero is whole and then returns it, else fails with NotAnInteger |
| Interpolation.InnerProduct | Interpolator.java:23-33 | The inner loop fails with DuplicateAbscissa iff some other share in range has the same x; otherwise returns term times the basis product of (-x_j)/(x_i - x_j) |
| Interpolation.MulFactor | Interpolator.java:27-32 | The loop's update multiplies the term's value by (-x_j)/(x_i - x_j) and stays valid |
| Interpolation.OuterSum | Interpolator.java:16-35 | The outer loop fails iff some share in range is not isolated in x, and otherwise adds the remaining Lagrange terms to the accumulator exactly |
| Interpolation.FirstKOnly | Interpolator.java:18-25 | Two share lists that agree on the first k shares give the same outcome, failures included |
| Interpolation.EmptyThresholdGivesZero | Interpolator.java:13-18 | With k <= 0 the result is 0, the ZERO seed of the empty sum |
| Interpolation.SingleShare | Interpolator.java:22-34 | With k = 1 the result is y_0, whatever x_0 is |
| Interpolation.LinearExact | Interpolator.java:5-7 | Two shares with distinct x on the line c + a*x reconstruct c |
| Interpolation.TwoSharesExample | Interpolator.java:5-7 | Shares (1,5) and (2,8) with k = 2 give 2 |
| Interpolation.SingleShareExample | Interpolator.java:22-37 | The single share (7,42) with k = 1 gives 42 |
| Interpolation.DuplicateExample | Interpolator.java:27-31 | Shares (1,5) and (1,9) with k = 2 fail with DuplicateAbscissa |
| DecimalKeys.IsNumericKey | JsonInput.java:127-135 | A key is accepted iff it is non-empty and every character is in '0'..'9' (no sign, no decimal point) |
| DecimalKeys.DigitsFrom | JsonInput.java:130-134 | The scan returns true iff every character from the given index on is a digit |
| DecimalKeys.DecimalValue | JsonInput.java:65 | The base-ten reading of a digit-only key as an integer; DecimalRoundTrip and LeadingZero state what it means |
| DecimalKeys.DecimalRoundTrip | JsonInput.java:65 | Every natural number has a digit-only key that reads back as that number |
| DecimalKeys.CanonicalNoLeadingZero | JsonInput.java:65 | The canonical spelling of n starts with '0' only for n = 0 |
| DecimalKeys.LeadingZero | JsonInput.java:65 | A leading zero does not change the value read, so different keys can name the same x |
| DecimalKeys.KeyCollision | JsonInput.java:65 | Every x has two distinct keys, its canonical spelling and that spelling with a leading zero, both accepted and both read as x |
| DecimalKeys.NumericKeyExamples | JsonInput.java:127-135 | "1", "01" and "0" are keys; "", "-1", "+1", "1.5" and "keys" are not; "01" and "1" both read as 1 |
| ShareOrder.Insert | JsonInput.java:95 | Insertion into an ascending list keeps it ascending and adds exactly the inserted share to its multiset |
| ShareOrder.SortByX | JsonInput.java:95 | The sorted list is ascending in x and a permutation of the input |
| ShareOrder.SortStrict | JsonInput.java:95 | On shares with distinct x, the sorted list is strictly ascending |
| ShareOrder.SortedUnique | JsonInput.java:95 | Two strictly ascending permutations of the same shares are equal, so any correct sort gives the same list |
| ShareOrder.SortExample | JsonInput.java:95 | (3,9),(1,4) sorts to (1,4),(3,9) |
| ShareOrder.StablePair | JsonInput.java:95 | Any two shares with equal x keep their input order, as a stable sort keeps them |
| ShareLoading.Read | JsonInput.java:47-103 | k <= 0 fails first; the result is Ok iff k > 0, every counted entry has a base in 2..36 and a decoded value, the collected x are distinct and there are at least k of them; a shortage is reported only when every entry is acceptable and the x are distinct, so duplicates are reported before the count; on success n and k are passed through and the shares are strictly ascending in x and a permutation of the collected ones; failures are InvalidInput with the offending data, and a duplicate is blamed only on entries that passed their base and value checks |
| ShareLoading.Collect | JsonInput.java:55-87 | The loop succeeds iff every counted entry is acceptable and no x repeats, and then returns the shares of the counted entries in order; each failure names an offending entry, or an x met twice among entries that passed their base and value checks |
| ShareLoading.SkipStep | JsonInput.java:57-63 | The "keys" entry and non-numeric keys are passed over without changing the outcome for the rest |
| ShareLoading.AddStep | JsonInput.java:83-86 | An accepted entry with a new x is recorded as seen and appended, preserving the loop's characterisation |
| ShareLoading.CollectAll | JsonInput.java:51-87 | From an empty list and empty seen set, the loop's outcome is characterised by the entries alone |
| ShareLoading.Finish | JsonInput.java:89-103 | Fewer than k shares fails with TooFewPoints(have, k); otherwise the result carries n and k unchanged and the strictly ascending permutation of the shares |
| ShareLoading.CollectSkips | JsonInput.java:57-63 | Removing an entry that names no share from anywhere in the list leaves the loop's outcome unchanged, failures included |
| ShareLoading.ReadSkips | JsonInput.java:57-63 | The "keys" object and non-numeric properties never influence the loader's result |
| ShareLoading.ReadPassesN | JsonInput.java:97-103 | The declared n is never checked: changing it changes only the n of a successful result |
| ShareLoading.ReadOrderUnique | JsonInput.java:95 | Any strictly ascending arrangement of the collected shares is exactly the list the loader returns |
| ShareLoading.LoadedSharesReconstruct | JsonInput.java:83-95 | Shares the loader accepts pass the reconstruction's count and duplicate checks, so its only possible failure is NotAnInteger |
| ShareLoading.CollidingKeysExample | JsonInput.java:83-85 | Keys "1" and "01" are rejected as DuplicateX(1) |
| ShareLoading.BaseBeforeDuplicateExample | JsonInput.java:69-85 | Keys "1" and "01" where the second has base 37 are rejected as BaseOutOfRange(1, 37), not as a duplicate, because the base check comes first |
| ShareLoading.BadBaseExample | JsonInput.java:69-72 | A base of 37 is rejected as BaseOutOfRange with the x and the base |
| ShareLoading.ThresholdFirst | JsonInput.java:47-49 | k = 0 is rejected whatever the entries are |

## Left out

- File reading and JSON parsing (JsonInput.java:34-43, 105-107) are I/O and an external library. The loader starts from a `Document` holding n, k and the top-level properties. So the missing "keys" object, a property that is not an object, and a share object without a `base` or `value` field (JsonInput.java:69, 74, reported as an invalid structure at 105-106) are not modelled.
- The numeric coercion of `keys.n`, `keys.k` and `base` (JsonInput.java:112-125, 137-143) uses library truncation and parsing. The model takes these as given integers.
- Radix decoding of the value (JsonInput.java:74-81) follows a library's sign and digit rules. Each entry carries its decoded value as `Option<int>`, where `None` means the digits did not parse. The trimming of the value string is part of that decoding.
- The order of the document's properties comes from a hash map. The model takes the properties as a given sequence. Which failure is reported first can depend on that order; the contracts say only that the reported failure names an offending entry.
- The seen-x hash set is modelled as a Dafny `set<int>`.
- The platform's list sort is modelled by an insertion sort that keeps equal abscissae in input order, shown for pairs by `ShareOrder.StablePair`. `ShareOrder.SortedUnique` shows that on distinct abscissae, which is every input the loader sorts, any correct sort gives the same list.
- Main.java (argument handling, printing, the catch-all handler, and the `subList(0, k)` glue) is not part of this model. `Interpolation.FirstKOnly` shows the glue cannot change the result.
- The null check in Share.java:8-10 is left out because Dafny values are never null.
- The `toString` methods are display formatting only.
- Interpolation.LinearExact: exactness is proved for degree-one polynomials through two shares, not for polynomials of every degree. The general statement, that the Lagrange sum equals p(0) for every polynomial p of degree below k, is Lagrange's interpolation theorem, and proving it needs polynomial algebra (polynomial values, degree, the vanishing of the basis products) that this model does not build. That the code computes the Lagrange formula itself is stated by `Interpolation.SecretAtZero`.
- The text of an undecodable value (JsonInput.java:79-80) is not kept in `UndecodableValue`, because values arrive already decoded as `Option<int>`.
- Exception messages are replaced by the typed failure kinds and their data.

## Findings

None: every member models the code as written, and no place was found where
the code contradicts its own comments.
