# TransactionApi submission pipeline — a verified Dafny model

This project models the validation-and-pricing pipeline of TransactionApi:
the `POST api/SubmitTrxMessage` action that checks a partner's transaction
submission and prices it. It covers

- the controller's `Submit` decision chain: required fields, partner lookup
  and password match against the two-entry partner table, signature,
  freshness, item reconciliation, per-item checks and pricing. The first
  failing check decides the response (`SubmitTrxMessageController.dfy`);
- the discount engine: a first-match tier chain, a prime bonus and a
  "ends in 5" bonus, a 20% cap, and truncation of the product. Its `IsPrime`
  trial-division loop is proved equal to primality (`DiscountHelper.dfy`);
- signature verification: the canonical message (fourteen-digit timestamp,
  partner key, reference number, decimal total, secret, with no
  separators) and the comparison with the trimmed signature
  (`SignatureHelper.dfy`);
- the ±5-minute freshness window, inclusive and symmetric (`TimeHelper.dfy`);
- the request records (`Models.dfy`) and the .NET pieces the code leans on:
  `IsNullOrWhiteSpace` and `Trim` (`Strings.dfy`), digit rendering
  (`Numerals.dfy`), and `DateTime` fields, ticks and the `yyyyMMddHHmmss`
  format (`Calendar.dfy`).

Some of the behaviour this proves:

- every total gets a rate of at least 5%, and totals below 20000 get 7%;
- the two bonuses never combine;
- the final amount never leaves the range of `long`;
- an unreadable timestamp crashes `Submit` (in the signature check) instead
  of producing "Expired.";
- white space around `sig` never changes the response;
- the canonical message has no separators, so a digit can move between the
  reference number and the total without changing what is signed ("INV1"
  with 23 signs exactly like "INV12" with 3).

`Submit` is a pure function of the request, the clock reading, the date
parser and the hashing functions. Its pricing step uses `Discount`, the
function that the imperative `CalculateDiscount` method is proved to compute.

Behaviour of the code worth knowing, which the model keeps as written:

- totals below 20000 (and negative totals) get 7%; no total gets 0%;
- 50001 = 3 · 16667 is not prime, so it gets 7% with no prime bonus;
- `VerifySignature` lets `DateTime.Parse` throw on an unreadable timestamp;
  it does not return false;
- the signature is trimmed at both ends before the comparison;
- no exception is caught: one raised in `Submit` escapes it;
- freshness compares the local clock with a UTC-adjusted instant.

## Model

| member | source | states |
|---|---|---|
| `DiscountHelper.BaseRate` | Utils/DiscountHelper.cs:9-12 | the first-match chain equals the disjoint tiers: 5 iff 20000..50000, 7 iff below 20000 or 50001..80000, 10 iff 80001..120000, 15 iff above 120000 (never 0) |
| `DiscountHelper.Rate` | Utils/DiscountHelper.cs:9-17 | the combined rate is one of 5, 7, 10, 15, 18, 20; it is the plain sum of base and bonuses when below 20, and 20 exactly when that sum reaches 20 |
| `DiscountHelper.TruncDiv100` | Utils/DiscountHelper.cs:19 | division by 100 truncating toward zero: the quotient brackets the dividend from below for non-negative and from above for negative values |
| `DiscountHelper.ISqrt` | Utils/DiscountHelper.cs:27 | the loop boundary is the integer square root: r*r <= n < (r+1)*(r+1) |
| `DiscountHelper.NoSmallOddDivisorPrime` | Utils/DiscountHelper.cs:27-30 | an odd n with no odd divisor from 3 up to the boundary is prime, so the trial division may stop at the square root |
| `DiscountHelper.IsPrime` | Utils/DiscountHelper.cs:22-31 | the trial-division loop returns true exactly for the primes (false for n <= 1, true for 2, false for other even n) |
| `DiscountHelper.CalculateDiscount` | Utils/DiscountHelper.cs:5-20 | the step-by-step rate with clamp and truncated product equals `Discount(total)` |
| `DiscountHelper.PrimeBonus` | Utils/DiscountHelper.cs:14 | +8 exactly for a total above 50000 that is prime |
| `DiscountHelper.FiveBonus` | Utils/DiscountHelper.cs:15 | +10 exactly for a total above 90000 whose last digit is 5 |
| `DiscountHelper.Discount` | Utils/DiscountHelper.cs:5-20 | the discount is total × rate / 100 truncated toward zero; `CalculateDiscount` is proved to return it, and the bound and worked-value lemmas are about it |
| `DiscountHelper.BonusesExclusive` | Utils/DiscountHelper.cs:14-15 | the prime bonus and the "ends in 5 above 90000" bonus never both apply |
| `DiscountHelper.CapBindsOnlyAbove80000` | Utils/DiscountHelper.cs:9-17 | the uncapped rate is at most 25, and the cap only applies to totals above 80000 |
| `DiscountHelper.DiscountWithinTotal` | Utils/DiscountHelper.cs:17-19 | for a non-negative total 0 <= discount <= total/5 and the final amount is non-negative; a negative total gets 7% and a discount in (total, 0] |
| `DiscountHelper.FinalAmountInRange` | Controllers/SubmitTrxMessageController.cs:75-76 | the discount and `total - discount` both fit in a `long` for every `long` total |
| `DiscountHelper.WorkedValues` | Utils/DiscountHelper.cs:5-20 | 20000 gives 1000, 10000 gives 700, 50001 gives 3500, 95005 gives 19001 (capped at 20%), 150000 gives 22500 |
| `Strings.Trim` | Utils/SignatureHelper.cs:23 | `Trim` returns a contiguous part of its input with only white space cut from either end, and the result neither starts nor ends with white space |
| `Strings.IsNullOrWhiteSpace` | Controllers/SubmitTrxMessageController.cs:20-33 | null, or every character is white space; `TrimEmptyIffBlank` ties it to `Trim` |
| `Strings.TrimEmptyIffBlank` | Controllers/SubmitTrxMessageController.cs:20-33 | a string is blank for `IsNullOrWhiteSpace` exactly when trimming leaves nothing |
| `Strings.TrimIgnoresPadding` | Utils/SignatureHelper.cs:23 | white space added on either side never changes what `Trim` returns |
| `Strings.BlankIgnoresPadding` | Controllers/SubmitTrxMessageController.cs:32-33 | white space added on either side never changes whether a string is blank |
| `Numerals.PadRoundTrip` | Utils/SignatureHelper.cs:16 | a zero-padded field reads back as the number written |
| `Numerals.DecimalRoundTrip` | Utils/SignatureHelper.cs:17 | the decimal rendering of the total is an optional minus sign followed by digits and reads back as the total |
| `Calendar.Format14` | Utils/SignatureHelper.cs:12-16 | the `yyyyMMddHHmmss` rendering is exactly 14 digits for every representable instant |
| `Calendar.Format14RoundTrip` | Utils/SignatureHelper.cs:12-16 | the 14 digits read back as year, month, day, hour, minute and second |
| `Calendar.SameStampWithinOneSecond` | Utils/SignatureHelper.cs:16 | two instants with the same stamp are less than one second (10,000,000 ticks) apart |
| `SignatureHelper.CanonicalMessageLayout` | Utils/SignatureHelper.cs:17 | the message is the stamp, key, reference number, decimal total and secret laid end to end with no separators |
| `SignatureHelper.CanonicalMessage` | Utils/SignatureHelper.cs:17 | the concatenation of line 17, with a null field read as empty; `CanonicalMessageLayout` states its layout |
| `SignatureHelper.ExpectedSignature` | Utils/SignatureHelper.cs:19-21 | Base64(SHA-256(UTF-8(message))) over the given library functions; the verdict of `VerifySignature` compares against it |
| `SignatureHelper.VerifySignature` | Utils/SignatureHelper.cs:10-23 | throws on a null timestamp (ArgumentNull), an unreadable one (FormatError) or a null `sig` (NullReference); otherwise the verdict is true exactly when the trimmed `sig` equals Base64(SHA-256(UTF-8(message))) |
| `SignatureHelper.SignaturePaddingIgnored` | Utils/SignatureHelper.cs:23 | white space around the submitted signature never changes the result |
| `SignatureHelper.SignatureIgnoresPassword` | Utils/SignatureHelper.cs:10-17 | the result depends on the secret argument and not on the request's password |
| `SignatureHelper.SignatureIgnoresSubSecond` | Utils/SignatureHelper.cs:12-17 | timestamps whose instants share a stamp give the same verdict and are under a second apart |
| `SignatureHelper.ReferenceTotalBoundaryUnsigned` | Utils/SignatureHelper.cs:17 | reference "INV1" with total 23 produces the same signed message as "INV12" with total 3 |
| `TimeHelper.Duration` | Utils/TimeHelper.cs:16 | `Duration()` is the absolute difference |
| `TimeHelper.IsTimestampValid` | Utils/TimeHelper.cs:7-19 | false for a null or unreadable timestamp, otherwise true iff the clock is at most five minutes from it; the window lemmas below state its behaviour |
| `TimeHelper.FreshnessWindow` | Utils/TimeHelper.cs:15-18 | a readable timestamp is fresh iff the clock minus it lies in [-3,000,000,000, 3,000,000,000] ticks |
| `TimeHelper.UnreadableNeverFresh` | Utils/TimeHelper.cs:10-13 | a null or unreadable timestamp is never fresh |
| `TimeHelper.WindowSymmetric` | Utils/TimeHelper.cs:16 | equal offsets ahead of and behind the clock give the same answer |
| `TimeHelper.BoundaryInclusive` | Utils/TimeHelper.cs:18 | exactly five minutes either way is accepted; one tick more is refused |
| `SubmitTrxMessageController.Outcome.Result` | Controllers/SubmitTrxMessageController.cs:21-80 | `result` is 1 exactly for an accepted request and 0 exactly for a rejection |
| `SubmitTrxMessageController.MissingField` | Controllers/SubmitTrxMessageController.cs:20-33 | no field is reported iff all five are non-blank; a reported field is blank and every field before it in the order partnerkey, partnerrefno, partnerpassword, timestamp, sig is not |
| `SubmitTrxMessageController.Authenticate` | Controllers/SubmitTrxMessageController.cs:35-39 | a secret is returned iff the key is in the partner table and the password equals its secret exactly; the secret is that password |
| `SubmitTrxMessageController.OnlyConfiguredPartners` | Controllers/SubmitTrxMessageController.cs:11-15 | only FAKEGOOGLE and FAKEPEOPLE can authenticate |
| `SubmitTrxMessageController.Wrap64` | Controllers/SubmitTrxMessageController.cs:53 | the unchecked product is congruent to the exact one modulo 2^64, and equals it when that fits in a `long` |
| `SubmitTrxMessageController.Subtotal` | Controllers/SubmitTrxMessageController.cs:53 | `qty * unitprice` in unchecked `long` arithmetic, via `Wrap64` |
| `SubmitTrxMessageController.CheckedSum` | Controllers/SubmitTrxMessageController.cs:53 | the checked sum returns iff every partial sum fits in a `long`, and then returns the sum of the subtotals; otherwise it throws Overflow |
| `SubmitTrxMessageController.SubtotalSumExact` | Controllers/SubmitTrxMessageController.cs:53 | when no product wraps, the subtotals add up to the exact Σ qty × unitprice |
| `SubmitTrxMessageController.ItemsTotal` | Controllers/SubmitTrxMessageController.cs:53 | the LINQ `Sum` from 0, whose behaviour `CheckedSum` states |
| `SubmitTrxMessageController.ItemError` | Controllers/SubmitTrxMessageController.cs:61-71 | an item passes iff its reference and name are non-blank, qty >= 1 and unitprice > 0 |
| `SubmitTrxMessageController.FirstInvalidItem` | Controllers/SubmitTrxMessageController.cs:59-72 | the index returned is the first failing item: all before it pass, and it fails unless it is the end of the list |
| `SubmitTrxMessageController.Price` | Controllers/SubmitTrxMessageController.cs:75-84 | the success result carries the total and the discount `Discount(total)`, which is 0..total/5 for a non-negative total and in (total, 0] for a negative one, and final = total − discount |
| `SubmitTrxMessageController.ItemsOutcome` | Controllers/SubmitTrxMessageController.cs:51-73 | the item phase: overflow fault, then total mismatch, then the first failing item; `MismatchBeforeItemChecks` and `FirstInvalidItemReported` state it |
| `SubmitTrxMessageController.Submit` | Controllers/SubmitTrxMessageController.cs:18-85 | rejections are 400 or 401; a 401 is always "Access Denied!" and only follows complete fields; an escaping exception is a parse FormatError or a sum Overflow |
| `SubmitTrxMessageController.MissingFieldFirst` | Controllers/SubmitTrxMessageController.cs:20-33 | the first blank field gives 400 "<field> is Required." whatever the clock, parser or hashes |
| `SubmitTrxMessageController.AccessDeniedBeforeSignature` | Controllers/SubmitTrxMessageController.cs:35-39 | an unknown key or wrong password gives 401 "Access Denied!" whatever the signature and timestamp |
| `SubmitTrxMessageController.TamperedSignatureDenied` | Controllers/SubmitTrxMessageController.cs:41-44 | a signature not matching the one computed with the stored secret gives 401 "Access Denied!" |
| `SubmitTrxMessageController.UnreadableTimestampFaults` | Controllers/SubmitTrxMessageController.cs:41-44 | an authenticated request with an unreadable timestamp ends in an uncaught FormatError |
| `SubmitTrxMessageController.StaleTimestampExpired` | Controllers/SubmitTrxMessageController.cs:46-49 | a request passing the field, credential and signature checks with a timestamp that is not fresh gets 400 "Expired." |
| `SubmitTrxMessageController.ExpiredOnlyWhenStale` | Controllers/SubmitTrxMessageController.cs:46-49 | "Expired." implies complete fields, valid credentials, a matching signature and a readable timestamp more than five minutes from the clock |
| `SubmitTrxMessageController.NoItemsPricedDirectly` | Controllers/SubmitTrxMessageController.cs:51-84 | with null or empty items, a request passing the earlier checks is priced without any item check |
| `SubmitTrxMessageController.MismatchBeforeItemChecks` | Controllers/SubmitTrxMessageController.cs:53-57 | when Σ qty × unitprice differs from the total, the answer is "Invalid Total Amount." even if an item is invalid |
| `SubmitTrxMessageController.MismatchRejected` | Controllers/SubmitTrxMessageController.cs:51-57 | a fresh, authenticated, correctly signed request whose items' exact sum (no overflow) differs from the total gets 400 "Invalid Total Amount." |
| `SubmitTrxMessageController.FirstInvalidItemReported` | Controllers/SubmitTrxMessageController.cs:59-72 | when the sum matches, the message of the first failing check of the first failing item is returned, or pricing proceeds |
| `SubmitTrxMessageController.AcceptedPriced` | Controllers/SubmitTrxMessageController.cs:75-84 | every accepted response echoes the request's total, carries `Discount(total)` and final = total − discount |
| `SubmitTrxMessageController.ValidItemsPositive` | Controllers/SubmitTrxMessageController.cs:67-71 | items that all pass their checks have a positive exact sum |
| `SubmitTrxMessageController.AcceptedItemsReconciled` | Controllers/SubmitTrxMessageController.cs:51-84 | an accepted request with non-wrapping items declared their exact, positive sum; its discount is `Discount(total)`, within 0..total/5, and final = total − discount |
| `SubmitTrxMessageController.SignaturePaddingIrrelevant` | Controllers/SubmitTrxMessageController.cs:32-44 | white space around `sig` never changes the response |

## Left out

- HTTP plumbing (routing attributes, `IActionResult`, JSON binding) is not modelled. A response is an `Outcome`: a rejection with status and message, an accepted result with its amounts, or an exception that escapes `Submit`.
- SHA-256, Base64 and UTF-8 encoding are library calls. They are fields of a `Crypto` record of arbitrary functions, and no cryptographic property is assumed.
- `DateTime.Parse`/`TryParse` are culture-dependent. They are one `parse` function passed in; both calls use the same styles, so they read a string the same way.
- `DateTime.Now` is a clock reading passed in. The model compares the two instants it is given and makes no claim about local time against UTC.
- The `double` arithmetic of `CalculateDiscount` is modelled with whole-percent rates and an exact truncated product. Rounding of the floating-point sums and products is not captured.
- `Math.Sqrt` is modelled as the exact integer square root (`ISqrt`). Rounding of the `double` square root for totals near 2^63 is not captured.
- `qty * unitprice` wraps modulo 2^64 and the LINQ sum throws on overflow; both are modelled. `IsPrime` works on unbounded integers, which agrees with `long` over its whole range.
- A null element inside `items` (which would throw `NullReferenceException`) is not modelled; items are records.
- `DateTime.ToString("yyyyMMddHHmmss")` is modelled with the Gregorian calendar. A culture with another calendar (th-TH, for one) renders other year digits.
- `long.ToString()` is modelled with the invariant culture's "-" sign. Other cultures' negative signs are not modelled.
- `char.IsWhiteSpace` is modelled by its list of UTF-16 white-space code units.
- Determinism and idempotence of the discount and the verifier need no lemma: every model member is a function of its inputs.
- Concurrency is not modelled: each request is independent and the partner table never changes.
