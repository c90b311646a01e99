# Keep-alive duration of the SpringBucks customer client

This project models, in Dafny, the connection keep-alive strategy of the
SpringBucks customer service. `CustomConnectionKeepAliveStrategy.getKeepAliveDuration`
looks at the `Keep-Alive` headers of an HTTP response and decides how long
the pooled connection may stay idle:

- it takes the header values in the order they were received, and skips null values;
- it splits each value on `,` into parameters;
- it splits each parameter on `=`;
- it picks the first parameter that has exactly two pieces, whose trimmed
  name is `timeout` in any letter case, and whose trimmed value passes the
  creatable-number test; it returns that value, parsed as a `long`, in seconds;
- when no parameter qualifies, it returns the default of 30 seconds.

The model is built from pure functions and lemmas, because the source is a
pure first-match search. Its two nested loops change nothing but the loop
variables, and they end with an early `return`.

- `sequences.dfy` (module `Sequences`): concatenation facts over any element type.
- `java_string.dfy` (module `JavaString`): the parts of `java.lang.String` the scan uses.
  - `split` on a one-character separator, with Java's rules. A string with no
    separator gives itself as the only piece. Otherwise trailing empty pieces
    are removed, so `"timeout="` gives one piece and `"timeout=5="` gives two.
  - `trim`, which removes every character up to and including the space.
  - `equalsIgnoreCase` against an ASCII word.
- `java_number.dfy` (module `JavaNumber`): the test `NumberUtils.isCreatable`
  followed by `Long.parseLong`, for integer literals. The sign is optional.
  A literal starting with `0` and having more digits is treated as octal by
  the test, so its later digits must be 0 to 7: `"08"` is rejected, while
  `"010"` is accepted and parsed in decimal as 10. A literal the test accepts
  but that lies outside the `long` range makes `parseLong` throw. The model
  returns `OutOfRange` for it, and the strategy then ends in
  `NumberFormatFailure`.
- `keep_alive.dfy` (module `KeepAlive`): the scan itself. It has three parts:
  the verdict of one parameter (`Skip`, `Match(n)` or `Fail`), the inner scan
  over one header's parameters, and the outer scan over the headers. Both
  scans are the same loop with an early return, `FirstVerdict`, applied to a
  different judgement of each element.
- `keep_alive_properties.dfy` (module `KeepAliveProperties`): what the scan
  promises about default, matching, order and skipping.

Headers are given as `seq<Option<string>>`, where `None` is a header whose
value is null. The result is `Seconds(n)`, or `NumberFormatFailure` for the
exception that `Long.parseLong` raises.

Three consequences of the code are easy to miss, and the model keeps them:

- A parameter is split at every `=`, not only at the first. So `timeout=1=2`
  has three pieces and is passed over, while `timeout=5=` has two pieces
  (the trailing empty one is dropped) and matches 5.
- Negative timeouts are not rejected: `timeout=-5` gives -5 seconds
  (`NegativeTimeoutReturned`).
- The method can fail. An integer literal outside the `long` range, such as
  `timeout=9223372036854775808`, passes the creatable-number test, and
  `Long.parseLong` then throws `NumberFormatException` out of
  `getKeepAliveDuration` (`OutOfRangeTimeoutFails`).

## Model

| member | source | states |
|---|---|---|
| KeepAlive.KeepAliveDuration | src/main/java/tw/fengqing/spring/springbucks/customer/support/CustomConnectionKeepAliveStrategy.java:22-40 | `getKeepAliveDuration`: the verdict of the header scan, concluded as a duration; the default `DefaultSeconds` is 30 (line 19). Its contract is stated by `KeepAliveDurationFirstDeciding`. |
| KeepAlive.Conclude | src/main/java/tw/fengqing/spring/springbucks/customer/support/CustomConnectionKeepAliveStrategy.java:32-39 | Turns the scan's verdict into the method's outcome: Skip gives the 30-second default (line 39), a match gives its seconds (line 32), a failure gives the exception `parseLong` raises. |
| KeepAlive.ScanHeaders | src/main/java/tw/fengqing/spring/springbucks/customer/support/CustomConnectionKeepAliveStrategy.java:25-37 | The outer loop over the headers, with an early return; proved a flat scan by `ScanHeadersIsFlatScan`. |
| KeepAlive.HeaderVerdict | src/main/java/tw/fengqing/spring/springbucks/customer/support/CustomConnectionKeepAliveStrategy.java:26-35 | What the inner loop makes of one header; a null value has no parameters. |
| KeepAlive.HeaderParams | src/main/java/tw/fengqing/spring/springbucks/customer/support/CustomConnectionKeepAliveStrategy.java:26-28 | The parameters of one header: none for a null value, the comma split otherwise. |
| KeepAlive.ScanParams | src/main/java/tw/fengqing/spring/springbucks/customer/support/CustomConnectionKeepAliveStrategy.java:28-35 | The inner loop over one header's parameters, with an early return; its contract is `ScanParamsFirstDeciding`. |
| KeepAlive.ParamVerdict | src/main/java/tw/fengqing/spring/springbucks/customer/support/CustomConnectionKeepAliveStrategy.java:29-34 | The test on one parameter: two `=`-pieces, trimmed name `timeout` ignoring case, then the value test. Characterised in both directions by `TimeoutParamVerdict` and `DecidingParamShape`. |
| KeepAlive.ValueVerdict | src/main/java/tw/fengqing/spring/springbucks/customer/support/CustomConnectionKeepAliveStrategy.java:31-32 | The value of a `timeout` parameter is passed over exactly when it is not an integer literal, fails exactly when it is a literal outside the `long` range, and otherwise matches with the literal's value. |
| KeepAlive.FirstVerdict | src/main/java/tw/fengqing/spring/springbucks/customer/support/CustomConnectionKeepAliveStrategy.java:25-35 | A loop with an early return: the first verdict other than Skip along a list. |
| KeepAlive.FirstVerdictSkip | src/main/java/tw/fengqing/spring/springbucks/customer/support/CustomConnectionKeepAliveStrategy.java:25-35 | The early-return loop ends without a verdict exactly when every element is judged Skip (both directions). |
| KeepAlive.FirstVerdictAt | src/main/java/tw/fengqing/spring/springbucks/customer/support/CustomConnectionKeepAliveStrategy.java:25-35 | The early-return loop returns the verdict of the first element not judged Skip. |
| KeepAlive.FirstVerdictAppend | src/main/java/tw/fengqing/spring/springbucks/customer/support/CustomConnectionKeepAliveStrategy.java:25-35 | Running the early-return loop over two lists one after the other equals running it over their concatenation. |
| KeepAlive.FirstVerdictSingle | src/main/java/tw/fengqing/spring/springbucks/customer/support/CustomConnectionKeepAliveStrategy.java:25-35 | Over a single element the loop returns that element's verdict. |
| KeepAlive.KeepAliveDurationFirstDeciding | src/main/java/tw/fengqing/spring/springbucks/customer/support/CustomConnectionKeepAliveStrategy.java:22-40 | The nested header and parameter loops give the result of scanning all parameters of all non-null headers in order. The result is the 30-second default when no parameter decides. Otherwise it is the verdict of the first deciding parameter. |
| KeepAlive.ScanParamsFirstDeciding | src/main/java/tw/fengqing/spring/springbucks/customer/support/CustomConnectionKeepAliveStrategy.java:28-35 | The inner loop decides nothing exactly when no parameter decides (both directions). Otherwise it returns the verdict of the first deciding parameter. |
| KeepAlive.ScanParamsAppend | src/main/java/tw/fengqing/spring/springbucks/customer/support/CustomConnectionKeepAliveStrategy.java:28-35 | Scanning two parameter lists one after the other is scanning the first and, only when it decided nothing, the second. |
| KeepAlive.ScanHeadersIsFlatScan | src/main/java/tw/fengqing/spring/springbucks/customer/support/CustomConnectionKeepAliveStrategy.java:25-37 | The loop over headers, each with its own early-returning inner loop, equals one scan over the concatenated parameters. |
| KeepAlive.AllParamsAppend | src/main/java/tw/fengqing/spring/springbucks/customer/support/CustomConnectionKeepAliveStrategy.java:25-28 | The parameters of two header lists are those of the first followed by those of the second. |
| KeepAliveProperties.NoHeadersGiveDefault | src/main/java/tw/fengqing/spring/springbucks/customer/support/CustomConnectionKeepAliveStrategy.java:19-39 | With no Keep-Alive header the result is 30 seconds. |
| KeepAliveProperties.NullHeadersGiveDefault | src/main/java/tw/fengqing/spring/springbucks/customer/support/CustomConnectionKeepAliveStrategy.java:25-39 | Any number of headers whose values are all null give the 30-second default. |
| KeepAliveProperties.NullHeaderIgnored | src/main/java/tw/fengqing/spring/springbucks/customer/support/CustomConnectionKeepAliveStrategy.java:26-27 | Inserting a null-valued header anywhere in the header list does not change the result. |
| KeepAliveProperties.HeaderThatDecidesNothingIgnored | src/main/java/tw/fengqing/spring/springbucks/customer/support/CustomConnectionKeepAliveStrategy.java:25-37 | A header none of whose parameters decides can be removed from anywhere in the list without changing the result. |
| KeepAliveProperties.SameScanSameDuration | src/main/java/tw/fengqing/spring/springbucks/customer/support/CustomConnectionKeepAliveStrategy.java:25-39 | Two header lists whose flattened parameters scan to the same verdict get the same duration. |
| KeepAliveProperties.AllParamsAround | src/main/java/tw/fengqing/spring/springbucks/customer/support/CustomConnectionKeepAliveStrategy.java:25-28 | The parameters of `hs + [h] + more` are those of `hs`, then those of `h`, then those of `more`. |
| KeepAliveProperties.AllParamsSingle | src/main/java/tw/fengqing/spring/springbucks/customer/support/CustomConnectionKeepAliveStrategy.java:26-28 | The parameters of a one-header list are that header's parameters: none for a null value, the comma split otherwise. |
| KeepAliveProperties.SingleParamHeader | src/main/java/tw/fengqing/spring/springbucks/customer/support/CustomConnectionKeepAliveStrategy.java:28-39 | A single header value without a comma is one parameter, and the result is that parameter's verdict, or the default when it decides nothing. |
| KeepAliveProperties.TimeoutParamVerdict | src/main/java/tw/fengqing/spring/springbucks/customer/support/CustomConnectionKeepAliveStrategy.java:29-32 | A parameter `x=y`, possibly followed by more `=` signs, whose trimmed name is `timeout` is judged by its trimmed value alone. |
| KeepAliveProperties.DecidingParamShape | src/main/java/tw/fengqing/spring/springbucks/customer/support/CustomConnectionKeepAliveStrategy.java:29-32 | Conversely, every parameter that ends the scan is a name that trims to `timeout` in some letter case, one `=`, a non-empty value and possibly more trailing `=`. The value decides the verdict. |
| KeepAliveProperties.ParamWithoutEqualsPassedOver | src/main/java/tw/fengqing/spring/springbucks/customer/support/CustomConnectionKeepAliveStrategy.java:29-30 | A parameter without `=` (a bare `max`) is passed over. |
| KeepAliveProperties.ParamWithEmptyValuePassedOver | src/main/java/tw/fengqing/spring/springbucks/customer/support/CustomConnectionKeepAliveStrategy.java:29-30 | `name=` with nothing after the `=` (including `timeout=`) has fewer than two pieces and is passed over. |
| KeepAliveProperties.ParamWithThreePiecesPassedOver | src/main/java/tw/fengqing/spring/springbucks/customer/support/CustomConnectionKeepAliveStrategy.java:29-30 | A parameter with a second `=` followed by text (`timeout=1=2`) has three or more pieces and is passed over. |
| KeepAliveProperties.NonTimeoutParamPassedOver | src/main/java/tw/fengqing/spring/springbucks/customer/support/CustomConnectionKeepAliveStrategy.java:30 | A parameter that does not split in two, or whose trimmed name is not `timeout` ignoring case, can be removed from any parameter list without changing the scan. |
| KeepAliveProperties.NonNumericTimeoutPassedOver | src/main/java/tw/fengqing/spring/springbucks/customer/support/CustomConnectionKeepAliveStrategy.java:31 | A `timeout` parameter whose trimmed value holds no decimal digit (such as `timeout=never`), which the creatable-number test rejects in every form, can be removed from any parameter list without changing the scan. |
| KeepAliveProperties.PassedOverParams | src/main/java/tw/fengqing/spring/springbucks/customer/support/CustomConnectionKeepAliveStrategy.java:28-35 | Parameters none of which decides can be removed from between any others without changing the scan. |
| KeepAliveProperties.EmptyValueDecidesNothing | src/main/java/tw/fengqing/spring/springbucks/customer/support/CustomConnectionKeepAliveStrategy.java:28-30 | The empty header value has the single parameter `""`, which decides nothing. |
| KeepAliveProperties.TimeoutNameCharacters | src/main/java/tw/fengqing/spring/springbucks/customer/support/CustomConnectionKeepAliveStrategy.java:30 | A name equal to `timeout` ignoring case has seven characters, none of them padding, `,` or `=`. |
| KeepAliveProperties.DecimalStringCharacters | src/main/java/tw/fengqing/spring/springbucks/customer/support/CustomConnectionKeepAliveStrategy.java:31-32 | The decimal form of a number is non-empty and has no padding, `,` or `=`. |
| KeepAliveProperties.PaddedTimeoutParam | src/main/java/tw/fengqing/spring/springbucks/customer/support/CustomConnectionKeepAliveStrategy.java:29-32 | `timeout=N`, with any letter case and any padding around the name and the value, is comma-free; it matches N for every long N and fails for every other N. |
| KeepAliveProperties.SingleTimeoutHeader | src/main/java/tw/fengqing/spring/springbucks/customer/support/CustomConnectionKeepAliveStrategy.java:28-32 | A single header `timeout=N`, in any letter case and with any padding, gives exactly N seconds for every long N, and the parse failure for every N outside the `long` range. |
| KeepAliveProperties.PlainTimeoutHeader | src/main/java/tw/fengqing/spring/springbucks/customer/support/CustomConnectionKeepAliveStrategy.java:28-32 | A single header `timeout=N` gives N seconds when N is a long and the parse failure otherwise. |
| KeepAliveProperties.OutOfRangeTimeoutFails | src/main/java/tw/fengqing/spring/springbucks/customer/support/CustomConnectionKeepAliveStrategy.java:31-32 | `timeout=N` with N outside the `long` range (such as 9223372036854775808) ends the method with `NumberFormatException` instead of a duration. |
| KeepAliveProperties.TimeoutNameCases | src/main/java/tw/fengqing/spring/springbucks/customer/support/CustomConnectionKeepAliveStrategy.java:30 | A name equals `timeout` ignoring case exactly when it has seven characters and each is the letter of `timeout` at that place in lower or upper case, or, for the `i`, the dotted capital I or the dotless small i (both directions). |
| KeepAliveProperties.CapitalisedTimeoutNames | src/main/java/tw/fengqing/spring/springbucks/customer/support/CustomConnectionKeepAliveStrategy.java:30 | `TIMEOUT` and `Timeout` are accepted as the name, and `timeouts` is not. |
| KeepAliveProperties.NegativeTimeoutReturned | src/main/java/tw/fengqing/spring/springbucks/customer/support/CustomConnectionKeepAliveStrategy.java:31-32 | A negative timeout is not rejected: `timeout=-N` gives -N seconds. |
| KeepAliveProperties.AppendHeadersKeepsResult | src/main/java/tw/fengqing/spring/springbucks/customer/support/CustomConnectionKeepAliveStrategy.java:25-32 | Once some parameter of the headers decides, appending any further headers does not change the result. |
| KeepAliveProperties.AppendParamsKeepsResult | src/main/java/tw/fengqing/spring/springbucks/customer/support/CustomConnectionKeepAliveStrategy.java:28-32 | Once a header value holds a deciding parameter, appending `,` and more parameters to it does not change the result, whatever headers come before or after. |
| KeepAliveProperties.TwoParamHeader | src/main/java/tw/fengqing/spring/springbucks/customer/support/CustomConnectionKeepAliveStrategy.java:27-28 | A header value made of two comma-free parameters joined by one comma, the second non-empty, yields exactly those two parameters. |
| KeepAliveProperties.PassedOverThenMatch | src/main/java/tw/fengqing/spring/springbucks/customer/support/CustomConnectionKeepAliveStrategy.java:28-32 | In a header `other,p` where `other` decides nothing and `p` decides, the result is `p`'s verdict whatever headers follow (the `max=5, timeout=15` then `timeout=60` case gives 15). |
| JavaNumber.ParseLong | src/main/java/tw/fengqing/spring/springbucks/customer/support/CustomConnectionKeepAliveStrategy.java:31-32 | A string is rejected exactly when it is not an integer literal (both directions). A literal is out of range exactly when its decimal value leaves the `long` range. Otherwise the result is that value, whose sign follows the literal's sign. |
| JavaNumber.ParseLongPrintsBack | src/main/java/tw/fengqing/spring/springbucks/customer/support/CustomConnectionKeepAliveStrategy.java:31-32 | Parsing a literal and printing the value back gives the literal without its plus sign and leading zeros (`007` gives 7, `-010` gives -10, `-0` gives 0): the inverse of `ParseLongOfDecimalString`. |
| JavaNumber.StripZeros | src/main/java/tw/fengqing/spring/springbucks/customer/support/CustomConnectionKeepAliveStrategy.java:31-32 | Removing leading zeros leaves a non-empty run of digits that starts with 0 only when it is `0`. |
| JavaNumber.StripZerosValue | src/main/java/tw/fengqing/spring/springbucks/customer/support/CustomConnectionKeepAliveStrategy.java:31-32 | Leading zeros add nothing to the value `parseLong` reads. |
| JavaNumber.LeadingZeroValue | src/main/java/tw/fengqing/spring/springbucks/customer/support/CustomConnectionKeepAliveStrategy.java:31-32 | A leading zero adds nothing to the value of a run of digits. |
| JavaNumber.LeadingDigitPositive | src/main/java/tw/fengqing/spring/springbucks/customer/support/CustomConnectionKeepAliveStrategy.java:31-32 | Digits that start with a digit other than 0 have a positive value. |
| JavaNumber.NatDigitsOfValue | src/main/java/tw/fengqing/spring/springbucks/customer/support/CustomConnectionKeepAliveStrategy.java:31-32 | Digits without a leading zero are exactly the printed digits of their value. |
| JavaNumber.SingleDigitValue | src/main/java/tw/fengqing/spring/springbucks/customer/support/CustomConnectionKeepAliveStrategy.java:31-32 | One digit has that digit's value. |
| JavaNumber.DigitRoundTrip | src/main/java/tw/fengqing/spring/springbucks/customer/support/CustomConnectionKeepAliveStrategy.java:31-32 | A digit character's value printed back is that character. |
| JavaNumber.LiteralHasDigit | src/main/java/tw/fengqing/spring/springbucks/customer/support/CustomConnectionKeepAliveStrategy.java:31 | Every integer literal holds a decimal digit. |
| JavaNumber.DigitChar | src/main/java/tw/fengqing/spring/springbucks/customer/support/CustomConnectionKeepAliveStrategy.java:31-32 | The printed character of a digit value is a digit with that value. |
| JavaNumber.DigitValue | src/main/java/tw/fengqing/spring/springbucks/customer/support/CustomConnectionKeepAliveStrategy.java:31-32 | A digit character's value is below 10. |
| JavaNumber.LiteralValue | src/main/java/tw/fengqing/spring/springbucks/customer/support/CustomConnectionKeepAliveStrategy.java:31-32 | The value `parseLong` reads from a signed run of digits, in decimal whatever its leading zeros; pinned down by `ParseLongPrintsBack`. |
| JavaNumber.IsIntegerLiteral | src/main/java/tw/fengqing/spring/springbucks/customer/support/CustomConnectionKeepAliveStrategy.java:31 | The integer literals the creatable-number test accepts: optional sign, digits, and the octal rule for a leading 0; its meaning is stated by `ParseLong`, `OctalLookingLiterals` and `ParseLongOfDecimalString`. |
| JavaNumber.DecimalString | src/main/java/tw/fengqing/spring/springbucks/customer/support/CustomConnectionKeepAliveStrategy.java:31-32 | How a long is printed; `ParseLongOfDecimalString` and `ParseLongPrintsBack` make it the inverse of parsing. |
| JavaNumber.ParseLongOfDecimalString | src/main/java/tw/fengqing/spring/springbucks/customer/support/CustomConnectionKeepAliveStrategy.java:31-32 | Parsing the decimal form of n gives back n when n is a long, and the parse failure otherwise. |
| JavaNumber.ParseLongPlusSign | src/main/java/tw/fengqing/spring/springbucks/customer/support/CustomConnectionKeepAliveStrategy.java:31-32 | A leading `+` is accepted and changes nothing, and a lone `+` is rejected. |
| JavaNumber.OctalLookingLiterals | src/main/java/tw/fengqing/spring/springbucks/customer/support/CustomConnectionKeepAliveStrategy.java:31-32 | `08` and `-09` are rejected by the octal rule, while `010` is read as decimal 10 and `0` as 0. |
| JavaNumber.NatDigits | src/main/java/tw/fengqing/spring/springbucks/customer/support/CustomConnectionKeepAliveStrategy.java:31-32 | The printed digits of n are non-empty decimal digits with no leading zero, and their value is n. |
| JavaNumber.Magnitude | src/main/java/tw/fengqing/spring/springbucks/customer/support/CustomConnectionKeepAliveStrategy.java:31 | The magnitude is the string itself, or the string without its single leading sign. |
| JavaString.Pieces | src/main/java/tw/fengqing/spring/springbucks/customer/support/CustomConnectionKeepAliveStrategy.java:28-29 | Cutting at every separator gives at least one piece. |
| JavaString.PiecesJoin | src/main/java/tw/fengqing/spring/springbucks/customer/support/CustomConnectionKeepAliveStrategy.java:28-29 | The pieces hold no separator, and joining them with the separator gives back the string. |
| JavaString.PiecesOfJoin | src/main/java/tw/fengqing/spring/springbucks/customer/support/CustomConnectionKeepAliveStrategy.java:28-29 | Cutting a join of separator-free pieces gives back exactly those pieces (the inverse of `PiecesJoin`). |
| JavaString.JoinConsChar | src/main/java/tw/fengqing/spring/springbucks/customer/support/CustomConnectionKeepAliveStrategy.java:28-29 | Putting a character in front of the first piece puts it in front of the join. |
| JavaString.JoinAppend | src/main/java/tw/fengqing/spring/springbucks/customer/support/CustomConnectionKeepAliveStrategy.java:28-29 | Joining two non-empty piece lists is joining each, with one separator between them. |
| JavaString.PiecesOfPrefix | src/main/java/tw/fengqing/spring/springbucks/customer/support/CustomConnectionKeepAliveStrategy.java:28-29 | A separator-free prefix becomes part of the first piece of what follows it. |
| JavaString.PiecesAppend | src/main/java/tw/fengqing/spring/springbucks/customer/support/CustomConnectionKeepAliveStrategy.java:28-29 | The pieces of `v`, a separator, and `w` are the pieces of `v` followed by those of `w`. |
| JavaString.SepFreeAppend | src/main/java/tw/fengqing/spring/springbucks/customer/support/CustomConnectionKeepAliveStrategy.java:28-29 | Two separator-free piece lists concatenate to a separator-free list. |
| JavaString.Split | src/main/java/tw/fengqing/spring/springbucks/customer/support/CustomConnectionKeepAliveStrategy.java:28-29 | `String.split` on `,` and on `=`; its contract is stated by `SplitPieces`, `SplitTwoPieces`, `SplitTwoPiecesShape` and `SplitTrailingSeparator`. |
| JavaString.DropTrailingEmptyKeepsPrefix | src/main/java/tw/fengqing/spring/springbucks/customer/support/CustomConnectionKeepAliveStrategy.java:28-29 | Removing trailing empty pieces leaves a prefix whose last piece is non-empty. Every removed piece was empty. |
| JavaString.DropTrailingEmptyPrefix | src/main/java/tw/fengqing/spring/springbucks/customer/support/CustomConnectionKeepAliveStrategy.java:28-29 | Removing trailing empty pieces is monotone under appending more pieces. |
| JavaString.SplitPieces | src/main/java/tw/fengqing/spring/springbucks/customer/support/CustomConnectionKeepAliveStrategy.java:28-29 | `split` without a separator gives the string itself. With a separator it gives a prefix of the pieces that ends in a non-empty piece and drops only empty pieces. No result piece holds the separator. |
| JavaString.SplitExtend | src/main/java/tw/fengqing/spring/springbucks/customer/support/CustomConnectionKeepAliveStrategy.java:28 | Extending a non-empty string with a separator and more text only adds pieces after those it already had. |
| JavaString.SplitTrailingSeparator | src/main/java/tw/fengqing/spring/springbucks/customer/support/CustomConnectionKeepAliveStrategy.java:29 | `x=` splits into `[x]`, and `=` alone into no pieces at all. |
| JavaString.LastPieceKept | src/main/java/tw/fengqing/spring/springbucks/customer/support/CustomConnectionKeepAliveStrategy.java:29 | A string that does not end in the separator has a non-empty last piece. |
| JavaString.SplitKeepsAllPieces | src/main/java/tw/fengqing/spring/springbucks/customer/support/CustomConnectionKeepAliveStrategy.java:29 | A string holding the separator but not ending in it splits into all of its pieces. |
| JavaString.JoinTrailingEmpty | src/main/java/tw/fengqing/spring/springbucks/customer/support/CustomConnectionKeepAliveStrategy.java:29 | Joining k extra empty pieces appends k separators. |
| JavaString.SplitTwoPieces | src/main/java/tw/fengqing/spring/springbucks/customer/support/CustomConnectionKeepAliveStrategy.java:29-30 | `x`, a separator, a non-empty `y` and any number of separators split into exactly `[x, y]`. |
| JavaString.SplitTwoPiecesShape | src/main/java/tw/fengqing/spring/springbucks/customer/support/CustomConnectionKeepAliveStrategy.java:29-30 | Conversely, a string that splits into two pieces is the first piece, a separator, the non-empty second piece and only separators after it. |
| JavaString.TrimStart | src/main/java/tw/fengqing/spring/springbucks/customer/support/CustomConnectionKeepAliveStrategy.java:30-32 | The result is a suffix of the input. Everything removed is padding, and the result starts with a kept character or is empty. |
| JavaString.TrimEnd | src/main/java/tw/fengqing/spring/springbucks/customer/support/CustomConnectionKeepAliveStrategy.java:30-32 | The result is a prefix of the input. Everything removed is padding, and the result ends with a kept character or is empty. |
| JavaString.Trim | src/main/java/tw/fengqing/spring/springbucks/customer/support/CustomConnectionKeepAliveStrategy.java:30-32 | The trimmed string is no longer than the input, and it is empty or starts and ends with a kept character. |
| JavaString.TrimStartPadded | src/main/java/tw/fengqing/spring/springbucks/customer/support/CustomConnectionKeepAliveStrategy.java:30-32 | Leading padding makes no difference to `TrimStart`. |
| JavaString.TrimEndPadded | src/main/java/tw/fengqing/spring/springbucks/customer/support/CustomConnectionKeepAliveStrategy.java:30-32 | Trailing padding makes no difference to `TrimEnd`. |
| JavaString.TrimPadded | src/main/java/tw/fengqing/spring/springbucks/customer/support/CustomConnectionKeepAliveStrategy.java:30-32 | `trim` removes exactly the padding around a core that starts and ends with a kept character. |
| JavaString.FoldCase | src/main/java/tw/fengqing/spring/springbucks/customer/support/CustomConnectionKeepAliveStrategy.java:30 | A capital ASCII letter folds to its small letter, every other ASCII character to itself. The folded character is ASCII exactly when the input is ASCII or one of the four non-ASCII characters that case-map to an ASCII letter. Padding stays padding. |
| JavaString.FoldCaseToLetter | src/main/java/tw/fengqing/spring/springbucks/customer/support/CustomConnectionKeepAliveStrategy.java:30 | A character folds to the small letter `l` exactly when it is `l`, its capital, or a non-ASCII character whose Java case mapping is `l` (both directions). |
| JavaString.EqualsIgnoreCaseLowerWord | src/main/java/tw/fengqing/spring/springbucks/customer/support/CustomConnectionKeepAliveStrategy.java:30 | A string equals a lower-case ASCII word ignoring case exactly when it has the word's length and each character is a case variant of the word's letter at that place (both directions). |
| JavaString.EqualsIgnoreCase | src/main/java/tw/fengqing/spring/springbucks/customer/support/CustomConnectionKeepAliveStrategy.java:30 | `equalsIgnoreCase` against an ASCII word, by character-wise folding; its meaning is stated by `EqualsIgnoreCaseLowerWord`. |

## Left out

- NonNumericTimeoutPassedOver: covers only values with no decimal digit. A value such as `08` or `12abc` is also passed over by the code, but `1.5`, `0x1F`, `5L` and `1e3` pass the creatable-number test and make `parseLong` throw. The model does not tell these apart (see the next line), so the lemma claims nothing about values holding a digit that are not integer literals.
- ParseLong: `NumberUtils.isCreatable` also accepts hexadecimal (`0x1F`), decimal-point, exponent and type-suffix forms (`5L`, `1.5`, `1e3`), on which `Long.parseLong` then throws. The model treats these as not numeric and passes over them, instead of ending in `NumberFormatFailure`.
- EqualsIgnoreCase: it folds case correctly only when one side is an ASCII word. The strategy compares only against `timeout`, so this is all it needs.
- Strings are sequences of Unicode scalar values, not UTF-16 code units. `trim` and `equalsIgnoreCase` act on code units in Java, and surrogate pairs are not modelled.
- The `HttpResponse` is reduced to the list of its `Keep-Alive` header values. `getHeaders` never returns a null array in the library, so the null check on the array is modelled as an empty list.
- The `HttpContext` parameter is never read and has no counterpart.
- `TimeValue` is reduced to a number of seconds. Its construction and time units are not modelled.
- `CustomerServiceApplication` (HTTP client, pool and bean wiring, and the demo requests it runs at start-up) is not part of this model. It is configuration of library code and network I/O.
- The connection pool that consumes the duration is library code and concurrent. It is not part of this model.
