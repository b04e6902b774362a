# Expense-splitting backend, modelled in Dafny

The system is four request handlers over two key-value tables, `users` and
`expenses`:

- **RegisterUser** checks that the body has a `name` key and an `email` key,
  then writes one user under a fresh `user_id` and answers 201.
- **GetUser** looks a user up by the path id: 404 when absent, 200 with the
  stored record when present.
- **AddExpense** runs an ordered validation pipeline, where the first failing
  step decides the answer:
  1. required-field presence, checked in the order `payer_id`, `amount`,
     `participants`, `splits`, `description` (400);
  2. payer existence (404);
  3. an exact-decimal parse of the text `str(v)` of the amount and of every
     split value (500 on a malformed number);
  4. an exact split-sum check (400).

  Only when all four pass does it write one expense under a fresh
  `expense_id` and answer 201.
- **GetExpensesByUser** scans the expenses table and returns the records
  whose `participants` list contains the id. It always answers 200 on
  success, with an empty list when nothing matches.

Files:

- `wrappers.dfy` holds `Option`.
- `decimals.dfy` holds `Decimal(str(v))` as a parser from text to exact
  rationals, with a renderer and the round trip between them.
- `records.dfy` holds the table rows, the typed request bodies and the
  responses.
- `splits.dfy` holds the split sum as a recursive function over the
  participants, with its algebra.
- `expense_checks.dfy` holds the required-field loop and the parse of the
  splits map.
- `store.dfy` holds class `Tables`. Its two map fields are the tables, and its
  two methods are the handlers that write: `RegisterUser` and `AddExpense`.
  `Valid()` is the table invariant. Every row sits under its own id, every
  expense's payer is a user, and every expense is balanced (its
  participants' splits add up to its amount). Both methods preserve it.
- `queries.dfy` holds the two read-only handlers as functions of the table
  they read.
- `scenarios.dfy` holds verified clients: the handlers composed, and worked
  examples of requests and their answers.

Inputs the model receives as parameters:

- `freshId` stands for `uuid.uuid4()`. It is required not to be a key
  already.
- `now` stands for `datetime.utcnow().isoformat()`. It is an opaque string.
- `Option<string>` fault parameters stand for an exception raised by a store
  call (`get_item`, `put_item`, `scan`). `Some(msg)` means the call raised,
  and the handler answers 500 with `msg`.
- `page` stands for the keys that the first page of the DynamoDB scan
  visits, in scan order.
- A missing path parameter is `pathId == None`. The lookup happens before
  the `try`, so the model returns `Raised` rather than a 500 response.

Two points about what the code does:

- The code checks only that the `name` and `email` keys are present, so an
  empty name is accepted (`EmptyNameAccepted`).
- The participant filter is DynamoDB's `contains`. On a list attribute,
  which is what `participants` is for every request the model expresses,
  `contains` is element membership, so the model uses element membership.

## Model

| member | source | states |
|---|---|---|
| `Store.Tables.RegisterUser` | lambda/register_user/handler.py:9-40 | A missing `name` or `email` key gives 400 "name and email are required" and leaves the users table unchanged. A failing `put_item` gives 500 with its message and also leaves it unchanged. Otherwise the users table gains exactly one record, `User(freshId, name, email, now)`, under the fresh id, and the answer is 201 with that same id. Expenses are never touched, and `Valid()` is preserved. |
| `Store.Balanced` | lambda/add_expense/handler.py:35-40 | An expense is balanced when its participants' splits add up exactly to its amount. This is the check an expense passes before it is written. It is a predicate with no contract. `AddExpense` states that every record it writes is balanced. |
| `Store.Tables.Valid` | lambda/add_expense/handler.py:23-53 | The table invariant: every row sits under its own id, every expense's payer is a user, and every expense is balanced. It is a predicate with no contract. `RegisterUser` and `AddExpense` both require and ensure it. |
| `Store.Tables.AddExpense` | lambda/add_expense/handler.py:11-64 | The pipeline order. The first absent required field gives 400 "`<field>` is required". A failing user lookup gives 500. An unknown payer gives 404 "Invalid payer_id. User does not exist.", whatever the splits are. A malformed amount or split value gives 500. A split total different from the amount gives 400 "Split amounts do not add up to total". A failing `put_item` gives 500. Every non-201 answer leaves the expenses table unchanged. A 201 carries `freshId` and adds exactly one balanced record under it: the payer, the parsed amount, the participants, the full parsed splits map and the description. All other expenses and the users table are unchanged, and `Valid()` is preserved. |
| `ExpenseChecks.Present` | lambda/add_expense/handler.py:17 | A required field is present exactly when its key is in the body (the negation of `field not in body`). It is a plain predicate with no contract. `FirstAbsent`, `FindMissingField` and `NoneAbsentIffAllPresent` are stated in terms of it. |
| `ExpenseChecks.FirstAbsent` | lambda/add_expense/handler.py:15-21 | Returns None exactly when every listed field is present. Otherwise it returns a field that is absent, with every field listed before it present: the first absent one in list order. |
| `ExpenseChecks.FindMissingField` | lambda/add_expense/handler.py:15-21 | The loop over `required_fields` returns the first absent required field. It returns None exactly when all five are present. |
| `ExpenseChecks.NoneAbsentIffAllPresent` | lambda/add_expense/handler.py:15-17 | For the five required keys, "no field is absent" holds exactly when every one of the five is given. |
| `ExpenseChecks.ParseSplits` | lambda/add_expense/handler.py:33 | Succeeds exactly when every split value parses, including the values of non-participants. On success it keeps every key, and each value is the parsed decimal of its text. |
| `Decimals.Parse` | lambda/add_expense/handler.py:32-33 | The text-to-decimal conversion `Decimal(str(v))`. It carries no contract of its own. The lemmas `ParseNumeral` and `NumeralOfParse` characterize the strings it accepts and their values, `TrailingTextRejected`, `ExponentWithoutDigitsRejected` and `ParseNeedsDigit` the strings it rejects, and `ParseRender`, `ParsePlain`, `ParseInteger`, `ParseTrailingZero` and `ParseIntegerPoint` particular forms. |
| `Decimals.ParseNumeral` | lambda/add_expense/handler.py:32-33 | Every numeric string `sign whole [. fraction] [(e or E) expSign expDigits]`, with at least one coefficient digit, parses. Its value is the signed integer spelled by the coefficient digits times 10 to the power of the exponent minus the number of fraction digits. This covers the forms `str` gives, such as `1e+16`, `1.5e-05` and `-12.50`. |
| `Decimals.NumeralOfParse` | lambda/add_expense/handler.py:32-33 | The converse: every string that parses splits into exactly those pieces, so nothing else is accepted. |
| `Decimals.TrailingTextRejected` | lambda/add_expense/handler.py:32-33 | A coefficient followed by text that is neither a digit, a second point nor an exponent marker is malformed (`12abc`, `1.2.3`, `5x`), which the handler turns into a 500. Whitespace, `_` and non-ASCII digits count as such text here only because `Decimals.Parse` leaves those spellings out (see "Left out"); Python accepts them. |
| `Decimals.ExponentWithoutDigitsRejected` | lambda/add_expense/handler.py:32-33 | An exponent marker with an optional sign and no digit after it is malformed (`1e`, `2.5E+`, `7e-`). |
| `Decimals.ParseRender` | lambda/add_expense/handler.py:32-33 | Every decimal `m * 10^e`, written in scientific notation, parses back to exactly that value. |
| `Decimals.ParsePlain` | lambda/add_expense/handler.py:32-33 | The fixed-point text `whole.fraction` parses to its digits read as an integer, divided by 10 to the power of the number of fraction digits. Either part may be empty, but not both. |
| `Decimals.ParseInteger` | lambda/add_expense/handler.py:32-33 | A plain digit string parses to the integer it spells. |
| `Decimals.ParseNeedsDigit` | lambda/add_expense/handler.py:32-33 | Text with no ASCII digit is malformed, which the handler turns into a 500. This matches the source except for the spellings `NaN`, `sNaN`, `Inf` and `Infinity`, and text whose only digits are non-ASCII (`٥`, `５`), all of which `Decimals.Parse` leaves out (see "Left out"). |
| `Decimals.ParseTrailingZero` | lambda/add_expense/handler.py:36 | A trailing zero after the point does not change the parsed value, so the exact comparison is numeric, not textual. |
| `Decimals.ParseIntegerPoint` | lambda/add_expense/handler.py:36 | `n.` and `n` are the same amount. |
| `Decimals.DigitsAppend` | lambda/add_expense/handler.py:32 | Appending digits to a digit string multiplies its value by 10 for each digit appended, then adds the value of the appended digits. |
| `Splits.SplitTotal` | lambda/add_expense/handler.py:35 | The split sum: each listed participant, repeats included, adds `splits.get(p, 0)`. It carries no contract of its own. The lemmas `SplitTotalAppend`, `SplitTotalSnoc`, `AbsentParticipantAddsZero`, `RepeatedParticipant`, `SplitTotalOnlyParticipants`, `NonParticipantSplitIgnored`, `SplitTotalRemoveAt` and `SplitTotalPermutation` characterize it. |
| `Splits.SplitTotalAppend` | lambda/add_expense/handler.py:35 | The total over a concatenation of participant lists is the sum of the two totals. |
| `Splits.SplitTotalSnoc` | lambda/add_expense/handler.py:35 | Each participant occurrence adds exactly `splits.get(p, 0)`. |
| `Splits.AbsentParticipantAddsZero` | lambda/add_expense/handler.py:35 | A participant with no entry in `splits` contributes zero. |
| `Splits.RepeatedParticipant` | lambda/add_expense/handler.py:35 | A participant listed n times contributes n times its split. |
| `Splits.SplitTotalOnlyParticipants` | lambda/add_expense/handler.py:35 | The total depends only on the participants' splits. |
| `Splits.NonParticipantSplitIgnored` | lambda/add_expense/handler.py:35 | A split for someone who is not a participant is ignored by the sum. It is still stored, by `AddExpense`. |
| `Splits.SplitTotalRemoveAt` | lambda/add_expense/handler.py:35 | Taking one occurrence out of the participant list takes exactly its split out of the total. |
| `Splits.SplitTotalPermutation` | lambda/add_expense/handler.py:35 | Reordering the participants leaves the total unchanged. Only the number of occurrences of each participant matters. |
| `Queries.GetUser` | lambda/get_user/handler.py:7-29 | A missing path id raises outside the handler's `try`. A store failure gives 500. Otherwise the answer is 200 exactly when the id is a key, with the stored record itself, and 404 "User not found" when it is not. |
| `Queries.Matching` | lambda/get_expenses_by_user/handler.py:19-23 | Soundness: every returned record lists the id among its participants, and is the unmodified stored record of some scanned key. Completeness relative to the scanned page: every scanned record that lists the id is returned. Order and multiplicity are stated by `MatchingPositions`. |
| `Queries.MatchingPositions` | lambda/get_expenses_by_user/handler.py:19-23 | The filter's result is the subsequence of the scanned page that lists the id: there are increasing positions into the page, one per returned record, each holding that record, and they are exactly the positions whose record lists the id. So scan order is kept and each scanned key contributes once. |
| `Queries.GetExpensesByUser` | lambda/get_expenses_by_user/handler.py:15-34 | A missing path id raises outside the handler's `try`. A store failure gives 500. Otherwise the answer is always 200, never 404, and its list is the filter's result: every participant-matching record of the scanned page, in scan order, once per key (`MatchingPositions`). |
| `Queries.UnknownParticipantGetsEmptyList` | lambda/get_expenses_by_user/handler.py:23-28 | An id that no expense lists as a participant, even one that is a payer, gets 200 with an empty list. |
| `Queries.NoMatchIsEmpty` | lambda/get_expenses_by_user/handler.py:19-23 | When no scanned record lists the id, the filter returns nothing. |
| `Scenarios.RegisterThenGet` | lambda/get_user/handler.py:11-23 | After a successful registration of (name, email) under u, GetUser(u) answers 200 with exactly that name and email. |
| `Scenarios.RegisterTwice` | lambda/register_user/handler.py:20-34 | Not idempotent. Two registrations with the same name and email give two 201s with distinct ids, and two records. |
| `Scenarios.EmptyNameAccepted` | lambda/register_user/handler.py:14 | Only key presence is checked, so an empty name and email are stored. |
| `Scenarios.EndToEnd` | lambda/add_expense/handler.py:42-58 | Register u1 and u2. Add 100.00 paid by u1, split 40.00 / 60.00. The answer is 201 with an expense id. A scan that sees the whole table then returns, for u2, exactly one record, carrying that returned expense id and amount 100. |
| `Scenarios.AddDinner` | lambda/add_expense/handler.py:31-58 | A registered payer adding 100.00 split 40.00 / 60.00 between two people gets 201 "Expense added" with the fresh id. Exactly one new record is written: the parsed amount 100 and the parsed splits 40 and 60. |
| `Scenarios.MismatchRejected` | lambda/add_expense/handler.py:35-40 | amount 100 with splits 60 + 30 gives 400 and no write. |
| `Scenarios.UnknownPayerBeforeSum` | lambda/add_expense/handler.py:24-29 | An unknown payer gives 404 even though the splits do not add up. |
| `Scenarios.UnregisteredParticipant` | lambda/add_expense/handler.py:24-25 | Participants need not be users, and the payer need not be a participant. The expense is added. |
| `Scenarios.FirstMissingNamed` | lambda/add_expense/handler.py:16-21 | With a payer given and both `amount` and `description` absent, the error names `amount`, because fields are checked in order. Nothing is written. |
| `Scenarios.ParseCents` | lambda/add_expense/handler.py:32 | `whole.cc` parses to the exact amount it spells. |

## Left out

- The DynamoDB client handles (`boto3.resource`, `Table`) are not modelled. Each table is a `map` field of `Tables`. Store failures are fault parameters, and the store's consistency and internals are not modelled. In particular, the fault parameter is not tied to the values being written: a number that the store client cannot serialize makes `put_item` raise in the source. That covers an infinity, a NaN, a number outside DynamoDB's number range, and a number with more than 38 significant digits, which the client's decimal context (precision 38, `Rounded` trapped) refuses. For example, amount `1.0000000000000000000000000000000000000000` with splits `{"A": "1"}` gives 500 in the source. The model then answers 500 only when `putFault` says so, and 201 otherwise. In the same way the lookup fault is not tied to the key: DynamoDB rejects an empty-string key, so `payer_id: ""` always gives 500 in the source, where the model with `lookupFault == None` answers 404.
- JSON decoding of `event["body"]` is not modelled. `json.loads` decodes a JSON number with a fraction or exponent to a binary float, and `str` of that float keeps at most 17 significant digits (`12345678901234567.5` arrives as `1.2345678901234568e+16`). So the parse is exact only from the text `str(v)` on, which is what the model's split and amount texts stand for; a JSON integer literal stays exact. The handlers take typed requests: an optional string for each scalar field, a list of strings for `participants`, and a map of texts for `splits`. The source accepts other JSON, and none of the following can be expressed by the typed requests:
  - A body that is a JSON string or list is tested with `in`. A string or list that lacks a required key gives 400. One that holds them (`["name", "email"]`) passes the test and then raises on `body["name"]`, giving 500. A body that is a number, `true` or `null` makes `in` raise, giving 500.
  - A `null` value passes the key test. In RegisterUser, a `null` name or email is stored and the answer is 201. In AddExpense, a `null` description is stored and the answer is 201. A `null` payer id makes the user lookup fail (500). Once the payer is found, a `null` amount, participants or splits raises in the conversion or the sum (500).
  - Once the payer is found, a `splits` value that is not an object raises on `.items()`, giving 500. A split value that is not a number or numeric text (`true`, a list) raises in `Decimal`, giving 500.
  - A `participants` value that is a string is iterated by character, and a list of numbers finds no split (`splits.get(1, 0)` is 0). Either way the answer is 400 or 201. A stored string `participants` is later matched by substring by the `contains` filter. A `participants` value that is a number or a boolean raises in the sum, giving 500.
- `json.dumps` of responses is not modelled. A response is a status code with a structured body.
- `DecimalEncoder` is left out. It converts decimals to floating point for transport only.
- `uuid.uuid4()` and `datetime.utcnow()` are nondeterministic. They become the `freshId` and `now` parameters.
- Scan paging is not modelled: only the first page is read. `GetExpensesByUser` is complete only relative to the keys of that page.
- Python's default decimal context is not modelled. Amounts and sums are exact rationals. The context applies to each addition inside the `sum`, not to `Decimal(str(v))` nor to the `!=` comparison. The model therefore differs from the source in three cases:
  - A partial sum with more than 28 significant digits is rounded. The split check can then fail in the source where the exact sum matches. It can also pass where the exact sum does not match: amount `1`, participants `["A", "B"]`, splits `{"A": "1", "B": "1E-30"}` sums to `1` after rounding, so the source answers 201 and stores that expense, where the model answers 400. `Store.Tables.Valid`'s "every expense is balanced" therefore holds of the model's exact sums, not of every record the source stores.
  - A partial sum beyond `Emax` = 999999 raises `Overflow` (for example a split of `1E+1000000`), and the source answers 500 where the model answers 400 or 201.
  - A partial sum below the subnormal range (exponent under `Etiny` = -1000026, for example `1E-1000030`) underflows to 0 without raising.
- `Decimals.Parse` accepts only the finite form `[sign] [digits] [. [digits]] [e [sign] digits]` with at least one coefficient digit (`ParseNumeral`, `NumeralOfParse`). It treats as malformed several spellings that Python's `Decimal` accepts: surrounding whitespace, underscores between digits, non-ASCII digits, `Infinity`/`Inf` and `NaN`/`sNaN`. For those inputs the model answers 500 with the conversion error. The source does otherwise:
  - Whitespace, underscores and other digits give the value they spell.
  - A quiet `NaN` amount, or a `NaN` split of a participant, makes the total differ from the amount, giving 400 where the model answers 500.
  - A `NaN`, `sNaN` or infinite split of someone who is not a participant is never summed. When the rest balances, the source reaches `put_item`, which refuses that value, and answers 500 at the write rather than at the conversion.
  - An infinite amount that the sum does not match also gives 400.
  - An `sNaN` split, or a sum of opposite infinities, raises `InvalidOperation`, giving 500.
  - An infinite amount matched by an infinite sum reaches `put_item`, which refuses it, giving 500.
- `Decimals.TrailingTextRejected`: its rejected set includes trailing whitespace (`5 `), `_` between digits (`5_0`) and non-ASCII digits (`1٢`), which Python's `Decimal` accepts. For those the source goes on to the split-sum check where the model answers 500.
- `Decimals.ParseNeedsDigit`: text whose only digits are non-ASCII (`٥`, `５`), and the NaN and infinity spellings, are rejected by the model but accepted by Python's `Decimal`.
- The race between the payer lookup and the write in AddExpense is concurrency, which is out of scope.
- An exception's message is modelled as the fault's text. For a malformed number it is the fixed text of `decimal.ConversionSyntax`, and for a missing path id the text of the `KeyError`.
