# Certification report normaliser

This is a Dafny model of the data path of the certification scraper Lambda. The
function `get_cert_report` downloads the partner portal's certification report as CSV.
It then normalises the report row by row:

- a hidden e-mail address (`xxxxxx`) becomes `unknown-<i>` in both the `Work Email`
  and the `User Name` column;
- the award and expiration dates are parsed with `strptime("%m/%d/%Y")`;
- the last certification date is the expiration date minus three years
  (`relativedelta`);
- the row is classified as `New` when that date is the award date, and as
  `Recertified` otherwise (which also sets `Recertification Date`);
- `Last Certification Date` is written as `month/day/year` without padding.

`relativedelta(years=3)` keeps the month and clamps the day to
`min(monthrange(year, month)[1], day)` (lambda/scraper/app.py:72). A year three before a
leap year is never a leap year, so an expiration date of Feb 29 always gives Feb 28,
never Mar 1. Because expiration minus three years is never Feb 29, a certificate awarded on Feb 29
is classified `Recertified` whatever its expiration date
(`Normalizer.LeapDayAwardIsRecertified`).

`save_cert_report` projects each normalised row onto a table item. `str2bool` reads a
configuration flag.

The modules follow that structure:

- `Wrappers`: `Option` and `Result` with the `:-` failure propagation.
- `Decimal`: digit strings, their values, and `str(n)` as `Show`.
- `Calendar`: the Gregorian calendar of Python's `datetime`, and
  `relativedelta(years=n)` as `ShiftYears`.
- `DateText`: `strptime` with `%m/%d/%Y` (`Parse`) and the report's date printer
  (`Format`). CPython's regular expressions for `%m`, `%d` and `%Y` are modelled
  exactly, including the single leading space `%d` allows.
- `Normalizer`: the row loop of `get_cert_report`. A row is a `map<string, string>`.
  Python's exceptions (`KeyError`, `ValueError`) become a `Failure` that names the
  row and, for a missing or malformed cell, the column. The loop is written once as a fold (`Fold`) over any loop body,
  and once as the loop itself (`RunRows`, `GetCertReport`).
- `Store`: the item projection of `save_cert_report`, and what a normalised row
  becomes in the table.
- `Flags`: `str2bool`.

## Model

| member | source | states |
|---|---|---|
| Calendar.DaysInMonth | lambda/scraper/app.py:70-71 | A month has 28 to 31 days, and February has 29 exactly in leap years. This is the day bound `strptime` enforces. |
| Calendar.ShiftYears | lambda/scraper/app.py:72 | `relativedelta(years=n)` succeeds exactly when the new year stays in 1..9999. The result is a valid date in the same month. Its day is clamped only for Feb 29 landing in a common year, where it becomes 28. |
| Calendar.SubtractThreeYears | lambda/scraper/app.py:72 | Subtracting three years fails exactly when the expiration year is 3 or less. Otherwise the result is the same month and day three years earlier, with Feb 29 going to Feb 28 and never to Mar 1. |
| Calendar.ShiftBackAndForth | lambda/scraper/app.py:72 | Three years back and three years forward again gives the original date, except that Feb 29 comes back as Feb 28. |
| Calendar.NeverLeapDay | lambda/scraper/app.py:72 | Three years before any date is never Feb 29. |
| Calendar.LeapYearsThreeApart | lambda/scraper/app.py:72 | Two years three apart are never both leap years, so the clamp always lands on Feb 28. |
| Decimal.Show | lambda/scraper/app.py:67-68 | `str(n)` is the canonical decimal of `n`: no leading zero, one digit below 10, up to four digits below 10000. |
| Decimal.ShowInjective | lambda/scraper/app.py:67-68 | Different numbers print differently. |
| DateText.JoinFields | lambda/scraper/app.py:70-71 | Splitting at `/` loses nothing: the fields joined back give the text, and no field holds a `/`. |
| DateText.MonthTokenSpellings | lambda/scraper/app.py:70-71 | `%m` reads month `m` exactly from its plain spelling and, below 10, from the zero-padded one. |
| DateText.DayTokenSpellings | lambda/scraper/app.py:70-71 | `%d` reads day `d` exactly from its plain spelling and, below 10, from the spellings padded with a zero or a space. |
| DateText.YearTokenSpelling | lambda/scraper/app.py:70-71 | `%Y` reads year `y` exactly from its four-digit zero-padded spelling. |
| DateText.Parse | lambda/scraper/app.py:70-71 | Every date `strptime` accepts is a real date with year 1..9999. |
| DateText.ParseSound | lambda/scraper/app.py:70-71 | Every accepted text is an accepted month spelling, `/`, an accepted day spelling, `/`, and a four-digit year of the date it yields. |
| DateText.ParseComplete | lambda/scraper/app.py:70-71 | Every accepted spelling of every real date parses to that date. |
| DateText.FormatUnpadded | lambda/scraper/app.py:75 | A printed date is three decimal fields with the date's month, day and year. None of them has a leading zero, and months and days below 10 print as one character. |
| DateText.FormatThenParse | lambda/scraper/app.py:79 | A printed date with a four-digit year parses back to the same date. |
| DateText.ShortYearDoesNotParseBack | lambda/scraper/app.py:79 | A printed date with a year below 1000 does not parse back: its year has fewer than four digits. |
| DateText.ExampleMonthThirteen | lambda/scraper/app.py:70 | `13/01/2020` is rejected. |
| DateText.ExampleFebruaryThirtieth | lambda/scraper/app.py:70 | `2/30/2020` matches the pattern but is not a date, so it is rejected. |
| DateText.ExampleLeapDayShift | lambda/scraper/app.py:72-79 | Three years before 2024-02-29 is 2021-02-28, printed as `2/28/2021`. |
| Normalizer.PlaceholderInjective | lambda/scraper/app.py:67-68 | `unknown-i` and `unknown-j` are equal only when `i == j`. |
| Normalizer.AnonymiseSpec | lambda/scraper/app.py:66-69 | A redacted row gets the placeholder for the current counter in both identity columns. Any other row is unchanged, and no column outside the two identity columns changes. |
| Normalizer.StampSpec | lambda/scraper/app.py:74-79 | The row gets the printed last certification date. It is `New` exactly when that date equals the award date; otherwise it is `Recertified` with the recertification date equal to the last certification date. A `New` row keeps whatever recertification column it had, and nothing outside the three derived columns changes. |
| Normalizer.NormalizeRow | lambda/scraper/app.py:69 | The counter goes up by one on a redacted row and stays the same otherwise. |
| Normalizer.NormalizeRowSpec | lambda/scraper/app.py:66-79 | One iteration fails exactly when the row is faulty (`RowFault`), with that fault, in Python's evaluation order. Otherwise it keeps or anonymises the identity, leaves every untouched column as it was, and classifies the row from its dates. |
| Normalizer.Fold | lambda/scraper/app.py:65-80 | A completed pass yields one row per input row. |
| Normalizer.Normalize | lambda/scraper/app.py:80-82 | The report has as many rows as the input. |
| Normalizer.FoldCounter | lambda/scraper/app.py:62-69 | For any loop body that counts redacted rows, the final counter is the start value plus the number of redacted rows. |
| Normalizer.FinalCounter | lambda/scraper/app.py:62-69 | After the whole report, `i` equals the number of redacted rows. |
| Normalizer.FoldRowwise | lambda/scraper/app.py:65-80 | Output row `j` is the loop body applied to input row `j`, with the counter at the number of redacted rows before it. Order is kept. |
| Normalizer.NormalizeRowwise | lambda/scraper/app.py:65-80 | The same, for the real loop body. |
| Normalizer.Identities | lambda/scraper/app.py:66-68 | A row with a real e-mail keeps its e-mail and user name. The k-th redacted row, counting from 0, gets `unknown-k` in both columns. |
| Normalizer.PlaceholdersDistinct | lambda/scraper/app.py:66-69 | Two different redacted rows never get the same placeholder. |
| Normalizer.CountRedactedMonotone | lambda/scraper/app.py:62-69 | The counter never goes back. |
| Normalizer.UntouchedColumns | lambda/scraper/app.py:65-80 | Outside `Work Email`, `User Name`, `Recertification Date`, `Recertified` and `Last Certification Date`, every output row has exactly the columns and text of its input row. |
| Normalizer.Classification | lambda/scraper/app.py:70-79 | Every output row has parseable dates and the printed last certification date. It is `New` exactly when expiration minus three years equals the award date; otherwise it is `Recertified` with the recertification date equal to the last certification date. |
| Normalizer.LeapDayAwardIsRecertified | lambda/scraper/app.py:72-78 | A row awarded on Feb 29 is always `Recertified`, never `New`: expiration minus three years cannot be Feb 29. |
| Normalizer.FirstFaultSpec | lambda/scraper/app.py:65-71 | `FirstFault` finds nothing exactly when no row is faulty. Otherwise it returns the fault of a row with only sound rows before it. |
| Normalizer.FoldFails | lambda/scraper/app.py:65-72 | For a loop body that fails on faulty rows, the pass fails exactly when `FirstFault` finds a fault, and with that fault. |
| Normalizer.NormalizeFails | lambda/scraper/app.py:65-72 | The report succeeds exactly when no row is faulty. Otherwise it fails with the first faulty row's error and yields no partial list. |
| Normalizer.ChainStep | lambda/scraper/app.py:80 | Appending a normalised row to `certs` and continuing gives the same result as continuing from before the row. |
| Normalizer.RunRows | lambda/scraper/app.py:61-82 | The loop with `certs`, `i` and early exit computes exactly the fold, for any loop body. |
| Normalizer.GetCertReport | lambda/scraper/app.py:61-82 | The loop returns the normalised report, which succeeds exactly when no row is faulty and then has one row per input row. |
| Store.ToItem | lambda/scraper/app.py:147-157 | The dictionary display as a `Result`: a `KeyError` for the first missing column. |
| Store.FirstMissingSpec | lambda/scraper/app.py:147-157 | `FirstMissing` finds nothing exactly when every required column is present. Otherwise it returns a missing column with every column before it present. |
| Store.ToItemSpec | lambda/scraper/app.py:147-157 | An item is built exactly when every required column is present; otherwise the error names the first missing column in evaluation order. A built item copies each column verbatim, and `RecertDate` defaults to the empty text. |
| Store.SaveCertReport | lambda/scraper/app.py:144-158 | The items put are the projections of a prefix of the rows. The batch stops only at a row whose projection fails, with that row's error, and covers every row when nothing fails. |
| Store.ReportItem | lambda/scraper/app.py:147-157 | A normalised row yields an item exactly when it has the certificate name and level and, unless redacted, a user name. The item's e-mail and user are the placeholder or the original. Its award and expiration dates are the input text verbatim, and `LastCertDate` is the printed expiration date minus three years. `Recertified` matches the classification. `RecertDate` equals `LastCertDate` for a `Recertified` row. For a `New` row it is the input's recertification text, or empty when the input had no such column. |
| Store.RedactedKeysDistinct | lambda/scraper/app.py:147-157 | Two redacted rows are stored under different e-mails, so with the table's (e-mail, certificate) key neither overwrites the other. |
| Flags.Lower | lambda/scraper/app.py:40 | Lower-casing keeps the length and maps each character on its own. |
| Flags.Str2BoolSpec | lambda/scraper/app.py:39-40 | A flag is true exactly for `1`, `t`, `yes` and `true` in any mix of upper and lower case, and false for everything else. |
| Flags.CaseInsensitive | lambda/scraper/app.py:39-40 | Lower-casing is idempotent, so a flag's value does not depend on case. |

## Left out

- The Selenium login (`get_login_cookies`), the HTTP download and the CSV decoding are not modelled; the report arrives as a sequence of rows, each a map from column name to text.
- `csv.DictReader` rows that are shorter than the header hold `None` cells, and extra cells go under a `None` key. Neither is modelled: a cell is either present text or absent.
- Secrets Manager (`get_secret`), the table's deletion, creation and waiters, and `lambda_handler` are not modelled, because they are calls into AWS services. The infrastructure stack is not modelled either.
- Logging through `print` is not modelled.
- `SaveCertReport` models the items handed to the batch writer, including those before a failing row, which the writer still flushes when the `with` block exits. Batching into requests, retries, and DynamoDB's own rejections (an empty key, duplicate keys within one batch) are not modelled.
- DateText.Parse: Python's `\d` also matches non-ASCII decimal digits. The model accepts ASCII digits only.
- Flags.Lower: lower-cases ASCII letters only. Python's `str.lower` also maps other letters, but the only non-ASCII characters it lowers into ASCII are KELVIN SIGN (to `k`) and LATIN CAPITAL LETTER I WITH DOT ABOVE (to `i` plus a combining dot). Neither can produce `yes`, `true`, `t` or `1`, so `Str2Bool` gives Python's answer for every input.
- A `New` row lacks `Recertification Date` only if the input row lacked it, because the code never removes that column. The contracts state that conditional form.
