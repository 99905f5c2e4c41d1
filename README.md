# Gmail collector: the submission store and its page helpers

The collector gathers Gmail accounts that contributors hand in together with
the e-wallet to be paid on. Each submission holds an id, a name, an email, a
wallet, a paid flag and a creation time stamp. Payout is 4000 per account.

The model covers three scripts:

- **The server store** (`server/index.js`). An in-memory list, newest first,
  plus the next id to hand out. The routes add a submission (three checks in a
  fixed order), toggle its paid flag, delete by id, delete everything and
  compute the statistics. `Server.Store` is a class with the list and the
  counter as fields. Each route body is a method that answers with a `Reply`
  (`Ok`, `ValidationError` with the reason, `NotFound`) in place of the HTTP
  status. The store invariant holds before and after every route: emails are
  distinct after lower-casing, ids strictly decrease from front to back, every
  id lies in 1 .. nextId-1, and every record passed the add checks.
- **The browser-only variant** (`app.js`). `LocalApp.LocalStore` keeps the list
  that the page stores in the browser. It appends at the END. The id and the
  time stamp come from the clock, which the methods take as parameters. The
  only validation is in the submit form: the gmail check, then the duplicate
  check, both on the trimmed email.
- **The server-backed page** (`public/app.js`). `Client` models the request the
  form sends (trimmed fields), where a refusal text is shown, and the admin
  table. The table filters the server's list and does not sort it.

The pure helpers of the two pages live in `Browser`. Both pages share the
countdown, the search filter, the row numbers, the CSV export and the home
page offsets. The sort by id is `app.js`'s alone (app.js:253); `public/app.js`
keeps the server's order, which `Client.ServerOrderNeedsNoSort` proves is
already the sorted one. `Records` holds the record type and the list operations both
stores use (first index of an id, flip the paid flag, remove by id) and the
statistics. `Text` models the JavaScript string functions the code relies on:
ASCII `toLowerCase`, `endsWith`, `includes`, `trim` (with ECMAScript's white
space set), `String(n)`, `padStart`, `join`. A one-character `split` is
not used by any script; it is a helper for the lemmas that read the CSV back.

The server's add route rejects a field only when it is missing or
empty. It does not trim, so a name of blanks is accepted when posted directly
(`Server.CheckAdd`, server/index.js:80). Only the page trims before sending.
`Client.BlankFieldRefused` proves that through the page a blank field is then
refused.

## Model

| member | source | states |
|---|---|---|
| Text.Lower | server/index.js:84 | `toLowerCase` on ASCII: same length, each upper-case letter mapped to its lower-case letter and every other character kept |
| Text.LowerHasNoUpper | server/index.js:91 | a lower-cased text holds no ASCII upper-case letter |
| Text.LowerIdempotent | server/index.js:91 | lower-casing a lower-cased text changes nothing |
| Text.ContainsIffOccurs | public/app.js:254-256 | `includes` holds exactly when the query occurs at some index of the text |
| Text.ContainsEmpty | app.js:244 | the empty query is included in every text |
| Text.TrimIsCore | public/app.js:144-146 | `trim` returns a slice of the input with only white space around it and no white space at either of its ends |
| Text.TrimEmptyIff | public/app.js:144-146 | `trim` gives the empty text exactly when the input is all white space |
| Text.TrimIdempotent | app.js:148-150 | trimming a trimmed text changes nothing |
| Text.Decimal | public/app.js:32 | `String(n)` is a non-empty run of digits, starting with 0 only for 0 |
| Text.DecimalRoundTrip | public/app.js:32 | the decimal text of n reads back as n |
| Text.DecimalLength | public/app.js:32 | the decimal text has one digit exactly below 10, at most two below 100 |
| Text.PadStart | public/app.js:32-34 | `padStart` output has the target length (or the input's, if longer), ends with the input and is fill in front |
| Text.PaddedDecimalValue | app.js:27-29 | a zero-padded numeral still reads back as its number |
| Text.SplitJoin | public/app.js:363-365 | splitting at c undoes joining with c when no part holds c |
| Text.EndsWith | server/index.js:84 | `endsWith`: the text's last characters are the suffix; the gmail check of `Server.CheckAddOrder` and `LocalApp.StoredEmailRefused` is stated with it |
| Text.Contains | public/app.js:254-256 | `includes`, read recursively; `Text.ContainsIffOccurs` proves it equals "occurs at some index" and `Text.ContainsEmpty` that the empty query is in every text |
| Text.IsSpace | public/app.js:144-146 | the characters `trim` removes: ECMAScript's WhiteSpace and LineTerminator code points |
| Text.Trim | public/app.js:144-146 | `trim`; `Text.TrimIsCore` proves it keeps the slice between all-white-space ends with no white space at its own ends, `Text.TrimEmptyIff` and `Text.TrimIdempotent` the rest |
| Text.Join | public/app.js:364-365 | `join`; `Text.SplitJoin` proves splitting at the separator undoes it when no part holds the separator |
| Records.IndexOfId | server/index.js:126 | the index of the first record with the id, or -1 exactly when no record has it |
| Records.FlipPaidTwice | server/index.js:131 | flipping the paid flag of the same record twice restores the list |
| Records.RemoveId | server/index.js:150 | a record is kept exactly when it was there and has another id; the result is an ordered sub-list |
| Records.RemoveIdCount | server/index.js:150 | deleting drops exactly the records carrying the id and changes nothing when no record carries it |
| Records.SubseqKeeps | server/index.js:150 | an ordered sub-list keeps the members, the descending ids and the distinct emails |
| Records.PrependKeepsInvariants | server/index.js:97-107 | a record with a fresh email and id nextId, put in front, keeps distinct emails, descending ids and the id range (with nextId + 1) |
| Records.FlipKeepsInvariants | server/index.js:131 | flipping a paid flag keeps distinct emails, descending ids and the id range |
| Records.RemoveKeepsInvariants | server/index.js:150 | deleting by id keeps distinct emails, descending ids and the id range |
| Records.DescendingIdsUnique | server/index.js:150 | with strictly descending ids an id occurs at most once, so deleting a stored id removes exactly one record |
| Records.LowerNamesSpec | server/index.js:59 | the set of lower-cased names holds exactly the lower-cased names of the records, is no larger than the list and is non-empty for a non-empty list |
| Records.PaidCount | server/index.js:58 | the paid count is at most the list length, zero exactly when no record is paid, and the full length exactly when every record is |
| Records.ComputeStats | server/index.js:57-68 | total = length; paid = the paid count; paid + unpaid = total; payouts are 4000 per paid and per unpaid account; contributors = distinct lower-cased names, at most total and at least 1 when the list is non-empty |
| Records.FlipMovesOneAccount | server/index.js:131 | a toggle moves exactly one account between paid and unpaid |
| Records.HasEmail | server/index.js:91 | the duplicate test: some stored email equals the given one after lower-casing; `Server.StoredEmailRejectedInAnyCase` proves every case variant of a stored email hits it |
| Records.FlipPaid | server/index.js:131 | flips `paid` of the record at k; `Records.FlipPaidTwice` proves flipping twice restores the list, `Records.FlipMovesOneAccount` that the paid count moves by one and `Records.FlipKeepsInvariants` that the invariants hold |
| Records.LowerNames | server/index.js:59 | the set of lower-cased names; `Records.LowerNamesSpec` proves it holds exactly those names and is no larger than the list |
| Server.AddError.Message | server/index.js:81-93 | the three refusal texts; `Client.MissingFieldToToast`, `Client.NotGmailToEmailField` and `Client.DuplicateToEmailField` prove where the page shows each |
| Server.CheckAdd | server/index.js:80-94 | the add route's checks; `Server.CheckAddOrder` proves each outcome as an if-and-only-if in the route's order |
| Server.CheckAddOrder | server/index.js:80-94 | each add refusal, as an if-and-only-if: any empty field first, then a non-gmail address, then a duplicate; admitted exactly when all three checks pass |
| Server.StoredEmailRejectedInAnyCase | server/index.js:84-94 | once an email is stored, every spelling differing only in ASCII case is refused as a duplicate |
| Server.AddKeepsInvariant | server/index.js:88-107 | an admitted add keeps the store invariant with the counter moved on |
| Server.ToggleKeepsInvariant | server/index.js:126-131 | a toggle keeps the store invariant |
| Server.DeleteKeepsInvariant | server/index.js:150 | a delete keeps the store invariant |
| Server.Store.constructor | server/index.js:9 | the store starts empty with the counter at 1, satisfying the invariant |
| Server.Store.Add | server/index.js:77-114 | a refused add reports the first failing check and changes nothing; an admitted one puts the record (id = old counter, unpaid, fields as given) in front, moves the counter on and answers the new id; the invariant holds |
| Server.Store.TogglePaid | server/index.js:123-137 | an unknown id (or NaN) answers not-found and changes nothing; a known id flips only that record's flag and answers its new value; counter unchanged, invariant kept |
| Server.Store.Delete | server/index.js:147-153 | always succeeds; the list loses exactly the records of that id, in order; counter unchanged, invariant kept |
| Server.Store.Clear | server/index.js:162-163 | the list becomes empty and the counter 1 |
| Server.Store.List | server/index.js:44-47 | answers the stored list as it is; `Server.Store.Add` and the other routes state what that list becomes |
| Server.Store.Stats | server/index.js:54-68 | answers `Records.ComputeStats` of the stored list, whose contract states every field |
| Browser.Countdown | public/app.js:21-30 | zero once the deadline is reached; otherwise minutes and seconds below 60 and the clock's milliseconds at most diff and within one second of it |
| Browser.CountdownUnique | public/app.js:28-30 | the countdown's split is the only clock with those bounds |
| Browser.TwoDigitsReadsBack | public/app.js:32-34 | a padded part has at least two digits (exactly two below 100) and reads back as the part |
| Browser.ShowClockReadsBack | app.js:16-29 | the three texts are "00" after the deadline; otherwise hours have at least two digits, minutes and seconds exactly two, each reading back as its part |
| Browser.TimeLeftAroundDeadline | public/app.js:9-25 | from the last second before the deadline on, the countdown shows 00:00:00; one second before it, 00:00:01 |
| Browser.TwoDigits | public/app.js:32-34 | `String(n).padStart(2, '0')`; `Browser.TwoDigitsReadsBack` proves it has at least two digits, exactly two below 100, and reads back as n |
| Browser.ShowClock | public/app.js:21-34 | the three texts the countdown writes; `Browser.ShowClockReadsBack` proves each reads back as its part of `Browser.Countdown` |
| Browser.TimeLeft | public/app.js:17-19 | the countdown at the instant now, against the deadline 2026-01-31 12:00 UTC+7; `Browser.TimeLeftAroundDeadline` proves what it shows around the deadline |
| Browser.Matches | app.js:245-249 | the search predicate: the lower-cased name, email or wallet includes the query; `Browser.Keep` proves the filter keeps every matching occurrence and nothing else |
| Browser.Keep | app.js:245-249 | the filter keeps, in order, every occurrence of a record whose lower-cased name, email or wallet includes the query, each as often as in the input, and nothing else |
| Browser.SearchFilter | public/app.js:251-258 | an empty query keeps the list; any other keeps, in order, every occurrence of a record matching the lower-cased query, each as often as in the input, and nothing else |
| Browser.EmptyQueryKeepsAll | app.js:243-250 | filtering with the empty query would also keep every record, so the guard does not change the table |
| Browser.SortNewestFirst | app.js:253 | the sort's output has non-increasing ids and is a permutation of its input |
| Browser.SortKeepsNewestFirst | app.js:253 | a list already newest first comes out of the sort unchanged |
| Browser.RenderOrderSpec | app.js:243-253 | the table is newest first; it holds every record for an empty query and exactly the matching records otherwise, each as often as stored |
| Browser.RenderOrder | app.js:243-253 | app.js's table order, filter then sort; `Browser.RenderOrderSpec` proves it newest first and exactly the matching records, each as often as stored |
| Browser.RowLabelsRange | public/app.js:274-276 | n rows are labelled n down to 1, strictly decreasing, each number of 1..n once |
| Browser.RowLabels | public/app.js:274-276 | the number column `n - i`; `Browser.RowLabelsRange` proves it runs from n down to 1, each number once |
| Browser.LineReadsBack | public/app.js:363-365 | a quoted, comma-joined line of cells free of quotes and newlines reads back as those cells |
| Browser.RowReadsBack | public/app.js:354-361 | a record's line reads back as number, name, email, wallet, status, date; it holds no newline; its number is i + 1 |
| Browser.CsvReadsBack | app.js:316-335 | a non-empty list exports; split at newlines it gives the six-column header and then one line per record in stored order, numbered from 1, with `Lunas`/`Belum Bayar` |
| Browser.StatusText | public/app.js:359 | `Lunas` when paid, `Belum Bayar` otherwise; `Browser.RowReadsBack` proves the status cell reads back |
| Browser.Row | public/app.js:354-361 | a record's six cells: number i + 1, name, email, wallet, status, date; `Browser.RowReadsBack` proves the line reads back as them |
| Browser.Quote | public/app.js:364 | wraps a cell in double quotes with no escaping; `Browser.LineReadsBack` proves quoted lines read back when no cell holds a quote or newline |
| Browser.Line | public/app.js:364 | quotes the cells and joins them with commas; `Browser.LineReadsBack` proves it reads back as the cells |
| Browser.CsvLines | public/app.js:363-364 | the header line, then one line per record in stored order; `Browser.CsvReadsBack` proves each reads back |
| Browser.ExportCsv | public/app.js:345-365 | nothing for an empty list, otherwise the lines joined by newlines; `Browser.CsvReadsBack` proves a non-empty list exports and splits back into header and rows |
| Browser.HomeFiguresBounds | public/app.js:111-123 | the home page shows the record count + 1500 and the distinct lower-cased name count + 50; the contributor figure is at least its offset, above it once anything is stored, and exceeds it by no more than the account figure exceeds its own |
| Browser.HomeFiguresOf | public/app.js:119-124 | the home counters: accounts + 1500 and contributors + 50; `Browser.HomeFiguresBounds` proves them equal to the record count and distinct-name count plus those offsets, with the bounds that follow |
| LocalApp.FormError.Message | app.js:154-161 | the two texts the form shows under the email field |
| LocalApp.CheckForm | app.js:152-163 | the form's checks, gmail first, then duplicates; `LocalApp.StoredEmailRefused` and `LocalApp.SecondSubmitRefused` prove a stored email never passes |
| LocalApp.AppendKeepsEmailsDistinct | app.js:157-177 | appending a record whose email passed the duplicate check keeps emails distinct |
| LocalApp.LocalStore.constructor | app.js:35-37 | nothing stored reads as the empty list |
| LocalApp.LocalStore.AddSubmission | app.js:44-51 | the record gets the clock's id and time stamp and is unpaid; it is appended at the end and earlier records are unchanged |
| LocalApp.LocalStore.TogglePaymentStatus | app.js:54-63 | no record with the id: answers None and stores nothing; otherwise flips the first such record only and answers it as it now is |
| LocalApp.LocalStore.DeleteSubmission | app.js:65-69 | the list loses exactly the records of that id, in order |
| LocalApp.LocalStore.ClearAllSubmissions | app.js:71-73 | the list reads as empty afterwards |
| LocalApp.LocalStore.GetSubmissions | app.js:35-37 | answers the stored list as it is; the store's methods state what that list becomes |
| LocalApp.LocalStore.GetStats | app.js:78-92 | answers `Records.ComputeStats` of the stored list, whose contract states every field |
| LocalApp.LocalStore.Submit | app.js:144-177 | the three inputs are trimmed; a non-gmail email (checked first) or a stored email in any case is refused with nothing stored; otherwise the trimmed record is appended |
| LocalApp.StoredEmailRefused | app.js:152-163 | a stored email, in any ASCII case, never passes the form, and a gmail one is refused as a duplicate |
| LocalApp.SecondSubmitRefused | app.js:157-163 | submitting the same email again after it was saved is refused as a duplicate |
| Client.FormRequest | public/app.js:144-146 | the request the form posts, each field trimmed; `Client.FormRequestStable` proves resending it is the same request |
| Client.RouteError | public/app.js:154-161 | an error including `gmail` or `Email` goes under the email field, any other to a toast; `Client.MissingFieldToToast`, `Client.NotGmailToEmailField` and `Client.DuplicateToEmailField` prove where each server text goes |
| Client.Verdict | public/app.js:152 | the server's add checks applied to the posted request; `Client.BlankFieldRefused` proves a blank field is refused as missing |
| Client.MissingFieldToToast | public/app.js:154-161 | the server's missing-field text includes neither `gmail` nor `Email`, so it is shown as a toast |
| Client.NotGmailToEmailField | public/app.js:155-156 | the server's non-gmail text includes `gmail`, so it is shown under the email field |
| Client.DuplicateToEmailField | public/app.js:157-158 | the server's duplicate text includes `Email`, so it is shown under the email field |
| Client.BlankFieldRefused | public/app.js:144-152 | through the page, the server reports a missing field exactly when some input is empty or white space only |
| Client.BlankFieldToast | public/app.js:154-161 | that refusal is shown in a toast |
| Client.FormRequestStable | public/app.js:144-146 | sending an already trimmed request sends the same request |
| Client.ServerOrderNeedsNoSort | public/app.js:250-258 | on a list the server keeps, the filtered rows have strictly descending ids and equal what the sorting variant shows |
| Client.LabelsFollowIds | public/app.js:274-276 | on a list the server keeps, of two rows the one with the larger label holds the larger id |
| Client.TableRows | public/app.js:250-258 | the server's list through the search filter, not sorted; `Client.ServerOrderNeedsNoSort` proves it newest first on a list the server keeps |

## Left out

- Express plumbing (CORS, JSON body parsing, static files, the catch-all page route, `listen` and its banner). Routes are methods and HTTP statuses are the `Reply` datatype.
- The admin login route. It compares against a password from the environment and returns a token built from the clock.
- `parseInt` of the route parameter. The id arrives as `Option<int>`, and `None` stands for NaN, which matches no record.
- The success and confirmation texts the routes send (`message`), which the pages only display.
- The 500 paths. They need a request body whose fields are not strings, which the typed parameters exclude. A field missing from the body is modelled as the empty string, which takes the same branch.
- Persistence: browser storage and JSON encoding in the browser-only variant. The stored list is the `submissions` field. There is no remote sync in the code.
- The fetch wrappers of the server-backed page. They only forward to the routes that `Server.Store` models.
- DOM, toasts, error labels, HTML templates and `escapeHtml`, confirmation dialogs, downloads and timers.
- Clocks and locale formatting. `now`/`stamp` (add), `now` (countdown) and `formatDate` (the CSV date column) are parameters. `formatRupiah` is not modelled.
- Unicode case folding and Unicode `toLowerCase`. `Text.Lower` folds ASCII letters only.
- `ORDER_CLOSED` (public/app.js:12). It is declared but never read in the script.
- Browser.SortNewestFirst: the contract states order and permutation but not stability. The definition is a stable insertion sort, as JavaScript's `sort` is.
- Browser.CsvReadsBack: stated only for names, emails, wallets and dates without a double quote or a newline. The export does not escape cells, so other values do not read back.
- LocalApp.LocalStore.Submit: it keeps distinct emails only if they were distinct before. `addSubmission` itself checks nothing, and ids from the clock are not proved distinct.
