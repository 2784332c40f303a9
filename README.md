# Order and delivery-note dashboard: a verified model of its page logic

The dashboard is a browser page over two spreadsheet-backed script
endpoints, one for orders and one for delivery notes. Almost all of
`script.js` is DOM glue. This project models the sequential logic inside it:

- **Document numbers** (`generateDocNumber`). The prefix is `620` for an
  order and `671` for any other type. The page takes the last loaded document
  of that type in list order, removes the prefix, parses the rest as
  `parseInt` does (hexadecimal after `0x`, otherwise the leading decimal
  digits), adds one, and zero-pads the result to at least four digits
  (module `DocNumbers`, file `docnumbers.dfy`).
- **Customers** (`updateCustomerDataList`). Each distinct non-empty customer
  name is kept once, in order of first appearance. Its address and phone come
  from the first document that carries the name. The list is rebuilt from
  `allDocuments` every time (module `CustomerList`).
- **The remote call** (`fetchData`). A transport exception, a non-OK reply
  and a reply body each become a `{success, message, data}` value. A body
  that reports the service's rate limit is retried after 1, 2, 4, 8 and
  16 seconds, and after five retries the call gives up with
  "Service too busy" (module `Gateway`).
- **The merge** (`fetchDocuments`). The orders reply's rows are tagged as
  orders and come first, then the delivery-notes reply's rows tagged as
  delivery notes. A reply that failed or whose data is not an array adds
  nothing. Each table row is also classified (module `Merge`).
- **The page state and conversion** (class `Dashboard.Page`). This covers
  reloading, rebuilding customers, the customer step of the submit form, and
  the two-step order-to-delivery-note conversion. The conversion creates the
  note first and updates the order's status only if that succeeds.

The sheet's Hebrew keys map to named fields of `Records.Document`: document
number, type, date, customer name, address, customer phone and status. The
Hebrew type and status values are kept as the constants `OrderType`,
`DeliveryNoteType` and `Completed`. A key missing from a record is the
empty string, which is what the code's truthiness tests treat it as.

The transport is a parameter `net: nat -> Response`, where `net(k)` is the
outcome of the request made with retry counter `k`. Backoff delays are
returned as values, not slept.

Where a description of the system and the code differ, the model follows the
code:
- The code numbers a new document from the *last* document of its type, not
  from the highest number (`DocNumbers.LastNotLargest` shows the difference).
- Customers are keyed by name and take the *first* document's address and
  phone. They are not keyed by phone, and no document count is kept.
- There is no table filtering or sorting in this code.

## Model

| member | source | states |
|---|---|---|
| `Text.ReplaceFirst` | script.js:220 | `replace` removes the first occurrence: at the first index where the pattern occurs, the string without that occurrence (the rest of the string when it starts with the pattern); the string unchanged when the pattern does not occur; never longer than the input |
| `Text.ContainsIffOccurs` | script.js:58 | `includes` holds exactly when the text occurs in the message at some index |
| `Text.ParseInt` | script.js:220 | `parseInt` without a radix: after `0x` or `0X` the value of the hexadecimal digits that follow, otherwise the decimal value of the leading digits; NaN exactly when no digit starts the number |
| `Text.ParseIntOfDigits` | script.js:220 | a non-empty decimal digit string, leading zeros included, parses to its value and is never read as hexadecimal |
| `Text.PadStart` | script.js:222 | `padStart`: the input is the tail of the result, the rest is fill characters, the length is the larger of the input and the width, so nothing is cut |
| `Text.ValueOfNatToString` | script.js:222 | `String(n)` read back as a decimal gives `n` |
| `DocNumbers.Prefix` | script.js:218 | `620` exactly for the order type, `671` for every other type |
| `DocNumbers.OfType` | script.js:219 | every document the filter keeps has the requested type, and it never keeps more than the list holds |
| `DocNumbers.OfTypeMembers` | script.js:219 | the filter keeps exactly the documents of the list that have the requested type |
| `DocNumbers.OfTypeAppend` | script.js:219 | filtering a concatenation is the concatenation of the filtered parts, so kept documents stay in list order |
| `DocNumbers.LastOfType` | script.js:219 | `pop` gives nothing exactly when no document has the type, and otherwise the document at the last index holding that type |
| `DocNumbers.LastNumber` | script.js:219-220 | `lastNum` is 0 when no document has the type, and otherwise the parsed number of the last such document with the prefix removed |
| `DocNumbers.GenerateDocNumber` | script.js:215-223 | the result is the type's prefix, then as many zeros as bring the decimal form of `lastNum + 1` to four digits, then that decimal form whole, never truncated |
| `DocNumbers.DocNumberPadded` | script.js:222 | the part after the prefix is as long as the larger of four and the decimal form of `lastNum + 1`, ends with that whole decimal form, and is zeros before it |
| `DocNumbers.DocNumberDigits` | script.js:215-223 | the result has at least seven characters, starts with the prefix, and the rest is all digits with value `lastNum + 1` |
| `DocNumbers.FirstNumberOfType` | script.js:218-222 | with no document of the type, the result is the prefix followed by `0001` |
| `DocNumbers.NumberFollowsLastOfType` | script.js:219-220 | only the last document of the type in list order decides `lastNum`, and with it the number; earlier documents and later documents of other types do not matter |
| `DocNumbers.LastNotLargest` | script.js:219-222 | after orders 6200007 and then 6200003, the next order number is 6200004, not 6200008 |
| `DocNumbers.HexLastNumber` | script.js:219-222 | a remainder starting `0x` is read as hexadecimal: after order 6200x1A the next order number is 6200027 |
| `DocNumbers.NumberParsesBack` | script.js:220-222 | removing the prefix from a generated number and parsing it gives `lastNum + 1` |
| `DocNumbers.NextNumberIsOneHigher` | script.js:219-222 | once a document is saved under the generated number, the next generated number of that type is one higher |
| `CustomerList.FindByName` | script.js:120 | `find` stops at the first document carrying the name, or reports that none does |
| `CustomerList.CustomerNames` | script.js:104-109 | a name is in the set exactly when it is non-empty and some document carries it |
| `CustomerList.Customers` | script.js:119-126 | one entry per collected name, in the set's order; each entry's name, address and phone are those of the first document with that name |
| `CustomerList.DeriveCustomers` | script.js:103-127 | the forEach-then-find computation yields exactly `Customers` of the document list |
| `CustomerList.CustomerNamesDistinct` | script.js:104-109 | no customer name appears twice |
| `CustomerList.CustomerNamesInFirstAppearanceOrder` | script.js:105-119 | customers are ordered by where their name first appears among the documents |
| `CustomerList.EachNamedDocumentHasOneCustomer` | script.js:105-126 | a document with a non-empty name has exactly one customer entry with that name; an empty name has none |
| `CustomerList.CustomersKeepFirstDocument` | script.js:119-126 | documents appended later never change existing entries: the first document with a name wins |
| `Gateway.Decide` | script.js:53-72 | a response leads to a retry exactly when it is an OK reply with the rate-limit message and the counter is below 5, and the retry waits `2^retries * 1000` ms |
| `Gateway.Fetch` | script.js:45-79 | a call makes at least one request and at most `6 - retries`, exactly one once the counter is past the cap, with one delay between each two requests |
| `Gateway.FetchData` | script.js:45-79 | the loop returns the same result, request count and delays as the recursive retry |
| `Gateway.RetriedWhileRateLimited` | script.js:58-63 | rate-limited replies to the requests with counters `retries` up to `end - 1`, below the cap, are each retried once, and the result is that of the call from counter `end` |
| `Gateway.RetriedOnlyWhenRateLimited` | script.js:58-63 | every request of a call except the last was answered with the rate-limit error |
| `Gateway.DelaysDouble` | script.js:59-62 | the delays waited are the backoff delays `2^k * 1000` ms for the counters `k` of the retried requests, in order |
| `Gateway.GivesUpWhenAlwaysRateLimited` | script.js:58-67 | a call that always gets the rate-limit reply makes 6 requests, waits 1000, 2000, 4000, 8000 and 16000 ms, and returns failure "Service too busy" |
| `Gateway.RetriesMinOfRateLimitedAndCap` | script.js:58-67 | with the first `n` replies rate-limited, a call from counter 0 retries `min(n, 5)` times with the doubling delays |
| `Gateway.NoRetryOtherwise` | script.js:53-75 | an exception becomes failure with its message; a non-OK reply becomes failure with the body's message or the HTTP-status fallback; any other body is returned unchanged; none of these is retried |
| `Gateway.LastRequestDecides` | script.js:50-75 | the call's result is the one decided by its last request |
| `Gateway.SuccessComesFromReply` | script.js:68-72 | a successful result is always the unchanged body of an OK reply |
| `Merge.Tagged` | script.js:92 | each row keeps every field except the type, which the tag overwrites |
| `Merge.Accepted` | script.js:91-95 | a reply contributes its rows only when it succeeded and its data is an array, and nothing otherwise |
| `Merge.Merged` | script.js:90-96 | the merged list is the tagged orders followed by the tagged delivery notes; its length is the sum; a failed or non-array reply contributes nothing |
| `Merge.StyleOf` | script.js:146-153 | a row gets the convert action exactly when it is an order whose status is not completed, and the delivered style exactly when it is a delivery note |
| `Merge.ConversionOfferedOnOpenOrders` | script.js:146-153 | in a merged list, the convert action is offered exactly on rows from the orders reply that are not completed, and every delivery-note row is shown as delivered |
| `Dashboard.FindByNumber` | script.js:263 | the order is the first loaded document, of either type, with that number |
| `Dashboard.Converting` | script.js:262-305 | an unknown number makes no call; otherwise the note is created first, numbered as the next delivery note (prefix `671`) and copying date, name, address and phone, with status completed and a link to the order; the status update is issued only after a successful creation; the outcome reports which step failed |
| `Dashboard.Page.constructor` | script.js:8-9 | both lists start empty, and `customers` is then the list derived from `allDocuments` |
| `Dashboard.Page.FetchDocuments` | script.js:82-101 | `allDocuments` becomes the merge of the two calls' results, and `customers` is rebuilt from it, so the page invariant holds again |
| `Dashboard.Page.UpdateCustomerDataList` | script.js:103-127 | `customers` becomes the list derived from `allDocuments`, whatever it held before, so recomputing is idempotent |
| `Dashboard.Page.RegisterCustomer` | script.js:237-244 | a known name leaves `customers` unchanged; for a new name the pushed entry is replaced by the list rebuilt from `allDocuments`; so from any state where `customers` is derived from `allDocuments`, the list ends exactly as it was |
| `Dashboard.Page.ConvertToDeliveryNote` | script.js:262-305 | the outcome and the calls issued are those of `Converting` for the success of the two `fetchData` calls |

## Left out

- DOM and UI code is not modelled: alerts, modals, the loader overlay, the
  customer datalist, the table HTML, the scroll button, the event wiring and
  `autofillCustomerData`. None of it decides a value the model depends on.
- `fetch`, `response.json()` and `URLSearchParams` are replaced by the
  abstract `Response`. The endpoints, action names and request parameters do
  not affect the outcome in the model. A body that cannot be parsed counts
  as the `Thrown` case.
- `setTimeout` is not modelled. Delays are returned as numbers.
- JavaScript truthiness is narrowed. A missing name or message is the empty
  string, and `success` is a boolean. A non-string message or a non-object
  body is not modelled.
- `DocNumbers.GenerateDocNumber` requires that the last number of the type,
  once the prefix is removed, parses to a number. A `NaN` result is not
  modelled, and neither are leading white space, a sign or a document number
  that is not a string. The model computes with unbounded integers. JavaScript
  numbers lose exactness above 2^53 and `String` switches to exponent form from
  10^21, so suffixes that large get a different number in the browser.
- The date the form pre-fills (`new Date().toISOString()`) is not modelled.
- Overlapping calls and interleaved reloads are not modelled. The
  `fetchDocuments()` refresh that conversion and the submit handler start
  without awaiting is likewise left out. `Converted` is the outcome that
  triggers it.
- `Dashboard.Page.ConvertToDeliveryNote` does not model the loader or the
  alerts it shows. Its `Conversion` outcome names which alert is shown.
- From the submit handler (script.js:225-260), only the customer step is
  modelled. Collecting the form fields, the default status and the refresh
  are form glue. The save itself is one `fetchData` call, as modelled in
  `Gateway`.
