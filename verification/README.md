# Atomic Loops dashboard — a Dafny model of its record managers and tables

This project models the decision logic of the Atomic Loops admin dashboard, a
React front end over a REST mock (a `json-server` database of users and
products). It covers:

- the product manager: loading the product list, de-duplicated by `id` and
  ordered newest first; the product form's validation; the sale entries
  drafted inside the form and the stock rule that guards them; resolving a
  sale's user name; the lookup-then-write save and delete handlers;
- the user manager: loading the user list; the user form's validation,
  including the email pattern and the case-insensitive email uniqueness
  that applies only when a user is created; save and delete;
- the sales table: the date filter and its options, the ordering, the
  pagination, the tri-state header checkbox and the row selection, and
  the resets that happen when the filter, the page size or the rows
  change;
- the pages table's selection;
- `formatDuration`;
- the `createdAt` backfill script.

The network is not modelled. Each request is represented by the reply it
received (`Crud.Reply`), so every handler becomes a pure function from replies
to the requests it sends and the outcome the user sees (`Crud.Effects`). The
JavaScript runtime's date parsing, `String(id)` and `toISOString` are passed
in as functions (`ProductManager.Host`, `AddCreatedAt.Clock`).

Shared ideas are defined once, each with its own reference meaning:

- `Dedup` — the `Array.from(new Map(list.map(x => [x.id, x])).values())`
  idiom. Each key sits where it first occurred and holds the last record
  that carried it (`IsDedupOf`).
- `Sorting` — a stable insertion sort by a (time, text) rank, proved to
  return a sorted permutation.
- `Selection` — the tri-state checkbox and the two toggles.
- `Crud` — the lookup-then-write pattern of both managers.
- `Forms` — the per-field error map.
- `Text` — trimming, ASCII lower-casing, string order and decimal
  rendering.

Modules: `Wrappers`, `Json`, `Seqs`, `Text`, `Dedup`, `Sorting`, `Forms`,
`Crud`, `Selection`, `ProductManager`, `UserManager`, `SalesTable`,
`PagesTable`, `Formatters`, `AddCreatedAt` — one per `.dfy` file.

One behaviour is worth knowing: both tables compare the number of selected
ids with the number of ROWS. So when two rows share an id, "select all"
leaves the header checkbox indeterminate rather than checked
(`Selection.RepeatedIdsLeaveHeaderIndeterminate`).

## Model

| member | source | states |
|---|---|---|
| `Dedup.DedupByKey` | my-app/src/components/ProductManager.js:56 | The Map idiom returns one record per distinct id of the list and no other ids. Each record is the last one in the list with its id, and the records are ordered by where each id first occurs. |
| `Dedup.DedupOfDistinct` | my-app/src/components/UserManager.js:54 | A list whose ids are already distinct comes out of the Map idiom unchanged. |
| `Crud.LoadUnique` | my-app/src/components/UserManager.js:47-55 | A load yields a list exactly when the request succeeded and no element is `null`. The list is then the de-duplication of the reply's array by id; a non-array reply counts as an empty array. |
| `Crud.UpdateBody` | my-app/src/components/ProductManager.js:199-203 | The PUT body holds every payload field, the found record's other fields, and the found record's own id. The body has no id when the found record has none. |
| `Crud.Save` | my-app/src/components/UserManager.js:152-205 | An invalid form sends nothing. A new record is POSTed. An edit is looked up first: a failed lookup writes nothing and reports the lookup status; an empty result POSTs; a found record is PUT under its own id; a `null` first match crashes. Success means the write was sent and succeeded. |
| `Crud.Remove` | my-app/src/components/UserManager.js:208-233 | A delete is looked up first: a failed lookup reports its status; an empty result succeeds without a DELETE; a `null` first match throws before any DELETE; otherwise the first match is DELETEd, and a 404 counts as success. |
| `Sorting.SortDesc` | my-app/src/components/ProductManager.js:57-64 | The sort returns a permutation of its input in which every element ranks at or above each later one. |
| `Text.Trim` | my-app/src/components/UserManager.js:106 | `trim()` is the slice of the input left after removing the leading and trailing whitespace. It is empty exactly when the input is all whitespace, and otherwise starts and ends with a non-space. |
| `Text.ToLower` | my-app/src/components/UserManager.js:131 | Lower-casing keeps the length and maps every character through the ASCII lower-case map. |
| `Text.DecimalRoundTrip` | my-app/src/components/dashboard/formatters.js:7 | Reading back the decimal text of a whole number gives the number. |
| `ProductManager.Refresh` | my-app/src/components/ProductManager.js:46-73 | A failed request or a `null` element empties the list and flags the failure. Otherwise the list is a permutation of the de-duplicated reply, ordered by `createdAt` time (newest first, a missing time counting as 0), with ties ordered by id text, descending. |
| `ProductManager.RefreshOnePerId` | my-app/src/components/ProductManager.js:55-56 | After a successful refresh each id is shown once, every fetched id is shown, and each shown product is the last fetched record with its id. |
| `ProductManager.NameMessage` | my-app/src/components/ProductManager.js:127-139 | The name passes exactly when, trimmed, it has 2 to 100 characters, all letters, digits, whitespace, `-` or `'`. It is "required" exactly when it is blank. |
| `ProductManager.PriceMessage` | my-app/src/components/ProductManager.js:140-145 | The price passes exactly when it is given, positive and at most 999999. It is "required" exactly when it is missing. |
| `ProductManager.DescriptionMessage` | my-app/src/components/ProductManager.js:151-157 | The description passes exactly when, trimmed, it has 10 to 500 characters. It is "required" exactly when it is blank. |
| `ProductManager.QuantityMessage` | my-app/src/components/ProductManager.js:164-170 | The quantity passes exactly when it is given, non-negative and whole. It is "required" exactly when it is missing. |
| `ProductManager.Validate` | my-app/src/components/ProductManager.js:123-174 | Every field is checked, not just the first failing one. A field has an entry in the error map exactly when its rule fails. Only the five form fields can appear. Each entry holds exactly the message that field's own check gives, so for example a 5-character description reads "too short". |
| `ProductManager.ValidateAcceptsExactlyValidForms` | my-app/src/components/ProductManager.js:172-173 | `validate()` returns true exactly when all five field rules hold. |
| `ProductManager.TotalSoldAppend` | my-app/src/components/ProductManager.js:316 | The total sold of two runs of entries is the sum of their totals. |
| `ProductManager.TotalSoldSubseq` | my-app/src/components/ProductManager.js:316 | When no entry is negative, dropping entries never raises the total sold. |
| `ProductManager.RemainingStock` | my-app/src/components/ProductManager.js:317 | The remaining stock is never negative. It is the stock minus the total sold when that is positive, and 0 otherwise. |
| `ProductManager.AddSale` | my-app/src/components/ProductManager.js:282-307 | A quantity above the remaining stock raises the stock notice with the remaining amount and changes nothing else. Otherwise an incomplete draft raises the "fix fields" notice. Otherwise exactly one entry is appended and the draft is reset. |
| `ProductManager.AddSaleRespectsStock` | my-app/src/components/ProductManager.js:287-292 | When a sale is accepted, the new total sold does not exceed the form's stock, and the stock is unchanged. |
| `ProductManager.AddSaleKeepsStockInvariant` | my-app/src/components/ProductManager.js:282-305 | If the total sold is within the stock before a sale is added, it is within the stock afterwards. |
| `ProductManager.RemoveSale` | my-app/src/components/ProductManager.js:309-313 | Removing a sale keeps, in order, exactly the entries with a different id, each as many times as it occurred, and changes nothing else in the dialog. |
| `ProductManager.RemoveSaleKeepsStockInvariant` | my-app/src/components/ProductManager.js:309-317 | Removing entries keeps the total sold within the stock, when no entry is negative. |
| `ProductManager.NumericUserScenario` | my-app/src/components/ProductManager.js:277-280 | With a user whose id is the number 1, picking that user resolves to the user's name, the text "1" does not match it, and the stored sale keeps the number as its `userId`. |
| `ProductManager.StockScenario` | my-app/src/components/ProductManager.js:288-292 | With a stock of 10 and 4 sold, a sale of 7 is refused with 6 remaining, and a sale of 6 is accepted and leaves 0. |
| `ProductManager.FindUser` | my-app/src/components/ProductManager.js:278 | `find` returns the first loaded user whose id strictly equals the picked id, which may be a number or a string, or nothing when no user has that id. |
| `ProductManager.ResolveUserName` | my-app/src/components/ProductManager.js:277-280 | With no user of that id, the result is the id itself. Otherwise it is the `name` of the first user with that id. |
| `ProductManager.LoadSaleUsers` | my-app/src/components/ProductManager.js:78-81 | The users offered for sales are replaced only by a successful reply holding an array. Otherwise they are kept. |
| `ProductManager.SaleRecord` | my-app/src/components/ProductManager.js:296-301 | A stored sale has the keys `id`, `userId` and `date` with the entry's values, plus `quantity` when the entry has one; a missing quantity leaves no key, as `JSON.stringify` drops `undefined`. |
| `ProductManager.Payload` | my-app/src/components/ProductManager.js:182-189 | The payload has exactly the six form fields. The name, description and category are copied, and a valid form's price and quantity are sent as numbers. Sale `i` is sent as the record of entry `i`. |
| `ProductManager.CreateBody` | my-app/src/components/ProductManager.js:209-212 | A created product is the payload plus `createdAt` set to the current ISO time. |
| `ProductManager.HandleSave` | my-app/src/components/ProductManager.js:177-247 | Nothing is sent unless the form validates. A valid form follows the shared save pattern, creating with `createdAt` and updating with the plain payload. |
| `ProductManager.EditDecisions` | my-app/src/components/ProductManager.js:191-217 | A valid edit looks up its id. A failed lookup writes nothing. An empty result POSTs the new product. A found product is PUT with its own id and the merged fields. A success implies a successful write. |
| `ProductManager.HandleDelete` | my-app/src/components/ProductManager.js:250-275 | The lookup asks for the clicked id. A failed lookup reports its status and writes nothing. A non-null first match is sent a DELETE to its own id, and a `null` one throws before any DELETE. The delete succeeds exactly when the lookup succeeds and either finds nothing or finds a record whose DELETE succeeded or returned 404. |
| `UserManager.Refresh` | my-app/src/components/UserManager.js:44-63 | A failed request or a `null` element empties the list. Otherwise the list is the de-duplication of the reply by id, in Map order and unsorted. |
| `UserManager.RefreshKeepsDistinctList` | my-app/src/components/UserManager.js:53-55 | A fetched list whose ids are already distinct is shown as fetched. |
| `UserManager.EmailShapeMatchesPattern` | my-app/src/components/UserManager.js:124-125 | The scan accepts exactly the language of `/^[^\s@]+@[^\s@]+\.[^\s@]+$/`. |
| `UserManager.EmailMessage` | my-app/src/components/UserManager.js:121-135 | An email is "required" exactly when it is blank. It is "invalid" exactly when the trimmed text does not match the pattern. It is "taken" exactly when it matches, a user is being created, and a loaded user's email equals it case-insensitively. It never reads "taken" when editing. |
| `UserManager.NameMessage` | my-app/src/components/UserManager.js:106-118 | The name passes exactly when, trimmed, it has 2 to 50 characters, all letters, whitespace, `-` or `'`. It is "required" exactly when it is blank. |
| `UserManager.Validate` | my-app/src/components/UserManager.js:102-149 | Every field is checked. Only the four form fields can appear. A field has an entry exactly when its rule fails: for the email, a pattern mismatch or, on create only, an address already in use. Each entry holds that field's own message, and an empty gender or category reads "required". |
| `UserManager.ValidateAcceptsExactlyValidForms` | my-app/src/components/UserManager.js:147-148 | `validate()` returns true exactly when all four field rules hold. |
| `UserManager.ErrorsFromMessages` | my-app/src/components/UserManager.js:121-145 | With the name, gender and category accepted, the error map is empty or holds only the email's message. |
| `UserManager.DuplicateEmailScenario` | my-app/src/components/UserManager.js:127-134 | With `a@x.com` registered, creating ` A@X.com ` is refused as taken, while an edit with the same email is accepted. |
| `UserManager.Payload` | my-app/src/components/UserManager.js:157 | The body sent is exactly the form's four text fields. |
| `UserManager.HandleSave` | my-app/src/components/UserManager.js:152-205 | Nothing is sent unless the form validates. A valid form follows the shared save pattern with the form as both the create and the update body. |
| `UserManager.EditOverwritesFoundRecord` | my-app/src/components/UserManager.js:164-174 | An edit that finds a record PUTs to that record's id a body with that id, the form's email, and every other field of the found record. |
| `UserManager.HandleDelete` | my-app/src/components/UserManager.js:208-233 | The lookup asks for the clicked id. A failed lookup reports its status and writes nothing. A non-null first match is sent a DELETE to its own id, and a `null` one throws before any DELETE. The delete succeeds exactly when the lookup succeeds and either finds nothing or finds a record whose DELETE succeeded or returned 404. |
| `Selection.NeverBothChecked` | my-app/src/components/dashboard/SalesTable.js:49-52 | The header box is never both checked and indeterminate, and with nothing selected it is neither. |
| `Selection.ToggleAll` | my-app/src/components/dashboard/SalesTable.js:54-57 | The header toggle clears the selection when the box is checked or indeterminate. Otherwise it selects exactly the ids of the rows. |
| `Selection.ToggleRow` | my-app/src/components/dashboard/SalesTable.js:59-66 | A row toggle flips that id's membership and leaves every other id as it was. |
| `Selection.ToggleRowInvolution` | my-app/src/components/dashboard/PagesTable.js:39-46 | Toggling the same row twice restores the selection. |
| `Selection.TogglesStayWithinRows` | my-app/src/components/dashboard/SalesTable.js:54-66 | Both toggles keep the selection within the ids of the rows, the row toggle when used on a shown row. |
| `Selection.ToggleAllClearsAnySelection` | my-app/src/components/dashboard/PagesTable.js:31-37 | While the selection holds only shown ids, the header toggle empties any non-empty selection and selects all rows from an empty one. |
| `Selection.ToggleAllTwice` | my-app/src/components/dashboard/PagesTable.js:26-37 | With distinct ids, one header toggle checks the box and a second empties the selection. |
| `Selection.RepeatedIdsLeaveHeaderIndeterminate` | my-app/src/components/dashboard/PagesTable.js:26-35 | When two rows share an id, selecting all leaves the header box indeterminate. |
| `SalesTable.UniqueDates` | my-app/src/components/dashboard/SalesTable.js:31-34 | The filter options are the rows' dates, each once, none missing, in strictly descending order. |
| `SalesTable.SortedAllRows` | my-app/src/components/dashboard/SalesTable.js:35-38 | The unfiltered view is a permutation of the rows with dates in descending order. |
| `SalesTable.VisibleRows` | my-app/src/components/dashboard/SalesTable.js:39-42 | With "all", the view is the sorted list of all rows (a permutation of the rows, dates descending). Otherwise it is exactly the rows of the chosen date, in their original order, each as many times as it occurs in the data. |
| `SalesTable.FilterShowsOfferedDates` | my-app/src/components/dashboard/SalesTable.js:95-98 | A date filter shows rows only if the date is one of the offered options. A date that is not offered shows nothing. |
| `SalesTable.Slice` | my-app/src/components/dashboard/SalesTable.js:74 | `slice` returns the contiguous run of the input from the normalised start index up to the normalised end index, and nothing when the end is not after the start. |
| `SalesTable.Paginate` | my-app/src/components/dashboard/SalesTable.js:71-75 | Page size -1 shows every row. Otherwise a page holds at most that many rows, taken in order from `page * size`. It is full when enough rows remain, holds exactly the remaining rows on a partial last page, and is empty past the end. |
| `SalesTable.PageOfRow` | my-app/src/components/dashboard/SalesTable.js:71-75 | Row `i` appears on page `i / n` at position `i % n`. |
| `SalesTable.RowOnOnePage` | my-app/src/components/dashboard/SalesTable.js:73-74 | A row appears on no other page or position. |
| `SalesTable.HeaderOf` | my-app/src/components/dashboard/SalesTable.js:49-52 | The box is checked exactly when there are visible rows and the selection count equals their number. It is indeterminate exactly when the count is above 0 and below that number. It is never both. |
| `SalesTable.ChangeFilter` | my-app/src/components/dashboard/SalesTable.js:90-93 | Choosing a date clears the selection and sets the filter. The page returns to 0 only when the filter value changed. |
| `SalesTable.ChangePage` | my-app/src/components/dashboard/SalesTable.js:155 | Changing page moves to that page and changes nothing else. |
| `SalesTable.ChangeRowsPerPage` | my-app/src/components/dashboard/SalesTable.js:157-161 | A new page size is taken as parsed, with 10 when parsing fails, and the page returns to 0. The selection and the filter are kept. |
| `SalesTable.ReceiveRows` | my-app/src/components/dashboard/SalesTable.js:27-47 | New rows clear the selection. The page returns to 0 only when the number of rows changed. |
| `SalesTable.ToggleAllRows` | my-app/src/components/dashboard/SalesTable.js:54-57 | While the selection holds only visible ids, the header toggle empties any selection and selects every visible row from none. Nothing else changes. |
| `SalesTable.ToggleOneRow` | my-app/src/components/dashboard/SalesTable.js:59-66 | A row toggle flips one id and changes nothing else. |
| `SalesTable.HeaderToggleKeepsSelectionShown` | my-app/src/components/dashboard/SalesTable.js:54-57 | The header toggle keeps the selection within the visible rows. |
| `SalesTable.RowToggleKeepsSelectionShown` | my-app/src/components/dashboard/SalesTable.js:59-66 | Toggling a row that is on display keeps the selection within the visible rows. |
| `SalesTable.StepKeepsSelectionShown` | my-app/src/components/dashboard/SalesTable.js:54-66 | Every event (toggles from the current page, filter, page, size, new rows) keeps the selection within the visible rows. |
| `SalesTable.InitialSelectionShown` | my-app/src/components/dashboard/SalesTable.js:22-25 | The table starts with nothing selected, all rows visible newest first, and a first page of at most 20 rows. |
| `PagesTable.HandleToggleAll` | my-app/src/components/dashboard/PagesTable.js:31-37 | The header toggle only selects page ids. With the selection within the pages, it empties any selection and selects every page from none. |
| `PagesTable.HandleToggleRow` | my-app/src/components/dashboard/PagesTable.js:39-46 | A row toggle flips that id and no other. |
| `PagesTable.Step` | my-app/src/components/dashboard/PagesTable.js:21-24 | A new pages list resets the selection to empty. The toggles keep the pages shown. |
| `PagesTable.RunKeepsSelectionShown` | my-app/src/components/dashboard/PagesTable.js:19-46 | Over any run of events in which rows are toggled only for shown pages, the selection holds only ids of the pages on display. |
| `Formatters.WholeSeconds` | my-app/src/components/dashboard/formatters.js:4 | Missing or negative inputs count as 0. Otherwise the count is the whole number of seconds at or below the input. |
| `Formatters.FormatDuration` | my-app/src/components/dashboard/formatters.js:3-8 | The text is `<m>m <r>s` for the minutes and the seconds below 60 that add up to the whole seconds. |
| `Formatters.FormatDurationReadsBack` | my-app/src/components/dashboard/formatters.js:3-8 | The text determines the whole number of seconds: reading it back gives that number, so different durations print differently. |
| `Formatters.NonPositiveIsZero` | my-app/src/components/dashboard/formatters.js:4 | Missing inputs and inputs below one second print as `0m 0s`. |
| `AddCreatedAt.BaseTimesAreTheNamedDates` | scripts/addCreatedAt.js:25-26 | The two base times are 2025-08-01T12:00Z and 2025-08-02T12:00Z in epoch milliseconds, one day apart. |
| `AddCreatedAt.KeptCreatedAt` | scripts/addCreatedAt.js:30 | A record keeps a `createdAt` only when it is a string whose ISO form is valid and non-empty; the kept value is that ISO form. |
| `AddCreatedAt.BackfillRecord` | scripts/addCreatedAt.js:29-33 | The result is an object with every field of the record unchanged, plus `createdAt`. |
| `AddCreatedAt.Backfill` | scripts/addCreatedAt.js:28-34 | The list keeps its length and order. Each record keeps its valid `createdAt`, normalised, or gets the base time plus one minute per position. Nothing else changes. |
| `AddCreatedAt.BackfillDb` | scripts/addCreatedAt.js:28-42 | Only `users` and `products` arrays change, from the users' and the products' base times respectively. Every other key, and a collection that is not an array, is left as it was. |
| `AddCreatedAt.BackfillRecordIdempotent` | scripts/addCreatedAt.js:30-32 | For a clock whose ISO texts are already normalised, backfilling a backfilled record changes nothing. |
| `AddCreatedAt.BackfillIdempotent` | scripts/addCreatedAt.js:28-34 | For such a clock, running the script a second time changes nothing. |

## Left out

- Rendering, dialogs, snackbars and loading flags are not modelled. This covers the JSX, the notice texts and the spinner.
- `handleOpen`, `handleClose` and `handleChange` are not modelled as operations. Their effect enters as arguments: the `editing` argument and the form. `handleOpen(id)` sets `editingId`, which decides whether the uniqueness check runs, and fills the form from the stored record (`existing.name || ''` and so on). `handleOpen()` opens an empty create form. `editing` is `None` exactly when `editingId` is `null`: `handleOpen(id)` with a `null` or missing id opens a create as well, so `Some(Null)` does not arise.
- Form typing: the model's text fields are strings. If a stored record holds a truthy non-string in such a field, `existing.name || ''` copies it into the form, and `.trim()` in `validate` throws (ProductManager.js:127, UserManager.js:106). That throw comes before the `try` of `handleSave` and is not modelled.
- The fetch helper is left out: its normalised reply `{ success, status, data }` is an input. Asynchrony, timeouts and the order of reloads after a write are not modelled.
- `Date.now()`, `new Date().toISOString()` and today's date are parameters (`stamp`, `now`, `today`). So are `new Date(x).getTime()` and `String(id)` (`Host`), and `toIso` / `toISOString` in the script (`Clock`).
- ProductManager.Refresh: an invalid `createdAt` gives `NaN` times in JavaScript, and the comparator's behaviour on them is not modelled: `Host.millis` always returns a whole number. The ordering of equal-rank products (the stability of `sort`) is not stated, though the insertion sort used is stable.
- SalesTable.SortedAllRows: the order among rows with the same date (stable in JavaScript) is not stated.
- ProductManager.PriceMessage: JavaScript number coercion (`isNaN`, `Number(text)`) is not modelled. The numeric form fields are numbers or missing (`Option<real>`); text that is not a number is outside the model.
- ProductManager.PriceMessage: the model does not tell a typed price from a stored one. The source's first test is `!price`. A stored numeric price of 0, copied into the form by `existing.price ?? ''`, is falsy and reads "Price is required". A typed "0" is a non-empty string and reads "must be a positive number". The model gives `Some(0.0)` the second message in both cases.
- ProductManager.QuantityMessage: same coercion limit as the price.
- ProductManager.TotalSoldAppend: sale quantities and totals are exact reals, while `reduce` in ProductManager.js:316 adds IEEE doubles. For `s = [0.1]` and `t = [0.2, 0.3]`, the source's fold over `s + t` gives 0.6000000000000001, while the sum of the two totals is 0.6, so this lemma holds only in exact arithmetic. ProductManager.RemainingStock, ProductManager.AddSaleRespectsStock and the other stock lemmas are also proved over exact arithmetic, and rounding is not modelled.
- ProductManager.SaleRecord: only sales with the four fields `id`, `userId`, `quantity` and `date` are modelled. A stored sale with extra keys or with `quantity: null` is sent back unchanged by the source and cannot be represented here.
- ProductManager.Payload: states the price and quantity only for a valid form. For other forms an empty field becomes 0, as `Number('')` does.
- Crud.UpdateBody: spreading a `found[0]` that is a string or an array copies its indexed characters or elements in JavaScript. The model's `OwnFields` of a value that is not an object is empty, so such a body carries no indexed keys.
- Dedup.DedupByKey: ids are compared by value. `new Map(...)` keys by SameValueZero, so two object or array ids with equal contents stay two entries in JavaScript but become one here. Crud.LoadUnique, ProductManager.Refresh and UserManager.Refresh inherit this. Ids that are strings or numbers agree.
- ProductManager.FindUser: `===` compares objects and arrays by identity, while the model compares every id by value. This differs only for ids that are objects or arrays.
- ProductManager.RemoveSale: a sale's `id` and `date` are strings, as in every entry `handleAddSale` creates. Stored entries whose id or date has another type are outside the model.
- ProductManager.ResolveUserName: a `null` entry in the loaded users makes the source's `find` throw; the model skips such an entry.
- ProductManager.NameMessage: lengths are counted in characters, while `trim().length` counts UTF-16 code units. A name holding a character outside the Basic Multilingual Plane can differ at the 2 and 100 limits. For example, `"😀"` reads "too short" here, while the source counts 2 units, passes the length checks and reports the bad characters.
- UserManager.NameMessage: the same difference as the product name, at the 2 and 50 limits.
- ProductManager.DescriptionMessage: lengths are counted in characters, while JavaScript counts UTF-16 code units; they differ only for characters outside the Basic Multilingual Plane.
- Text.ToLower: lower-cases ASCII letters only. `toLowerCase` also maps other alphabets, so two emails that differ only in non-ASCII case compare as different here.
- Text.LexLeTotal: `localeCompare` is modelled as lexicographic order on Unicode code points. That order is neither locale collation nor UTF-16 code-unit order; the last two differ, for example, between U+FF01 and U+1F600. Locale collation is not modelled; it agrees on the `YYYY-MM-DD` dates and plain ids the tables sort.
- AddCreatedAt.BackfillRecord: spreading a record that is a string or an array copies its indexed characters or elements in JavaScript; the model copies no fields from a value that is not an object. `toISOString` throwing for a time out of range is not modelled.
- AddCreatedAt.BackfillDb: the database is a JSON object. The missing-file exit, the file read and write, and the log line are left out.
- Formatters.WholeSeconds: inputs are numbers or missing. `Number(seconds)` of text and `NaN` (which prints `NaNm NaNs`) are not modelled. Very large numbers, which JavaScript prints in exponent form, are not modelled either.
- `formatNumber`, `formatCurrency` and the colour palettes are display-only and left out.
