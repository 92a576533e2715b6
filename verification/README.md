# Price tracker for Ozon and Wildberries: a Dafny model of its core

The price tracker watches products on the Ozon and Wildberries marketplaces. This project models its three pieces of logic and proves properties of each.

1. **The monitoring page** (`tracker.dfy`, module `Tracker`):
   - the tracked-product list and its notification toggle;
   - the three dashboard figures: tracked count, average savings and active notifications;
   - the seed list the page starts from.
2. **The product-link parser** (`parse_product.dfy`, module `ParseProduct`):
   - the service checks the request and picks the marketplace from the link's host;
   - it reads the article number from the link;
   - it reads the name and price from the fetched page, with fallbacks when the fetch fails.
3. **The product store** (`product_store.dfy`, module `ProductStore`). The service routes GET, POST, PUT and DELETE to four operations over the `products` and `price_history` tables. The tables are abstract state:
   - a map from id to row;
   - a sequence of history rows;
   - the next id the database hands out.

Shared pieces:
- `text.dfy` (module `Text`): the parts of Python's `str`, `re` and `int` the services rely on. This includes leftmost regular-expression search, `strip`, `replace(pat, '')`, slicing, and decimal numerals in both directions.
- `seqs.dfy` (module `Seqs`): the SQL orderings used by the listing. This includes a stable sort by a key in descending order, `LIMIT`, `reversed` and `WHERE` filtering.
- `wrappers.dfy`, `http.dfy` and `marketplaces.dfy` hold `Option`, the reply type and the marketplace enumeration.

A reply is either `Respond(status, body)` or `Raised`. `Raised` stands for an exception escaping the handler.

Inputs the model takes as parameters, because the code gets them from outside:
- the fetched product page, as `Option<string>`, where `None` means the fetch or decoding raised;
- the result of each marketplace's two image searches, as an opaque `findImage(marketplace)` function;
- the current time, as a natural `now`.

## Model

| member | source | states |
|---|---|---|
| Tracker.ToggleNotifications | src/pages/Index.tsx:80-86 | Length and order are kept. Products with another id are returned unchanged. A matching product has `notifications` negated and every other field equal. |
| Tracker.ToggleTwiceRestores | src/pages/Index.tsx:80-86 | Toggling the same id twice gives back the original list. |
| Tracker.ToggleAbsentIsIdentity | src/pages/Index.tsx:80-86 | Toggling an id no product has leaves the list unchanged. |
| Tracker.ActiveProducts | src/pages/Index.tsx:150 | `filter(p => p.notifications)` is the list filter `Seqs.Filter`: it keeps exactly the products whose notifications are on. Each kept product is in the list with notifications on, and each such product of the list is kept. `Seqs.FilterCounts` gives the multiplicities. |
| Tracker.ActiveCount | src/pages/Index.tsx:150 | `products.filter(p => p.notifications).length` is at most the list length, and it is 0 exactly when no product has notifications on. |
| Tracker.ActiveCountCountsTrueFlags | src/pages/Index.tsx:150 | The active-notification count equals the number of `true` notification flags. |
| Tracker.ToggleShiftsActiveCount | src/pages/Index.tsx:80-86 | With unique ids, toggling a present id changes the active count by exactly one: down if it was on, up if it was off. |
| Tracker.Contribution | src/pages/Index.tsx:89 | One product's contribution is the smaller of 0 and `targetPrice - currentPrice`, so it is never positive. |
| Tracker.SavingsFold | src/pages/Index.tsx:88-91 | Each step of the page's `reduce` adds a non-positive contribution, so the result never exceeds the starting accumulator. |
| Tracker.SavingsSum | src/pages/Index.tsx:88-91 | The reference sum of contributions is never positive. It is 0 exactly when no product is priced above its target. |
| Tracker.FoldIsSum | src/pages/Index.tsx:88-91 | The page's left-to-right `reduce`, from any accumulator, adds the reference sum to it. |
| Tracker.TotalSavings | src/pages/Index.tsx:88-91 | `totalSavings`, the reduce from 0, equals the reference sum. |
| Tracker.TotalSavingsSign | src/pages/Index.tsx:88-91 | `totalSavings` is at most 0. It is 0 exactly when every product is at or below its target price. |
| Tracker.RoundHalfUp | src/pages/Index.tsx:138 | `Math.round(a / n)` is the integer `r` with `r - 1/2 <= a/n < r + 1/2`, so halves round toward +infinity. |
| Tracker.RoundHalfUpUnique | src/pages/Index.tsx:138 | No other integer meets those bounds, so the rounding is fully determined. |
| Tracker.AverageSavings | src/pages/Index.tsx:138 | The average is undefined (the page's NaN) exactly for the empty list. Otherwise it is never positive and is `totalSavings / length` rounded half up. |
| Tracker.Figures | src/pages/Index.tsx:127-150 | The dashboard shows the list length as the tracked count, `ActiveCount` (the number of products with notifications on, at most the length) as the active notifications, and `AverageSavings` as the average, which is present exactly when the list is non-empty. |
| Tracker.SeedActive | src/pages/Index.tsx:24-73 | Exactly two seed products, the first two, have notifications on. |
| Tracker.SeedFigures | src/pages/Index.tsx:24-73 | The seed list has 3 distinct ids and savings of -1298. It shows 3 products, an average of -433 and 2 active notifications. |
| Text.FindFirst | backend/parse-product/index.py:78 | `re.search` takes the least candidate start: the result holds there and at no earlier position. |
| Text.FindLast | backend/parse-product/index.py:78 | A greedy repetition that backtracks stops at the greatest position that works. |
| Text.Contains | backend/parse-product/index.py:54 | `pat in s` holds exactly when `pat` occurs at some position of `s`. |
| Text.DigitRun | backend/parse-product/index.py:78 | A greedy `(\d+)` captures the maximal digit run at a position: a slice of digits not followed by a digit. |
| Text.Strip | backend/parse-product/index.py:89 | `strip()` returns a slice with only whitespace cut from both ends, and the result neither begins nor ends with whitespace. |
| Text.StripIdentity | backend/parse-product/index.py:89-90 | Text with no whitespace at either end is its own `strip()`. |
| Text.StripIdempotent | backend/parse-product/index.py:89-90 | Stripping a stripped name changes nothing. |
| Text.RemoveAll | backend/parse-product/index.py:90 | `replace(pat, '')` never lengthens the text. It shortens it exactly when `pat` occurs, and leaves it unchanged otherwise. |
| Text.RemoveAllFirst | backend/parse-product/index.py:90 | `replace(pat, '')` works left to right: the text before the first occurrence is kept, that occurrence is dropped, and the removal continues after it. |
| Text.AbsentCharBlocks | backend/parse-product/index.py:90 | A pattern holding a character the text lacks occurs nowhere in the text, so `replace` leaves that text alone. |
| Text.Truncate | backend/parse-product/index.py:108 | `name[:500]` is the prefix of length at most 500, and the whole name when it is short enough. |
| Text.LowerChar | backend/parse-product/index.py:52 | The ASCII lower-casing used in place of Python's `lower()`: ASCII capitals map to the small letter 32 code points up, and every other character is unchanged. |
| Text.LowerAscii | backend/parse-product/index.py:52 | The ASCII lower-casing used in place of `netloc.lower()`: it keeps the length and applies `LowerChar` to each character. |
| Text.LowerAsciiIdempotent | backend/parse-product/index.py:52 | Lower-casing a lower-cased host changes nothing. |
| Text.NatToString | backend/products/index.py:94 | `str(id)` is a non-empty digit string with no leading zero unless the id is 0. |
| Text.ResolveNumeral | backend/products/index.py:171 | An id in text is resolved exactly when it is a non-empty string of digits. Its value, printed back, is the text without its leading zeros. |
| Text.ValueOfNatToString | backend/products/index.py:94 | Reading back `str(n)` gives `n`. |
| Text.ResolveNatToString | backend/products/index.py:94 | The id text the listing reports resolves to the row's id. |
| Text.NatToStringOfValue | backend/products/index.py:94 | Every canonical numeral is `str` of its value, so ids and their texts correspond one to one. |
| Text.IntOfDigits | backend/parse-product/index.py:95 | `int(digits)` raises exactly for the empty string or more than 4300 digits. Otherwise `str` of the value is the numeral without its leading zeros. |
| Text.DropLeadingZeros | backend/parse-product/index.py:95 | Dropping leading zeros leaves a canonical numeral, a suffix of the input, with the same value. |
| Text.LeadingZeroValue | backend/parse-product/index.py:95 | A leading zero does not change the value `int()` reads. |
| Seqs.SortDesc | backend/products/index.py:76 | `ORDER BY ... DESC` yields a permutation of the rows in non-increasing key order. |
| Seqs.Top | backend/products/index.py:87-88 | `ORDER BY ... DESC LIMIT m` keeps `min(m, n)` rows of the input in descending order. No row left out has a larger key than a row kept. |
| Seqs.Reverse | backend/products/index.py:108 | `reversed` yields a permutation that reads the input back to front. |
| Seqs.Filter | backend/products/index.py:203 | The `WHERE` filter keeps exactly the rows passing the test, and no others. |
| Seqs.FilterAppend | backend/products/index.py:203 | Filtering distributes over appending one row. |
| Seqs.FilterConcat | backend/products/index.py:203 | Filtering distributes over concatenation. |
| Seqs.FilterIdempotent | backend/products/index.py:203 | Filtering twice by the same test is filtering once. |
| Seqs.FilterCounts | backend/products/index.py:203 | The `WHERE` filter keeps each passing row as many times as it occurs and drops every failing row. |
| Seqs.PermutationKeepsDistinct | backend/products/index.py:63-79 | Reordering rows that have distinct ids cannot produce a duplicate id. |
| ParseProduct.Sanitize | backend/parse-product/index.py:51 | `urlparse`'s clean-up leaves no tab, carriage return or line feed, never starts with a control character or space, and never lengthens the link. |
| ParseProduct.SanitizeDropsLead | backend/parse-product/index.py:51 | The clean-up of a link written as a run of controls and spaces followed by a visible character is the rest of the link with every tab, carriage return and line feed taken out, and nothing else removed or reordered. |
| ParseProduct.SanitizeKeepsCleanLink | backend/parse-product/index.py:51 | A link that starts with a visible character and holds no tab, carriage return or line feed is left unchanged. |
| ParseProduct.SanitizeIdempotent | backend/parse-product/index.py:51 | Cleaning up a cleaned-up link changes nothing. |
| ParseProduct.AfterScheme | backend/parse-product/index.py:51 | Splitting off the scheme leaves a suffix of the cleaned link. When some `:` ends a scheme name (an ASCII letter, then only letters, digits, `+`, `-` and `.`), the result is the text after that `:`. When no `:` does, the result is the whole text. |
| ParseProduct.Authority | backend/parse-product/index.py:51-52 | The host part read from what follows the scheme never contains `/`, `?`, `#` or a line break. |
| ParseProduct.Netloc | backend/parse-product/index.py:51-52 | The host part never contains `/`, `?`, `#`, tab, carriage return or line feed, since it is cut at the first of the three delimiters after `//`. `None` stands for the parse raising on an unmatched bracket. |
| ParseProduct.NetlocOfLink | backend/parse-product/index.py:51-57 | For a link `lead scheme://host rest`, with a lead of controls and spaces, a well-formed scheme, a host free of `/?#`, and a rest that is empty or starts with one of `/?#`: the host part is `host` with its tabs, carriage returns and line feeds taken out, or the parse raises exactly when that has an unmatched bracket. The dispatch then reads that host lower-cased. |
| ParseProduct.NetlocOfSchemelessLink | backend/parse-product/index.py:51-52 | A link without a scheme, `lead //host rest`, with a lead of controls and spaces, a host free of `/?#` and a rest that is empty or starts with one of `/?#`, has as host part `host` with its tabs, carriage returns and line feeds taken out, or the parse raises exactly when that has an unmatched bracket. |
| ParseProduct.MarketplaceOf | backend/parse-product/index.py:54-66 | Ozon exactly when the host contains `ozon.ru`, checked first. Otherwise Wildberries exactly when it contains `wildberries.ru` or `wb.ru`. Otherwise unsupported. |
| ParseProduct.Dispatch | backend/parse-product/index.py:51-57 | No marketplace when the parse raises. Otherwise the marketplace the lower-cased host names. |
| ParseProduct.OzonDash | backend/parse-product/index.py:78 | For a match start, the greedy `[^/]+` settles on the rightmost `-` that is followed by a digit in the same path segment. |
| ParseProduct.OzonArticle | backend/parse-product/index.py:78-79 | `unknown` exactly when `/product/[^/]+-\d` does not occur. Otherwise it is the non-empty digit group of the leftmost match, with the greedy dash choice. |
| ParseProduct.WbEnd | backend/parse-product/index.py:117 | A match of `/catalog/(\d+)/` at a start has its closing slash right after the digit run, or there is no match there. |
| ParseProduct.WbArticle | backend/parse-product/index.py:117-118 | `unknown` exactly when `/catalog/(\d+)/` does not occur, so digits without a trailing `/` do not count. Otherwise it is the digits of the leftmost match. |
| ParseProduct.Article | backend/parse-product/index.py:79 | The article number is `unknown` or a non-empty string of digits. |
| ParseProduct.Title | backend/parse-product/index.py:88 | The captured `<title>` text of the leftmost match, or none exactly when there is no match. |
| ParseProduct.KeyedPrice | backend/parse-product/index.py:92 | The non-empty digit group of the leftmost `"price"[:\s]*(\d+)` match, or none exactly when there is no match. |
| ParseProduct.RubleDigitsEnd | backend/parse-product/index.py:94 | At a start, `(\d+)\s*₽` can match only with the maximal digit and space runs. |
| ParseProduct.RublePrice | backend/parse-product/index.py:94 | The non-empty digit group of the leftmost `(\d+)\s*₽` match, or none exactly when there is no match. |
| ParseProduct.PagePrice | backend/parse-product/index.py:92-95 | The price is `int()` of the `"price"` group if there is one, else of the rouble group if there is one, else 0. Printed back it is the group without leading zeros. Reading fails exactly when the chosen group has more than 4300 digits. |
| ParseProduct.PageRead | backend/parse-product/index.py:81-101 | The `try` block completes exactly when the page was read and the chosen price group (the `"price"` group if present, else the rouble group) has at most 4300 digits. |
| ParseProduct.FallbackName | backend/parse-product/index.py:103 | The fallback name is non-empty and does not start with whitespace. |
| ParseProduct.PageName | backend/parse-product/index.py:88-90 | The name from a page, after removing both suffixes and stripping, has no whitespace at either end. |
| ParseProduct.FallbackHasNoSuffix | backend/parse-product/index.py:89-90 | Neither suffix of a marketplace occurs in its fallback name. |
| ParseProduct.FallbackIsStripped | backend/parse-product/index.py:89-90 | A fallback name has no whitespace at either end. |
| ParseProduct.PageNameWithoutTitle | backend/parse-product/index.py:88-90 | A page without a title is named by the fallback name, unchanged by the suffix removal and the strip. |
| ParseProduct.PageNameOfPlainTitle | backend/parse-product/index.py:88-90 | A title holding neither suffix gives its stripped text as the name. |
| ParseProduct.PageNameDropsSuffix | backend/parse-product/index.py:88-90 | A stripped title ending in the first suffix, with no earlier occurrence of it and no occurrence of the second, is named by the text before the suffix, stripped. |
| ParseProduct.ParseListing | backend/parse-product/index.py:77-114 | The draft has the parser's marketplace, the input link and the link's article number. Its name has at most 500 characters and does not start with whitespace. When the page read raises (no page, or a price too long for `int()`) the draft has price 0, the placeholder image and the fallback name. Otherwise it has the page's price, image and cleaned name, and a page without a title also gets the fallback name. |
| ParseProduct.Handle | backend/parse-product/index.py:7-75 | OPTIONS gives 200 and any other non-POST gives 405. An empty link gives 400 "URL is required". The handler raises exactly for a POST with a non-empty link whose host cannot be parsed. A parsed host that selects no marketplace gives 400 "Unsupported marketplace". A draft comes with 200, the request's link, and the marketplace the host selects. |
| ParseProduct.DraftExactlyForSupportedLinks | backend/parse-product/index.py:51-75 | A request yields a draft exactly when it is a POST with a non-empty link whose host selects a marketplace. The draft is that marketplace's parse of the link. |
| ParseProduct.NoAuthorityIsUnsupported | backend/parse-product/index.py:51-66 | A link without `//` has an empty host and is answered 400 "Unsupported marketplace". |
| ProductStore.Field.Get | backend/products/index.py:130-138 | `data.get(key)` gives a value exactly when the key holds a non-null value. Absent and null keys both give NULL. |
| ProductStore.Field.GetOr | backend/products/index.py:139 | `data.get(key, default)` gives the default only for an absent key. A null key stays NULL. |
| ProductStore.NewRow | backend/products/index.py:126-140 | Name, article number, marketplace, link, both prices and image come from the body, with absent or null keys as NULL. `notifications_enabled` is true when its key is absent and NULL when it is null. `created_at` and `updated_at` are the insertion time. |
| ProductStore.AddProduct | backend/products/index.py:123-159 | Add inserts exactly one product, under a fresh id, and changes no other row. It appends exactly one history row, with the body's current price. It answers 201 with the id and preserves the invariant. |
| ProductStore.AddedProductHasOnePoint | backend/products/index.py:144-147 | A newly added product's history is exactly the one row recording its price at insertion. |
| ProductStore.AddThenDeleteRestores | backend/products/index.py:123-216 | Deleting a product right after adding it, by the id text the listing reports, restores both tables. |
| ProductStore.Patch | backend/products/index.py:166-176 | The patched row differs from the old one only in `notifications_enabled` and `target_price`, taken from the body, and `updated_at`, set to the update time. |
| ProductStore.UpdateProduct | backend/products/index.py:161-188 | The row the id names gets `notifications_enabled` and `target_price` from the body (absent gives NULL) and a new `updated_at`. No other column, row or table changes. The answer is 200 even when no row matches. A non-numeric id raises with nothing changed. |
| ProductStore.UpdateIdempotent | backend/products/index.py:166-176 | Repeating the same update changes nothing further. |
| ProductStore.DeleteProduct | backend/products/index.py:190-216 | A missing or empty id gives 400 with nothing changed. A numeric id removes that product and exactly its history rows, changes nothing else, and answers 200 even when absent. The rows kept and the product's rows together make up the old history, with multiplicities. A non-numeric id raises with nothing changed. The invariant is preserved. |
| ProductStore.DeleteIdempotent | backend/products/index.py:203-204 | Repeating a delete leaves the tables as the first one left them. |
| ProductStore.DeleteByListedId | backend/products/index.py:190-216 | Deleting by the id text the listing shows removes exactly that product and all of its history. |
| ProductStore.EntriesBelow | backend/products/index.py:63-79 | Enumerating the table yields every stored row below the counter exactly once, in descending id order. |
| ProductStore.ProductOrder | backend/products/index.py:63-79 | The listing order is newest `created_at` first. It holds only stored rows, each unchanged, with no id twice, and with the invariant every stored product appears. |
| ProductStore.HistoryOf | backend/products/index.py:83-89 | The `WHERE product_id = %s` selection keeps exactly that product's history rows, each as many times as the table holds it. |
| ProductStore.HistorySplits | backend/products/index.py:203-204 | Every history row is either one of the product's rows or kept by the delete, counted with its multiplicity. |
| ProductStore.Window | backend/products/index.py:83-108 | The window holds `min(30, n)` of the product's rows in ascending `checked_at` order. No row left out is more recent than a row kept. |
| ProductStore.WindowOfProduct | backend/products/index.py:83-91 | Every row in a product's window is one of that product's history rows. |
| ProductStore.View | backend/products/index.py:93-110 | The listed id text resolves back to the row's id. The columns are passed through under camel-case names. The history is the window, point by point. |
| ProductStore.GetProducts | backend/products/index.py:60-121 | The listing answers 200 with one view per entry of the listing order, and changes no table. |
| ProductStore.ListedView | backend/products/index.py:93-102 | Each listed view shows a stored product under its own id, with its stored target price and notification flag. |
| ProductStore.ListedIdsAreStored | backend/products/index.py:60-110 | Every id the listing reports belongs to a stored product. |
| ProductStore.StoredIdsAreListed | backend/products/index.py:60-110 | Every stored product is listed. |
| ProductStore.ListingCoversStore | backend/products/index.py:60-110 | The ids the listing reports are exactly the stored products' ids. |
| ProductStore.ListingSize | backend/products/index.py:79-82 | The listing has exactly one entry per stored product. |
| ProductStore.Handle | backend/products/index.py:12-58 | The method defaults to GET. OPTIONS answers 200 before any table access. GET, POST, PUT and DELETE go to their operations. Anything else answers 405 with the tables unchanged. Every request preserves the invariant. |

## Left out

- Rendering: the page's markup and the card, form, settings and statistics components are not modelled. This leaves out their own small rules: the parse button is disabled while parsing or while the link is empty or only whitespace (src/components/AddProductForm.tsx:62), the add button is disabled without a target price (src/components/AddProductForm.tsx:124), and the card's link button opens `#` when the product has no link (src/components/ProductCard.tsx:121).
- The page fetch in the parser (`urllib` with a 10-second timeout) is the `page` input. Any exception in it, or in UTF-8 decoding, is `None`.
- The two image-link regular expressions of each marketplace are the opaque `findImage(marketplace)` input. Which marketplace's search is used, and the fallback to the placeholder image, are modelled; the expressions themselves are not.
- The database driver, SQL text, commit and close, CORS headers and JSON encoding are not modelled. The tables are abstract state, and replies carry only a status and a payload.
- Timestamps are naturals supplied as `now`. `created_at` and `updated_at` of an inserted row, which the schema fills in, are taken to be that `now`. `strftime('%d.%m')` formatting of history dates is not modelled, and points carry the raw time.
- ProductStore.ProductOrder: SQL leaves the order of rows with equal `created_at` unspecified. The model fixes one order, descending id.
- Text.ResolveNumeral: the database converts the id text itself, and which forms it accepts depends on the PostgreSQL server version, which the code does not fix. All versions accept a sign and surrounding blanks and reject values outside the integer range. PostgreSQL 16 and later also accept `0x`, `0o` and `0b` prefixes and `_` separators, so `DELETE ?id=0x7` removes product 7 (backend/products/index.py:203-204) and a PUT with id `1_0` patches row 10 (backend/products/index.py:166-176). The model accepts exactly non-empty ASCII digit strings, of any size, and treats every other id text as raising.
- Request bodies: non-string JSON values for `url`, `id` and the body keys are not modelled, and neither are malformed or null JSON bodies (which raise) or a null `queryStringParameters` (which raises). `httpMethod` is a string or absent.
- Column types and NOT NULL constraints of the schema are not part of this model. Insertions and updates that the database would reject for them are treated as succeeding.
- A failure to connect to the database is not modelled.
- Text.IsDigit: the regular-expression class `\d` and `int()` also accept non-ASCII decimal digits. The model keeps only ASCII digits. `\s` and `strip()` use Python's full whitespace set.
- Text.LowerChar: lower-cases ASCII capitals only, where Python's `lower()` lower-cases every cased character. Python's full lower-casing maps no non-ASCII character onto the ASCII letters of `ozon.ru`, `wildberries.ru` or `wb.ru` without inserting a combining mark, so the host tests give the same answers.
- Text.LowerAscii: the same ASCII-only lower-casing of the host, for the same reason.
- ParseProduct.Dispatch: reads the host through `Text.LowerAscii`, so it inherits that ASCII-only lower-casing.
- ParseProduct.Netloc: the clean-up follows `urllib.parse` as of Python 3.11.4 and the security releases that carry the same fix. Leading C0 controls and spaces are removed, then tabs, carriage returns and line feeds. A scheme must start with an ASCII letter. Older versions keep the leading characters, and some accept a scheme starting with a digit.
- ParseProduct.PagePrice: the 4300-digit limit of `int()` is the default of Python 3.11 and later. Older versions have no limit, and a limit changed through `sys.set_int_max_str_digits` is not modelled.
- ProductStore.Window: SQL leaves the order of history rows with equal `checked_at` unspecified, and so which of them survive `LIMIT 30`. The model fixes one choice, and its contract holds for any such choice.
- ParseProduct.Netloc: `urlparse` also raises on an invalid bracketed IPv6 host and on some non-ASCII hosts that change under NFKC normalisation. The model raises only on an unmatched bracket.
- Tracker.AverageSavings: `Math.round` is applied to the floating-point quotient. The model rounds the exact quotient, which can differ only for quotients within floating-point error of a half.
- Tracker.AverageSavings: the empty list gives `None`, the NaN the page shows because nothing guards the division. The page as shown never empties its list, since it has no delete handler.
- Loading from a remote store, optimistic rollback, delete reconciliation and default target prices are not implemented by the page modelled here.
