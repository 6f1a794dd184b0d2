# finefood core, modelled in Dafny

finefood is a Django restaurant site. This project models the logic under
its plumbing and proves properties of it:

- **Working times** (`WorkingTimes.dfy`). A restaurant keeps its working
  days as seven `0`/`1` flags and its hours as two `HH:MM` times.
  - The two field validators are hand-written recognisers that follow their
    regular expressions. Each is proved equal to the language its expression
    denotes.
  - `computed_worktimes` reads the flags and the two times back with
    `findall`, builds the day table and the zero-padded `HH:MM - HH:MM` text,
    and decides whether the restaurant is open now.
- **Popularity** (`Notation.dfy`). The book count of a restaurant and the
  five-star rating `computed_notation` derives from it.
- **Orders** (`Orders.dfy`). `Order` is a class holding its line table
  (item → row id, quantity, unit price). `add_item`, `remove_item` and
  `refresh_total_price` are methods proved against functions on the table.
  Those functions carry the properties: quantities move by one, prices are
  copied on save, and the total is Σ quantity × unit price.
- **Restaurants and configuration** (`Restaurants.dfy`). `toogle_state` and
  the upper-casing of configuration keys on save.
- **Codes** (`Codes.dfy`). The bounded-retry generator of six-letter
  restaurant codes, with the random draws given as input.
- **Views** (`Views.dfy`).
  - The home page's top four restaurants by book count.
  - On the restaurant page: the option-change rule, the precedence of the
    GET actions, and how the customer's draft order is fetched or created
    and changed.

Inputs stand in for the wall clock (`Now`: UTC hour, minute, weekday number
with 0 for Sunday), the random draws, the catalog of items and the database
tables (books, restaurants by code, draft orders by customer and restaurant).
Prices are integers.

Two places where the model deliberately follows the code:

- **The weekday is not shifted.** The open rule uses the UTC weekday
  (`now.strftime('%a')`), not one shifted by the restaurant's offset. Only
  the hour is shifted.
- **A trailing newline passes validation.** Both validators are searched
  with `^` and `$`, and Python's `$` also matches before one final newline.
  So a field may end in one `\n`.

## Model

| member | source | states |
|---|---|---|
| `WorkingTimes.WorkingDaysValidIff` | core/models.py:13 | The day validator accepts a string if and only if it is seven `0`/`1` flags, each followed by any number of spaces, optionally ending in one newline. |
| `WorkingTimes.PlainDaysAccepted` | core/tests.py:11-13 | `0000000` and `0000001` are accepted. |
| `WorkingTimes.SpacedDaysAccepted` | core/tests.py:14 | `0 0 0 0 0 0 0` is accepted. |
| `WorkingTimes.WorkingDaysRejected` | core/tests.py:15-22 | `00000000`, `000000` and the empty string are rejected. |
| `WorkingTimes.FlagsOfRendered` | core/models.py:115 | `findall('[0-1]{1}')` on a string the day validator accepts gives back exactly the flags it was built from. |
| `WorkingTimes.FlagCountOfValid` | core/models.py:115-118 | An accepted day string yields exactly seven flags, so the day table never indexes past them. |
| `WorkingTimes.WorkingHoursValidIff` | core/models.py:14-16 | The hours validator accepts a string if and only if it is two times of day (hour 00–23, minute 00–59), each optionally followed by `-`, optionally ending in one newline. |
| `WorkingTimes.WorkingHoursExamples` | core/tests.py:24-35 | `00:00-23:59` is accepted. `0:00-23:59`, `00:0-23:59`, `00:00 23:59` and the empty string are rejected. |
| `WorkingTimes.Pad2RoundTrip` | core/models.py:128-134 | Reading a number back with `int()` after formatting it with `'%2d'` and zero-filling gives the number. |
| `WorkingTimes.FormattedClock` | core/models.py:128-134 | A time of day is shown as five characters that form a valid `HH:MM` and denote that time. |
| `WorkingTimes.ClockText` | core/models.py:122-127 | A validated `HH:MM` parses to a time of day, and formatting that time reproduces the text. |
| `WorkingTimes.FindClocksOfSeparated` | core/models.py:122-123 | `findall('(\d+):(\d+)')` on two hyphen-separated times, followed by no further digits, finds exactly those two times. |
| `WorkingTimes.LocalTime` | core/models.py:121 | The local hour lies in 0..23 and differs from UTC hour + offset by a multiple of 24. The minute is unchanged. |
| `WorkingTimes.WorkingDaysMap` | core/models.py:116-118 | The day table maps `DAYS[i]` to whether flag i is `1`, and has no other keys. |
| `WorkingTimes.WorktimesOfValidFields` | core/models.py:113-142 | For fields the corrected validators accept, the computation succeeds, and: day i is on if and only if flag i is `1`; the hours are the two times exactly as written, joined by ` - `; open holds if and only if the restaurant is active, today's UTC flag is on, and start < local time < end in (hour, minute) order. |
| `WorkingTimes.InactiveNeverOpen` | core/models.py:136-137 | An inactive restaurant is never open. |
| `WorkingTimes.EmptyRangeNeverOpen` | core/models.py:137 | A range whose start is not before its end is never open. |
| `WorkingTimes.FoodyWorktimes` | core/tests.py:105-118 | For `0111110` and `09:30-15:30` on an inactive restaurant: Sun and Sat are off, Mon–Fri are on, the hours read `09:30 - 15:30`, and the restaurant is closed. |
| `WorkingTimes.SeparatedHoursAreValid` | core/models.py:14-16 | Every string the corrected hours validator accepts is also accepted by the written one. |
| `WorkingTimes.FindClocksOfUnseparated` | core/models.py:122-123 | With two times run together, `findall('(\d+):(\d+)')` finds one match: the first hour, and the first minutes followed by the second hour. |
| `WorkingTimes.UnseparatedHoursFail` | core/models.py:14-16 | Every hours field the written validator accepts, but without a hyphen between the times, yields one `findall` match. `computed_worktimes` then raises IndexError, whatever the day field, offset and clock. |
| `WorkingTimes.UnseparatedHoursBreakParse` | core/models.py:122-127 | The written validator accepts `09:3015:30`, the corrected one refuses it, and for the test's day field the computation fails with IndexError. |
| `Notation.BookCount` | core/models.py:106-108 | The count of books listing the restaurant is at most the number of books. It is 0 exactly when no book lists it, and equals the number of books exactly when every book lists it. |
| `Notation.Score` | core/models.py:109 | `int(5 * books / total)` is at most 5 when books ≤ total. |
| `Notation.ComputedNotation` | core/models.py:102-111 | There are five stars, each 0 or 1, and `books` is the restaurant's book count. |
| `Notation.StarLit` | core/models.py:105-110 | Star i is lit exactly when (i + 1) × total ≤ 5 × books, where an empty table counts as one book. |
| `Notation.StarsFromTheLeft` | core/models.py:110 | The lit stars come first: a lit star has only lit stars before it. |
| `Notation.NotationExtremes` | core/models.py:105-110 | Listed in every book of a non-empty table: five stars. Listed in no book: none. |
| `Notation.TwoOfTwoBooks` | core/tests.py:243-247 | Two books, both listing the restaurant, give `[1, 1, 1, 1, 1]` and 2 books. |
| `Orders.SumRemove` | core/models.py:297-299 | The sum over the lines does not depend on the order in which lines are taken. |
| `Orders.SumUpdate` | core/models.py:297-299 | Replacing or inserting one line changes the sum by the difference of the line totals. |
| `Orders.AddItemEffect` | core/models.py:264-278 | For an item outside the order's restaurant, add_item changes nothing. Otherwise: that item's quantity rises by exactly 1, starting at 1 for a new line; its unit price becomes the current catalog price; every other line is unchanged; quantities stay ≥ 1 with distinct row ids; and the sum changes by the re-priced line. |
| `Orders.AddAtSavedPrice` | core/models.py:397-399 | The unit price is copied on save. While an item's price is unchanged since its line was saved, adding it raises the sum by exactly its price. |
| `Orders.RemoveItemEffect` | core/models.py:280-294 | remove_item lowers the line's quantity by exactly 1 and deletes the line below 1. A kept line is saved again at the current price and keeps its row id. Every other line is unchanged, all quantities stay ≥ 1, and the sum changes by the re-priced line. |
| `Orders.RemovedLinesOf` | core/models.py:281-285 | Row ids are unique, so removing by a line's row id acts on that line. |
| `Orders.RemovedLinesSubset` | core/models.py:280-294 | Removing never adds a line. |
| `Orders.Aggregate` | core/models.py:297-300 | The aggregate `Sum(quantity * unit_price)` equals Σ quantity × unit price over the lines, and is 0 when there are none. |
| `Orders.Order.constructor` | core/models.py:244-258 | A new order has no lines, total 0 and option `d`, and is valid. |
| `Orders.Order.RefreshTotalPrice` | core/models.py:296-301 | The stored total becomes the sum over the lines. |
| `Orders.Order.AddItem` | core/models.py:264-278 | The new line table is the add_item table function of the old one. An item of another restaurant leaves the total alone. Validity (quantities ≥ 1, distinct row ids, total = sum) is kept. |
| `Orders.Order.RemoveItem` | core/models.py:280-294 | The new line table is the remove_item table function of the old one. An unknown row id changes nothing. Validity is kept. |
| `Orders.TotalPriceScenario` | core/tests.py:201-217 | Adding items at 1000, 5000 and 4000 and then removing the first line leaves 9000. A later catalog price change leaves 9000. Adding a re-priced item again saves its line at the new price (4200). |
| `Restaurants.Restaurant.constructor` | core/models.py:83 | A new restaurant is inactive. |
| `Restaurants.Restaurant.ToggleState` | core/models.py:98-100 | The active flag is negated, and no other field changes. |
| `Restaurants.Upper` | core/models.py:168 | Upper-casing keeps the length, keeps every character that is not a lower-case letter, maps each lower-case letter to its capital, and leaves no lower-case letter. |
| `Restaurants.UpperIdempotent` | core/models.py:168 | Upper-casing twice is upper-casing once. |
| `Restaurants.UpperFixed` | core/models.py:168 | A key is left unchanged if and only if it has no lower-case letter. |
| `Restaurants.UpperEqualIgnoringCase` | core/models.py:168 | Two keys upper-case alike if and only if they agree letter by letter up to case. |
| `Restaurants.UpperOfTestKey` | core/tests.py:124-129 | `restaurant_name` is stored as `RESTAURANT_NAME`. |
| `Restaurants.SystemConfig.Save` | core/models.py:167-169 | The key becomes its upper-cased form, and nothing else changes. |
| `Codes.Letter` | core/utils.py:7 | Each letter drawn from `ascii_uppercase` lies in A–Z. |
| `Codes.CodeOf` | core/utils.py:11 | A candidate has length 6, and every character is in A–Z. |
| `Codes.GenerateRestaurantCode` | core/utils.py:5-17 | At most three candidates are drawn. A returned code has six letters A–Z, is not an existing code, and is the first unused one of the three. The generator fails exactly when all three are taken. |
| `Views.Rankings` | core/views.py:14-18 | There is one (books, restaurant) pair per restaurant, in table order, with that restaurant's book count. |
| `Views.InsertAscending` | core/views.py:14 | Inserting into an ascending list keeps it ascending. |
| `Views.InsertPermutes` | core/views.py:14 | Inserting adds exactly the new element. |
| `Views.SortSorted` | core/views.py:14 | Sorting by book count yields an ascending permutation of the input. |
| `Views.ReverseDescending` | core/views.py:19 | `[::-1]` of an ascending list is descending. |
| `Views.IndexIsTopFour` | core/views.py:14-19 | The home page lists min(4, n) entries, in non-increasing book count, all drawn from the input. No entry left out has more books than one listed. |
| `Views.TupleLess` | core/views.py:14 | `<` on two (books, restaurant) tuples fails with TypeError exactly when the counts are equal and the restaurants differ. Otherwise it orders by count. |
| `Views.InsertAsWrittenTies` | core/views.py:14 | Inserting into an ascending tie-free list with the tuple comparison fails exactly when the new pair ties with an entry. Otherwise it places the pair as insertion by count does. |
| `Views.SortAsWrittenTies` | core/views.py:14 | `sorted` on the tuples fails with TypeError exactly when two different restaurants share a book count. Otherwise it equals sorting by count alone. |
| `Views.IndexAsWrittenTies` | core/views.py:14-19 | The index expression as written fails with TypeError exactly when two different restaurants share a book count. Otherwise it equals the ranking by book count. |
| `Views.TiedRankingFails` | core/views.py:14-19 | Two restaurants and no books: the written expression fails, while the ranking by book count lists both. |
| `Views.AcceptOptionIff` | core/views.py:50-59 | An option change is taken if and only if the requested value is `d` or `p` and differs from the current option. |
| `Views.Dispatch` | core/views.py:49-65 | `option` wins over `add_item`, which wins over `remove_item`. Each action carries its parameter's value. A request with none of them does nothing. |
| `Views.ParseKeyOfDigits` | core/views.py:61-63 | A key of bare ASCII digits reads as its decimal value. |
| `Views.ParseKeyRoundTrip` | core/views.py:61-63 | A key written in decimal reads back as itself. |
| `Views.ParseKeySigned` | core/views.py:61-63 | A decimal number with an optional `+` or `-` and white space around it reads as the signed number, as `int()` reads it. |
| `Views.SignedKeyExamples` | core/views.py:61-63 | `-1` reads as −1, and ` 5` and `+5` as 5. |
| `Views.UnderscoreKeyExample` | core/views.py:61-63 | `1_0` reads as 10. |
| `Views.LeadingZerosKeyExample` | core/views.py:61-63 | `007` reads as 7. |
| `Views.RefusedKeyExamples` | core/views.py:61-63 | `int()` refuses the empty key, a blank key, `1__0`, `_1`, `1_` and `5a`, so the lookup raises ValueError. |
| `Views.ParseKeyRejects` | core/views.py:61-63 | Any key holding a character that is not a digit, white space, a sign or an underscore is refused. |
| `Views.NegativeKeyChangesNothing` | core/views.py:61-66 | A key that reads as a negative number names no item and no line. The request redirects and the order is unchanged. |
| `Views.MinusOneRedirects` | core/views.py:61-66 | `?add_item=-1` redirects and leaves the order as it was. |
| `Views.OneMutation` | core/views.py:48-66 | A GET request changes the option or the lines, never both. The option changes exactly when an accepted option change was asked for. |
| `Views.ApplyGet` | core/views.py:48-66 | The outcome and the order's new state are the step function of the dispatched action on the old state. The status is unchanged, and the order stays valid. |
| `Views.RestaurantPage` | core/views.py:38-88 | Unknown code: 404, and nothing changes. Anonymous visitor or no delivery: page with no order, and nothing changes. Otherwise: the customer's draft order for the restaurant is fetched, or created empty with status `d`; a GET with parameters applies its one action and redirects (a key `int()` cannot read fails); any other request leaves the order as it was. |

## Left out

- Persistence, querysets, `get_or_create`, `aggregate` and cascade deletes are left out. Tables are values given to, or held by, the model. At most one draft order per customer and restaurant is assumed, and at most one line per item. The `MultipleObjectsReturned` error that duplicate rows would raise is not modelled.
- Template rendering, the POST contact-form branch of `restaurant_page` (it changes nothing), login, sign-in, logout, the other views, forms, routing and the fixture loader are framework wrappers or I/O.
- Floating point is left out. Prices and totals are integers. `computed_notation` divides with floor. Python divides two integers with correct rounding. When the total number of books is below 2^52, the rounded quotient never reaches the next whole number, so `int()` of it equals the floor. From 2^52 on it can: with 2^52 + 3 books in all, 5 × books = 4 × total − 1 gives 4 where the floor is 3.
- The wall clock and the locale of `strftime('%a')` are inputs. The weekday is a number, 0 for Sunday.
- `updated_date` bookkeeping in the `save` overrides, and the plain records (users, staff, menus, feedback) carry no behaviour.
- Field length limits are not checked by the modelled operations. These are `max_length` 16, 6 and 64, the gmt range −12..12, and the 32767 bound of `PositiveSmallIntegerField` quantities.
- Row ids come from a per-order counter, not the database-wide sequence. Only their uniqueness within the order matters to `remove_item`.
- Python's `\d` also matches non-ASCII digits. The `findall` model reads ASCII digit runs only. Hours fields that pass the validator hold ASCII digits only, so this matters only for unvalidated text.
- Views.ParseKey: models `int()` on ASCII text only. It strips the ASCII white space `str.isspace` accepts, takes one leading sign, and takes single underscores between digits. Non-ASCII digits and non-ASCII white space, which `int()` also accepts, are read here as ValueError, so such a request gets a server error where Python would redirect. A key beyond the database's integer range is taken as naming no row; how this is handled depends on the database backend.
- `Restaurants.Upper`: ASCII letters only. `str.upper` also maps other scripts, and can lengthen a string (`ß` → `SS`).
- `Orders.Order.RemoveItem` requires that every line's item is in the catalog. The foreign key from OrderItem to Item, with cascade delete, guarantees it.
- Views.SortAsWritten: makes the comparisons of an insertion sort, not those of Timsort. Any comparison sort must compare each pair of neighbours in its output, and two tied restaurants are neighbours once sorted. So the TypeError on a tie does not depend on which sort `sorted` uses.
- `Codes.GenerateRestaurantCode` takes its random draws as an input of at least three rows of six indices below 26. The field default that calls it when a restaurant is created is not modelled, and `Restaurants.Restaurant.constructor` takes the code as an argument.
- A multi-valued GET parameter is modelled by the single value `QueryDict.get` returns.
- Concurrency between requests is left out.

## Findings

| source | as written | input that shows it | evidently intended | confidence | as-written member | corrected member |
|---|---|---|---|---|---|---|
| core/models.py:14-16 | The hours validator's `-?` makes the hyphen between the two times optional. `computed_worktimes` then splits the times with `(\d+):(\d+)`. | `09:3015:30` passes validation. `findall` yields one match, (`09`, `3015`), and `_[1]` raises IndexError (core/models.py:124-127). | A hyphen is required between the times (`HH:MM-HH:MM`, an optional trailing `-`). Every such field parses to its two times. | not executed; high | `WorkingTimes.UnseparatedHoursBreakParse` | `WorkingTimes.WorktimesOfValidFields` |
| core/views.py:14-19 | `sorted()` orders `(books, restaurant)` tuples. On equal book counts it compares two Restaurant instances, and Django models define no `<`. | Two restaurants with the same book count, e.g. a new site with two restaurants and no books: TypeError. | Rank by book count alone (`key=` on the count). | not executed; high | `Views.IndexAsWrittenTies` | `Views.IndexIsTopFour` |
