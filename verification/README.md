# Permit deadline engine and reference tables, in Dafny

This project models the business logic of a permit-deadline tracker for a
county and its cities:

- **The deadline engine** (`Deadlines`). From a project's optional
  submission and permit-issuance instants it derives at most one deadline,
  read at a reference instant `now`:
  - the 180-day application-abandonment deadline, while the application is
    submitted and no permit has been issued;
  - the 365-day permit-expiry deadline, once a permit has been issued.
  Each deadline carries:
  - its signed day count, rounded up;
  - its overdue flag and its urgency flag (30-day window for abandonment,
    60-day window for expiry);
  - the action it asks for.
  Beside the engine sit the filter that keeps the deadlines needing
  attention and the three-way status (urgent, warning, normal) of one
  deadline. `calculateDeadlines` builds its list step by step and then
  sorts it, so it is a method, `CalculateDeadlines`. The method is proved
  equal to the specification function `Calculated`, and the lemmas are
  about that function.
- **The jurisdictions table** (`Jurisdictions`). It has a lookup by exact
  id and a lookup by a free-text name. The name lookup lower-cases the
  query and then picks the first entry whose lower-cased name contains it,
  or whose id equals it with each whitespace run replaced by `-`.
- **The permit-type catalogue** (`PermitTypes`). It has a lookup by exact
  id and a filter by category.

Supporting modules:

- `Seqs` holds the array search (`find`) and filter (`filter`) the lookups
  are built from.
- `Text` holds lower-casing, substring containment and whitespace-run
  replacement.
- `Wrappers` holds `Option`, which stands for an absent value (`undefined`,
  an omitted optional argument).

Instants are whole milliseconds (`int`), and a day is `86400000` ms.

`isOverdue` is `daysRemaining < 0`, with the day count rounded up, so a
deadline becomes overdue only once its date is a full day past
(`OverdueMeansFullDayPast`, `DayOfGrace`). A plain `date < now` test would
flag it up to a day earlier.

## Model

| member | source | states |
|---|---|---|
| Deadlines.DaysUntil | src/lib/deadlines.ts:24-26 | the day count `c` is the rounded-up quotient: `(c - 1) * DAY < date - now <= c * DAY` |
| Deadlines.DaysUntilUnique | src/lib/deadlines.ts:24-26 | only one integer meets those bounds, so the day count is the ceiling of the day distance |
| Deadlines.DaysUntilMonotonic | src/lib/deadlines.ts:47-49 | a later date never has fewer days left |
| Deadlines.AbandonmentDeadline | src/lib/deadlines.ts:20-39 | the abandonment record is dated submission + 180 days and is well formed: its day count is the rounded-up distance from `now`; it is overdue iff the count is below 0 and urgent iff the count is at most 30; its action is "Contact permit office immediately…" when overdue and "Respond to any county requests…" otherwise |
| Deadlines.ExpiryDeadline | src/lib/deadlines.ts:43-64 | the expiry record is dated issuance + 365 days and is well formed, with urgency meaning a count of at most 60; its action is "Permit expired…" when overdue, "Request permit extension…" when urgent but not overdue, and "Complete work and schedule final inspection" otherwise |
| Deadlines.WellFormed | src/lib/deadlines.ts:24-33 | the rules every record obeys: a produced kind, a day count that is the rounded-up distance from `now` to the date, overdue iff the count is below 0, urgent iff it is within the kind's window |
| Deadlines.Calculated | src/lib/deadlines.ts:15-67 | the list `calculateDeadlines` returns: the abandonment record when submitted and not issued, then the expiry record when issued |
| Deadlines.PrependSorted | src/lib/deadlines.ts:67 | an element dated no later than every element of a sorted list may be put in front of it and the list stays sorted |
| Deadlines.InsertByDate | src/lib/deadlines.ts:67 | inserting into a date-sorted list keeps it sorted; its elements are those of the list plus the inserted one, and as a multiset it gains exactly that one element |
| Deadlines.SortByDate | src/lib/deadlines.ts:67 | the sort's result is ordered by date and is a permutation of its input |
| Deadlines.SortSortedUnchanged | src/lib/deadlines.ts:67 | sorting a list already in date order returns it unchanged |
| Deadlines.InsertByDateStable | src/lib/deadlines.ts:67 | insertion keeps the order among elements sharing a date, and the inserted element comes first among them |
| Deadlines.SortByDateStable | src/lib/deadlines.ts:67 | the sort is stable: for every date, the elements with that date keep their input order |
| Deadlines.CalculateDeadlines | src/lib/deadlines.ts:11-68 | the pushes followed by the sort give exactly `Calculated(submittedAt, permitIssuedAt, now)`, whatever `lastActionAt` is; the result is sorted by date and every element is well formed |
| Deadlines.CalculatedWellFormed | src/lib/deadlines.ts:15-67 | every deadline produced is well formed against `now`, and the result is in date order |
| Deadlines.CalculatedAbandonmentIff | src/lib/deadlines.ts:20 | an abandonment deadline is produced iff `submittedAt` is present and `permitIssuedAt` is absent |
| Deadlines.CalculatedExpiryIff | src/lib/deadlines.ts:43 | an expiry deadline is produced iff `permitIssuedAt` is present, whatever `submittedAt` is |
| Deadlines.CalculatedShape | src/lib/deadlines.ts:15-67 | at most one deadline is produced, none without inputs, never an inspection or response deadline; the abandonment date is submission + 180 days and the expiry date is issuance + 365 days |
| Deadlines.OverdueMeansFullDayPast | src/lib/deadlines.ts:24-33 | a well-formed deadline is overdue iff its date is at least one full day before `now` |
| Deadlines.DayOfGrace | src/lib/deadlines.ts:24-33 | a date less than one day in the past has 0 days left and is urgent but not overdue |
| Deadlines.OverdueIsUrgent | src/lib/deadlines.ts:32-33 | every overdue well-formed deadline is also urgent |
| Deadlines.NeedsAttention | src/lib/deadlines.ts:73 | the filter's condition: urgent or overdue |
| Deadlines.UrgentDeadlines | src/lib/deadlines.ts:70-74 | `getUrgentDeadlines` keeps exactly the input's deadlines that are urgent or overdue, as an order-preserving subsequence, with every copy of a kept record and no copy of a dropped one |
| Deadlines.UrgentDeadlinesIdempotent | src/lib/deadlines.ts:73 | applying the urgent filter twice is the same as applying it once |
| Deadlines.UrgentDeadlinesOfWellFormed | src/lib/deadlines.ts:73 | over well-formed deadlines the filter keeps exactly those flagged urgent |
| Deadlines.DeadlineStatus | src/lib/deadlines.ts:76-82 | the status is urgent iff the deadline is overdue, and normal iff it is neither urgent nor overdue, i.e. iff the urgent filter would drop it |
| Deadlines.StatusByDays | src/lib/deadlines.ts:79-81 | for a well-formed deadline: urgent iff fewer than 0 days are left, warning iff 0 to the kind's window (30 or 60) days are left, normal iff more are left |
| Deadlines.NormalIffNotUrgentListed | src/lib/deadlines.ts:73-81 | a deadline of a list has status normal iff it is not in that list's urgent deadlines |
| Deadlines.ActionFollowsStatus | src/lib/deadlines.ts:35-63 | for a produced deadline the action follows the status. Abandonment: urgent gives "Contact…", anything else gives "Respond…". Expiry: urgent gives "Permit expired…", warning gives "Request permit extension…", normal gives "Complete work…" |
| Deadlines.ScenarioFreshSubmission | src/lib/deadlines.ts:20-39 | submitted 2025-01-01 and read that day: abandonment on 2025-06-30, 180 days left, not urgent, not overdue |
| Deadlines.ScenarioExpiringPermit | src/lib/deadlines.ts:43-64 | issued 2024-01-01 and read 2024-12-20: expiry on 2024-12-31, 11 days left, urgent, not overdue, "Request permit extension…" |
| Deadlines.ScenarioAbandonedApplication | src/lib/deadlines.ts:20-39 | submitted 2024-01-01 and read 2024-12-01: abandonment on 2024-06-29, -155 days, overdue and urgent, "Contact permit office immediately…" |
| Deadlines.ScenarioUrgentFilter | src/lib/deadlines.ts:70-74 | over the three scenarios' deadlines together, the urgent filter returns the expiring permit's and the abandoned application's, in that order |
| Seqs.Find | src/lib/jurisdictions.ts:138 | `find` returns None iff no element satisfies the predicate; otherwise it returns the element at the first satisfying position |
| Seqs.FindFirst | src/lib/jurisdictions.ts:138 | conversely, the element at the first satisfying position is what `find` returns |
| Seqs.FindAgrees | src/lib/jurisdictions.ts:142-146 | two predicates that agree on every element give the same `find` result |
| Seqs.Filter | src/lib/permit-types.ts:133 | `filter` returns exactly the satisfying elements, as an order-preserving subsequence no longer than its input |
| Seqs.FilterMultiplicity | src/lib/permit-types.ts:133 | `filter` keeps as many copies of each satisfying element as the input has, and none of any other |
| Seqs.FilterIdempotent | src/lib/deadlines.ts:73 | filtering twice by the same predicate is filtering once |
| Seqs.FilterKeepsAll | src/lib/deadlines.ts:73 | a sequence whose elements all satisfy the predicate is its own filter |
| Seqs.FilterAppend | src/lib/deadlines.ts:73 | the filter of a concatenation is the concatenation of the filters |
| Text.Lower | src/lib/jurisdictions.ts:144 | lower-casing maps each letter A–Z to the letter 32 code points later (its a–z counterpart) and leaves every other character unchanged; so it keeps whether a character is whitespace and never yields an upper-case letter |
| Text.LowerEqualIff | src/lib/jurisdictions.ts:144 | two characters lower-case to the same character iff they are equal or are the upper- and lower-case forms of one letter A–Z |
| Text.ToLower | src/lib/jurisdictions.ts:144 | `toLowerCase` keeps the length and lower-cases each character in place |
| Text.ToLowerIdempotent | src/lib/jurisdictions.ts:144-145 | lower-casing twice is lower-casing once |
| Text.Contains | src/lib/jurisdictions.ts:144 | `includes`: the query is a prefix of the string or of one of its suffixes |
| Text.ContainsIff | src/lib/jurisdictions.ts:144 | `includes` holds iff the query occurs at some position of the string |
| Text.ContainsEmpty | src/lib/jurisdictions.ts:144 | every string includes the empty string |
| Text.IsWhitespace | src/lib/jurisdictions.ts:145 | the characters of the regular-expression class `\s`, by code point |
| Text.DropWhitespace | src/lib/jurisdictions.ts:145 | the whitespace run `\s+` consumes at the front is removed exactly: the rest is a suffix starting with a non-whitespace character or empty |
| Text.Slugify | src/lib/jurisdictions.ts:145 | `replace(/\s+/g, "-")` leaves no whitespace and never lengthens the string |
| Text.SlugifyKeepsWords | src/lib/jurisdictions.ts:145 | a string without whitespace is unchanged by the replacement |
| Text.SlugifyIdempotent | src/lib/jurisdictions.ts:145 | replacing whitespace runs twice is replacing them once |
| Text.SlugifyRun | src/lib/jurisdictions.ts:145 | a whole whitespace run followed by a word becomes a single `-` |
| Text.DropWhitespaceRun | src/lib/jurisdictions.ts:145 | removing the leading run of "run + word" leaves the word |
| Text.DropWhitespaceAppend | src/lib/jurisdictions.ts:145 | when `a` is not all whitespace, removing the leading run of `a + b` only touches `a` |
| Text.SlugifyAppend | src/lib/jurisdictions.ts:145 | the replacement distributes over concatenation at any split that does not cut a whitespace run |
| Text.DropWhitespaceToLower | src/lib/jurisdictions.ts:145 | removing leading whitespace commutes with lower-casing |
| Text.SlugifyToLower | src/lib/jurisdictions.ts:145 | replacing whitespace runs commutes with lower-casing |
| Jurisdictions.JURISDICTIONS | src/lib/jurisdictions.ts:18-135 | the seven jurisdictions in their published order, by id and name |
| Jurisdictions.IdsDistinct | src/lib/jurisdictions.ts:18-135 | the ids of the jurisdictions table are pairwise distinct |
| Jurisdictions.GetJurisdictionById | src/lib/jurisdictions.ts:137-139 | the lookup by id gives None iff no entry has that id; otherwise a table entry with exactly that id |
| Jurisdictions.GetByIdRoundTrip | src/lib/jurisdictions.ts:137-139 | looking up the id of any table entry returns that entry |
| Jurisdictions.NameMatches | src/lib/jurisdictions.ts:143-145 | the name lookup's condition: the lower-cased name includes the lower-cased query, or the id equals that query with each whitespace run turned into `-` |
| Jurisdictions.FindByName | src/lib/jurisdictions.ts:141-147 | over any table, the name search gives None iff no entry matches; otherwise the first matching entry in table order |
| Jurisdictions.GetJurisdictionByName | src/lib/jurisdictions.ts:141-147 | the name lookup gives None iff no entry's lower-cased name contains the lower-cased query and no id equals its dashed form; otherwise the first such table entry |
| Jurisdictions.GetByNameFirst | src/lib/jurisdictions.ts:142-146 | conversely, the first matching table entry is the one returned |
| Jurisdictions.FindByNameLowerCased | src/lib/jurisdictions.ts:144-145 | over any table, the name search gives the same result for a query and for its lower-cased form |
| Jurisdictions.GetByNameLowerCased | src/lib/jurisdictions.ts:144-145 | the name lookup depends on the query only through its lower-cased form |
| Jurisdictions.GetByNameCaseInsensitive | src/lib/jurisdictions.ts:144-145 | two queries differing only in letter case give the same result |
| Jurisdictions.FindByNameEmpty | src/lib/jurisdictions.ts:144 | over any non-empty table, the empty query selects the first entry, since every name contains the empty string |
| Jurisdictions.GetByNameEmpty | src/lib/jurisdictions.ts:142-146 | the empty query returns the first entry, Thurston County |
| Jurisdictions.GetByNameSlugMatchesId | src/lib/jurisdictions.ts:145 | a query whose lower-cased, dashed form is entry `i`'s id always finds an entry at or before `i` |
| PermitTypes.PERMIT_TYPES | src/lib/permit-types.ts:15-124 | the five permit types in their published order, by id, name and category |
| PermitTypes.IdsDistinct | src/lib/permit-types.ts:15-124 | the ids of the permit-type catalogue are pairwise distinct |
| PermitTypes.GetPermitTypeById | src/lib/permit-types.ts:126-128 | the lookup by id gives None iff no entry has that id; otherwise a catalogue entry with exactly that id |
| PermitTypes.GetByIdRoundTrip | src/lib/permit-types.ts:126-128 | looking up the id of any catalogue entry returns that entry |
| PermitTypes.OfCategory | src/lib/permit-types.ts:133 | over any table, the category filter holds exactly the entries of that category, in table order, with each as many times as the table has it |
| PermitTypes.GetPermitTypesByCategory | src/lib/permit-types.ts:130-134 | the result holds exactly the catalogue entries of the category, as a subsequence of the catalogue, with their multiplicities |
| PermitTypes.CategoriesPartition | src/lib/permit-types.ts:5 | for any table, the result lengths over the five categories add up to the table's length |
| PermitTypes.CatalogueByCategory | src/lib/permit-types.ts:15-134 | every catalogue entry is in the result of its own category and of no other, and the five result lengths add up to the catalogue's size |
| PermitTypes.WellAndTreeEmpty | src/lib/permit-types.ts:5-124 | the categories `well` and `tree` give empty results, since no entry carries them |

## Left out

- The wall clock (`new Date()`): the reference instant is the parameter `now`.
- Local-time calendar arithmetic: `setDate(getDate() + n)` moves local
  calendar days, which across a daylight-saving change is not exactly
  `n * 86400000` ms. The model adds `n` whole days of milliseconds.
- Floating point: the division and `Math.ceil` become an exact integer
  ceiling division. Timestamps are treated as unbounded integers, with no
  53-bit limit.
- Invalid dates (`NaN` times) are not modelled, and neither is the sort
  comparator's behaviour on them. A present optional date is `Some`.
- Deadlines.Notice: the `description` text keeps its fixed heading and the
  instant it shows. The locale formatting of that instant
  (`toLocaleDateString`) is left abstract.
- `lastActionAt` is taken by `CalculateDeadlines` and not used, as in the
  code. The `inspection` and `response_due` kinds are declared and never
  produced.
- Text.ToLower: only the letters A to Z are lower-cased. The full Unicode
  case mapping of `toLowerCase` is not modelled.
- Text.IsWhitespace covers the characters of the regular-expression class
  `\s`, by code point. It does not model the regex engine itself.
- The descriptive fields of both tables are not modelled: website, office,
  address, phone, e-mail, appointment data, requirements, processing times,
  documents, fees and notes. No lookup reads them.
- The dashboard page, the property API route, the home page and the layout
  are not part of this model. They are page rendering, HTTP handling and
  database calls, and the dashboard's own flat 30-day urgency count is
  presentation, not engine behaviour.
