# Medicine inventory: a verified model

This project models the logic of the `inventory` Django application, which
keeps a table of medicine stock records:

- `Models` (`models.dfy`): the `Medicine` record with its fields, the choice
  lists of its two coded fields (administration type, count unit), its
  defaults and length limits, its default ordering by name then
  composition, its string form, and the `is_expired` / `is_near_expiry`
  properties. Dates are day numbers, and the current date is a parameter
  `today`, so `timedelta(days=90)` becomes `+ 90`.
- `Admin` (`admin.dfy`): the admin bulk action "Mark selected medicines as
  out of stock". The table is an `array<Medicine>` and the selection is a
  set of primary keys. The action is one parallel assignment, so there is no
  intermediate state in which only part of the selection is updated. It is
  specified by the function `MarkedOutOfStock` on sequences, and the lemmas
  are stated about that function.
- `Views` (`views.dfy`): the medicine list view. It orders all records by
  name and serves them in pages of 20, numbered from 1. Django's paginator
  behaves as follows. An empty list still has one page, which is empty. A
  page number outside `1..NumPages` is a "page not found" response, which
  is `None` here.
- `Wrappers` (`wrappers.dfy`): `Option`.

Text order is character-code lexicographic order, with a proper prefix
first. Choice fields hold the stored code string, as in the database; a
record is `Valid` when each coded field holds one of its codes and every
required `CharField` (name, composition, category) is non-blank and within
its `max_length`; `remarks` may be null or blank.

The list view orders only by name. The list view has no search and no
filter, and the model has no low-stock field. Ties between equal names are left unspecified, because
`order_by('name')` replaces the default name-then-composition ordering.

## Model

| member | source | states |
|---|---|---|
| `Models.ChoicesFitTheirFields` | inventory/models.py:10-49 | every administration code fits in 10 characters and every count code in 20; the defaults `oral` and `tablet` are codes of their choice lists |
| `Models.New` | inventory/models.py:26-64 | a new record takes quantity 0, administration type `oral`, count unit `tablet`, null remarks and equal creation/update timestamps; it is valid exactly when name, composition and category are non-blank and within 200, 255 and 100 characters |
| `Models.Display` | inventory/models.py:71-72 | the string form is the name, then ` (`, then the composition, then `)`, and nothing else |
| `Models.IsNearExpiry` | inventory/models.py:79-88 | near expiry holds exactly when `today <= expirationDate <= today + 90`, and never for an expired record |
| `Models.ExpiringTodayIsNotExpired` | inventory/models.py:74-77 | a record expiring today is not expired (the comparison is strict) and is near expiry |
| `Models.WindowIsInclusive` | inventory/models.py:86-88 | expiry at `today + 90` is near expiry; at `today + 91` it is neither expired nor near expiry |
| `Models.ExactlyOneStatus` | inventory/models.py:74-88 | expired holds exactly when `expirationDate < today`, and every record is in exactly one of: expired, near expiry, expiring after `today + 90` |
| `Models.TextLeReflexive` | inventory/models.py:67 | text order is reflexive |
| `Models.TextLeTotal` | inventory/models.py:67 | any two texts are comparable |
| `Models.TextLeAntisymmetric` | inventory/models.py:67 | texts that precede each other are equal |
| `Models.TextLeTransitive` | inventory/models.py:67 | text order is transitive |
| `Models.DefaultOrderingIsTotalPreorder` | inventory/models.py:66-67 | the `(name, composition)` ordering is reflexive, total and transitive |
| `Models.DefaultTiesShareNameAndComposition` | inventory/models.py:67 | two records tie in the default ordering exactly when they have the same name and the same composition |
| `Admin.MarkedOutOfStock` | inventory/admin.py:47-48 | the table keeps its length; a row's quantity becomes 0 if its key is selected and is unchanged otherwise; every other field of every row keeps its value |
| `Admin.SelectedAreOutOfStock` | inventory/admin.py:47-48 | every selected record has quantity 0 afterwards |
| `Admin.UnselectedAreUnchanged` | inventory/admin.py:47-48 | a record outside the selection is unchanged |
| `Admin.OnlyQuantityChanges` | inventory/admin.py:48 | key, name, composition, codes, category, expiration date, remarks and both timestamps are unchanged (`updatedAt` is not refreshed) |
| `Admin.KeysPreserved` | inventory/admin.py:48 | nothing is added or removed: the same keys stay in the same rows |
| `Admin.PreservesValidity` | inventory/admin.py:48 | a table of valid records stays valid |
| `Admin.SuccessiveActionsCompose` | inventory/admin.py:48 | marking one selection and then another equals one action over their union |
| `Admin.Idempotent` | inventory/admin.py:48 | applying the action twice equals applying it once |
| `Admin.MakeOutOfStock` | inventory/admin.py:47-48 | the table after the single batch assignment is `MarkedOutOfStock` of the table before it |
| `Views.InsertByNamePermutes` | inventory/views.py:15 | inserting a record adds exactly that record |
| `Views.InsertByNameSorted` | inventory/views.py:15 | inserting into a name-sorted list keeps it sorted |
| `Views.SortByNameCorrect` | inventory/views.py:13-15 | the ordered list is a permutation of all records, with names non-decreasing |
| `Views.NamesDetermined` | inventory/views.py:15 | any two results that meet the ordering promise have the same name at every position, so only the order among equal names is unspecified |
| `Views.NumPages` | inventory/views.py:11 | there is at least one page; for `n > 0` records, `20 * (pages - 1) < n <= 20 * pages` |
| `Views.GetPage` | inventory/views.py:11 | a page exists exactly for numbers `1..NumPages`; it holds at most 20 records, exactly 20 before the last page, and at least one when the list is non-empty; page `k` has exactly `min(20 * k, n) - 20 * (k - 1)` records, and record `i` of page `k` is record `20 * (k - 1) + i` of the list |
| `Views.PagesUpToIsPrefix` | inventory/views.py:11 | pages `1..k` laid end to end are the first `min(20 * k, n)` records |
| `Views.PagesPartition` | inventory/views.py:11 | for one fixed ordered list, all its pages laid end to end in page order are the whole list |
| `Views.RecordOnItsPage` | inventory/views.py:11 | record `i` is on page `i / 20 + 1`, at position `i % 20` |
| `Views.ListPage` | inventory/views.py:4-15 | the list view's page `k` exists exactly for `1..NumPages`, and it is page `k` of some ordering of all records by name; it holds at most 20 records, exactly 20 before the last page and at least one when the table is non-empty, is sorted by name, and holds only records of the table |
| `Views.ListPageNamesFixed` | inventory/views.py:11-15 | whichever ordering by name a request uses, page `k` holds the same names in the same positions as the list view's page `k` |
| `Views.RecordOnPageOfOrdering` | inventory/views.py:11-15 | within one ordering of all records by name, every record of the table is on some page |

## Left out

- The clock: `timezone.now()` is a parameter `today`. The source reads the clock twice in `is_near_expiry` (once through `is_expired`), and the two reads could disagree around midnight. A single `today` does not capture that.
- Python's date range (years 1 to 9999): dates are unbounded integers, so the `OverflowError` of `today + timedelta(days=90)` near the last representable date is not modelled.
- `Models.IsExpired`: this predicate has no contract of its own beyond its definition; `ExactlyOneStatus` and `ExpiringTodayIsNotExpired` state its meaning.
- The `auto_now_add` / `auto_now` timestamp mechanics are framework persistence behaviour. `createdAt` and `updatedAt` are plain fields, set by `New` and kept by the bulk action. Django reads the clock once per field, so the two timestamps of a new record usually differ by microseconds. The equal timestamps in `Models.New` simplify this.
- Database collation: the database orders text according to its collation. That is modelled as character-code order. Strings are `seq<char>` with `char` a Unicode scalar value, so `max_length` counts code points, as Python's `len` does. Lone surrogates, which Python strings can hold, are not modelled.
- The upper bound the database places on a `PositiveIntegerField`: quantities are unbounded naturals.
- Field validation order and error messages, which come from Django's form machinery: `Valid` states only the constraints the field declarations impose.
- The admin presentation settings (`list_display`, `list_filter`, `search_fields`, `fieldsets`, `readonly_fields`): they are declarative configuration, and their search and filter code lives in Django, which is not part of this model.
- The label half of each choice pair is kept in the choice lists, but nothing in the model displays it.
- URL routing (`inventory/urls.py`), templates, HTTP, and the parsing of the `page` request parameter, including the word `last` and non-numeric values: the page number arrives as an integer.
- Database persistence, transactions and the atomicity of `QuerySet.update`. The batch is one parallel assignment, so partial application cannot occur in the model, but failure of the database is not represented.
- Views.ListPage: each page is a separate request, and each request runs its own `ORDER BY name` query with `LIMIT 20 OFFSET 20 * (k - 1)`. SQL fixes no order among equal names, and a database may order ties differently for different offsets. So records whose names tie across a page boundary can appear on two pages or on none. The contract promises only that each page comes from some ordering by name, and `ListPageNamesFixed` shows that the names on each page are still fixed. `PagesPartition` and `RecordOnPageOfOrdering` hold within one fixed ordering, which the database does not promise across requests.
- Primary keys: the model does not require them to be unique. Every lemma holds for any table, and `id` is the key Django adds to every model.
