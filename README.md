# Internjin offer catalogue, in Dafny

Internjin is a small Flask application for internship listings. Recruiters post offers; students browse them, filter them and look at the companies behind them. Nearly all of `app.py` is routing, ORM access, sessions and file storage. This project models the part that computes something: the in-memory catalogue logic. The store of offers becomes an input sequence. Each operation is a transform of that snapshot. The model has four parts:

- **Offer filter** (`OfferFilter`, for the `/offers` route). For each of location, duration and company there may be a list of selected values. An empty list places no constraint on that dimension. A non-empty list requires the offer's value to be in the list. The selections combine with AND across dimensions and OR within one. The result is ordered newest first by `created_at`.
- **Facets** (`Facets`). These are the option lists of the same page. They are always taken from the *whole* corpus, whatever is selected. Locations and companies are the distinct non-empty values, sorted alphabetically in Python's code-point string order. Durations are the distinct non-empty labels except the legacy `"12 mois"`. They are ordered by the fixed rank table, and a label missing from the table ranks 99. `OffersPage.ListOffers` puts the listing and the options together, as the route hands them to its template.
- **Company aggregation** (`CompanyAggregation`, for the `/companies` route). This is one imperative pass over the offers into a dictionary keyed by company. Each entry holds an offer count, a set of locations and the latest posting date. The dictionary's values are then sorted most recent first. `CompaniesList` is that loop, with its dictionary and its key order as local variables. It is proved against the fold `Aggregate` and against reference definitions (`CountOf`, `LocationsOf`, `IsLatest`).
- **Attachment check** (`Upload.AllowedFile`). A file name is accepted when it has a `.` and the lower-cased text after its last `.` is `pdf`.

Shared pieces live in `OfferModel` (the offer record and the field selector) and `Ordering`. `Ordering` provides a stable insertion sort on an integer key, Python's string order `StrLess`, and `SortedUnique`, which is `sorted(set(xs))`.

Two orders are left open, because the code leaves them open:
- `order_by(Offer.created_at.desc())` has no secondary key. So `FilterOffers` promises only a non-increasing `createdAt`, not an order among equal timestamps.
- `sorted(companies_data.values(), key=..., reverse=True)` sorts on the latest date alone. So `CompaniesList` promises only non-increasing dates, not an order among companies with equal dates.

## Model

| member | source | states |
|---|---|---|
| `OfferFilter.Matches` | app.py:76-81 | the three `IN` filters combined: AND across location, duration and company, an empty selection admitting every value; `FilterOffers`, `FilterIsSound` and `FilterIsComplete` state the listing in terms of it |
| `OfferFilter.Where` | app.py:77-81 | an `IN` refinement keeps each offer whose field is one of the selected values, as often as it occurs, and drops every other offer |
| `OfferFilter.Refine` | app.py:76-81 | an empty selection leaves the query unchanged; a non-empty one keeps exactly the offers whose field is in it |
| `OfferFilter.FilterOffers` | app.py:72-83 | each stored offer is listed as often as it is stored if it meets every active selection, and not at all otherwise; the listing is non-increasing in `createdAt` |
| `OfferFilter.FilterWithoutSelectionListsAll` | app.py:73-83 | with all three selections empty, the listing is the corpus as a multiset, only reordered |
| `OfferFilter.FilterIsSound` | app.py:76-81 | every listed offer is stored, and its value is in each non-empty selection |
| `OfferFilter.FilterIsComplete` | app.py:76-81 | a stored offer that meets every active selection is never dropped, and keeps its multiplicity |
| `OfferFilter.FilterIsIdempotent` | app.py:72-83 | filtering the listing again with the same selections gives the same listing |
| `OfferFilter.WhereKeepsMatching` | app.py:77-81 | refining by a selection that every offer already meets changes nothing |
| `Ordering.InsertByKey` | app.py:83 | inserting into a key-sorted sequence keeps it sorted and adds exactly the inserted element |
| `Ordering.SortByKey` | app.py:83 | the result is sorted by the key and is a permutation of the input |
| `Ordering.SortSortedIsIdentity` | app.py:83 | sorting an already-sorted sequence returns it unchanged |
| `Ordering.StrLess` | app.py:87-88 | Python's `<` on strings as `sorted` uses it: code-point lexicographic, a proper prefix first; the four lemmas below prove it a strict total order |
| `Ordering.StrLessIrreflexive` | app.py:87-88 | no string sorts before itself |
| `Ordering.StrLessAsymmetric` | app.py:87-88 | two strings are never each before the other |
| `Ordering.StrLessTransitive` | app.py:87-88 | Python's string order is transitive |
| `Ordering.StrLessTotal` | app.py:87-88 | any two different strings are ordered one way or the other |
| `Ordering.StrictlySortedHasNoDuplicates` | app.py:87-88 | a strictly sorted list holds no value twice |
| `Ordering.InsertUnique` | app.py:87-88 | adding a value to a strictly sorted list keeps it strictly sorted, and its members are the old ones plus that value |
| `Ordering.SortedUnique` | app.py:87-88 | `sorted(set(xs))` is strictly ascending and holds exactly the values of `xs` |
| `Ordering.StrictlySortedIsUnique` | app.py:87-88 | two strictly sorted lists with the same members are equal, so the option list does not depend on the corpus order |
| `Facets.FieldValues` | app.py:87-88 | the generator yields exactly the non-empty stored values of the field |
| `Facets.SortedFacet` | app.py:87-88 | `sorted(set(...))` over a field is strictly sorted and holds exactly its non-empty stored values |
| `Facets.UniqueLocations` | app.py:86-87 | the location options are strictly sorted, have no duplicates, and are exactly the non-empty locations of the whole corpus |
| `Facets.UniqueCompanies` | app.py:86-88 | the company options are strictly sorted, have no duplicates, and are exactly the non-empty companies of the whole corpus |
| `Facets.DurationRank` | app.py:91-106 | a rank lies between 1 and 99, and it is 99 exactly for labels missing from the table |
| `Facets.DurationRankTable` | app.py:91-99 | "1 an" and "12 mois" rank 12, "1 mois" 1, "3 mois" 3, "6 mois" 6, "9 mois" 9, "2 ans" 24, and an unknown label 99 |
| `Facets.Distinct` | app.py:101 | `set(...)` keeps every value of the input exactly once and nothing else |
| `Facets.Without` | app.py:105 | the list comprehension removes every occurrence of the excluded label and keeps every other element as often as before |
| `Facets.UniqueDurations` | app.py:101-107 | the duration options never contain "12 mois", contain every other non-empty stored label exactly once and nothing else, and are non-decreasing in rank |
| `OffersPage.ListOffers` | app.py:65-116 | the listing holds each matching stored offer as often as it is stored and nothing else, newest first; the location and company options are strictly sorted and are exactly the non-empty stored values; the duration options leave out "12 mois", hold every other non-empty stored label once and nothing else, by ascending rank; all options come from the whole corpus, so hidden offers still contribute; the selections are passed through |
| `OffersPage.OptionsIgnoreSelection` | app.py:85-88 | the three option lists are the same whatever the selections are |
| `CompanyAggregation.AddOffer` | app.py:130-141 | one iteration of the loop body as a value; through `Aggregate`, `AggregateKeys` and `AggregateEntry` prove that repeating it gives one entry per company with the correct count, locations and latest date |
| `CompanyAggregation.Aggregate` | app.py:129-141 | the dictionary after the loop, as a fold of `AddOffer`; `AggregateKeys` proves its keys are exactly the companies, and `AggregateEntry` proves each entry is that company's correct summary |
| `CompanyAggregation.AggregateStep` | app.py:129-141 | the loop body (create the entry on first sight, count the offer, add its location, keep the later date) extends the dictionary as the fold prescribes |
| `CompanyAggregation.CountOfAbsent` | app.py:129-138 | a company with no offers has count 0 |
| `CompanyAggregation.AggregateKeys` | app.py:129-136 | the dictionary has exactly one key per company of the offers |
| `CompanyAggregation.AggregateEntry` | app.py:129-141 | each entry is keyed by its company name; its count is the number of that company's offers, its locations are exactly their locations, and its date is the maximum of their `createdAt` |
| `CompanyAggregation.AggregateIsCorrect` | app.py:129-141 | both of the above, for every company at once |
| `CompanyAggregation.SummaryIsDetermined` | app.py:129-141 | a company has only one correct summary |
| `CompanyAggregation.StepKeepsInvariant` | app.py:129-141 | one pass of the loop keeps the fold, the list of keys in insertion order and the running total of counts |
| `CompanyAggregation.Entries` | app.py:144 | `companies_data.values()` in insertion order: one value per key of the order list, the value stored under that key |
| `CompanyAggregation.SumCountsSort` | app.py:144 | sorting the summaries does not change the sum of their counts |
| `CompanyAggregation.ListingIsCorrect` | app.py:143-144 | the sorted dictionary values meet the contract of `CompaniesList` |
| `CompanyAggregation.CompaniesList` | app.py:123-146 | exactly one summary per distinct company; each summary is that company's correct count, location set and latest date; the counts sum to the number of offers; the list is non-increasing in latest date |
| `Upload.LastDot` | app.py:21 | the position found holds a "." and no "." comes after it |
| `Upload.Extension` | app.py:21 | `rsplit('.', 1)[1]` is the dot-free text after the last "." |
| `Upload.AllowedFile` | app.py:19-21 | a name without a "." or ending in "." is refused |
| `Upload.AllowedFileIsPdfSuffix` | app.py:19-21 | a name is accepted if and only if it ends in "." followed by p, d, f in any mix of cases |

## Left out

- Flask routing, templates, redirects, flash messages, the request arguments and the session. This covers `set_language`, `switch_role`, `inject_globals` and the other handlers. It is web plumbing; the selections come in as parameters instead.
- SQLAlchemy and SQLite: queries, `db.session` writes, `get_or_404`. The store is modelled only as the sequence of offers it returns. The `ORDER BY` and `IN` clauses are modelled by `SortByKey` and `Where`.
- File saving and removal under the upload folders, and `os.makedirs`. This is filesystem I/O; only the name check `allowed_file` is modelled.
- `secure_filename`, `generate_password_hash` and `check_password_hash`. These are library calls.
- The `.title()` canonicalisation of locations on create and edit. It depends on Unicode casing in the library, and it runs at write time, outside the catalogue.
- `datetime.utcnow` and `time.time()`. `createdAt` is an opaque integer fixed by the store.
- models.py is not part of this model beyond the columns in `OfferModel.Offer`. Login, registration, and the role and ownership guards are left out too. They are session checks wired to Flask-Login.
- OfferFilter.FilterOffers: does not promise any order among offers with equal `createdAt`, because the query has no secondary key. The model's stable sort picks one order, and no contract depends on it.
- Facets.UniqueDurations: does not promise any order among labels of equal rank, because in the source that order comes from iterating a Python set. The model uses first-appearance order, and no contract depends on it.
- CompanyAggregation.CompaniesList: does not promise any order among companies with equal latest dates. Python's stable sort keeps insertion order there, and the model's sort does the same, but the contract does not say so.
- Upload.Lower: folds only ASCII letters, where Python's `str.lower` folds every cased letter. In Unicode's case mappings no character outside ASCII lower-cases to "p", "d" or "f", so the answer of `AllowedFile` is unaffected.
- Nullable columns: every text field is a non-null string, and "no value" is the empty string. That is the only falsy value the facet code can meet, given the columns' `nullable=False`.
