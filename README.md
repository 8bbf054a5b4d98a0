# Point-of-sale tracker core, modelled in Dafny

This project models the backend core of a festival point-of-sale tracker.
An **event** owns **selling points**, a selling point owns payment terminals
(**EPTs**), and **transactions** are recorded against all three. The model
covers three parts:

- **Schema** (`models.dfy`, module `Models`). It holds the four records and
  the `EPTProvider` enum, and keeps the database as one sequence of rows per
  table, in insertion order. The store invariant `Consistent` collects what the
  schema declares:
  - unique primary keys and unique event names;
  - the unique `(source, source_row_hash)` pair;
  - foreign keys that resolve;
  - the widths `String(3)` for `currency` and `String(4)` for `card_last4`.

  The five `cascade="all, delete-orphan"` relationships combine into three
  delete cascades, one per deletable record. Each cascade is a function on the
  database state, proved to keep the invariant and to remove exactly the rows
  below the deleted one.
- **Events API** (`events.dfy`, module `Events`). A `Store` class has one
  `seq` field per table, and its methods are the CRUD handlers. Each
  handler's ownership check gives `NotFound` and no change. PATCH applies only
  the fields the client sent. Each delete equals the cascade. A storage-level
  insert of a transaction honours the declared constraints. The event summary
  is a method whose loop builds the summary tree from the two grouped sums.
  The summary sits over the specification functions of `aggregation.dfy`
  (module `Aggregation`):
  - each total equals the sum over the event's transactions, and is 0 when
    there are none;
  - there is one node per selling point and one per terminal, in table order;
  - other events never contribute;
  - when the event's transactions name its own selling points (terminals),
    the selling-point totals (all terminal totals of the tree) add up to the
    event's total;
  - a newly stored transaction moves exactly its own two totals.
- **Parsers** (`parsers.dfy`, module `Parsers`). It models the mock Worldline
  parser's `sniff` and its `parse` over already-split rows, and the registry.
  - The fingerprint input is the six raw values joined with `|`, in a fixed
    order. Equal raw values give equal hashes.
  - With `|`-free values the join is injective. A concrete pair of rows shows
    that a `|` inside a value gives a collision.
  - `int()` is modelled on sign-and-digit text, with a round trip against the
    decimal form.
  - A parse yields the candidates of the rows it reads, in row order, and ends
    at the first failing row.

SHA-256 and `datetime.fromisoformat` are parameters of the parse functions
and are not interpreted. Record ids (`uuid4` defaults) are parameters of the
create methods.

`parsers.py` builds a `TransactionIn` from `schemas`, and the `schemas.py` of
this repository does not define it. `Parsers.Candidate` takes its fields from
the keyword arguments the parser passes (app/backend/parsers.py:49-57). Any validation `TransactionIn` might
perform is not modelled.

On three points the code may not do what a reader expects; the model follows
the code:
- The code declares no constraint that a transaction's selling point belongs
  to its event, or its terminal to its selling point, so `Consistent` does not
  require it. `SummaryConservesTotal` and `SummaryConservesEptTotals` take such an
  agreement as a precondition.
- `card_last4` is a column of at most four characters, not exactly four.
- The code reads the `ept` column unconditionally, so a row without it fails
  like any other missing column.

Under the default SQLite database URL, foreign keys and `String(n)` widths
are not enforced by the engine. The model states the schema as declared.

## Model

| member | source | states |
|---|---|---|
| Models.ProviderFromValue | app/backend/models.py:19-22 | exactly the three values `worldline`, `sumup`, `other` name a provider, and the provider found has that value |
| Models.ProviderRoundTrip | app/backend/models.py:19-22 | every provider is found again from its stored value |
| Models.CurrencyColumn | app/backend/models.py:89 | a new transaction's currency is the given one, or `CHF` when none is given |
| Models.SellingPointsOf | app/backend/models.py:33-35 | an event's selling points are exactly the table's rows with that `event_id` |
| Models.EptsOf | app/backend/models.py:51-53 | a selling point's terminals are exactly the table's rows with that `selling_point_id` |
| Models.NoChildrenOfMissingParent | app/backend/models.py:45 | in a consistent database an absent event has no selling points and an absent selling point has no terminals |
| Models.AddEventKeepsConsistent | app/backend/models.py:28-29 | appending an event with an unused id and an unused name keeps every constraint |
| Models.AddSellingPointKeepsConsistent | app/backend/models.py:44-45 | appending a selling point with an unused id under an existing event keeps every constraint |
| Models.AddEptKeepsConsistent | app/backend/models.py:62-65 | appending a terminal with an unused id under an existing selling point keeps every constraint |
| Models.AddTransactionKeepsConsistent | app/backend/models.py:78-91 | appending a transaction with an unused id, an unused (source, hash) pair, resolving foreign keys and fitting widths keeps every constraint |
| Models.ReplaceEventKeepsConsistent | app/backend/models.py:28-29 | replacing an event in place with one of the same id whose name no other event has keeps every constraint |
| Models.ReplaceSellingPointKeepsConsistent | app/backend/models.py:44-45 | replacing a selling point in place, keeping its id and event, keeps every constraint |
| Models.ReplaceEptKeepsConsistent | app/backend/models.py:62-65 | replacing a terminal in place, keeping its id and selling point, keeps every constraint |
| Models.PruneKeepsConsistent | app/backend/models.py:33-38 | removing a set of rows that is closed under ownership keeps every constraint and leaves exactly the other keys |
| Models.OwnedSellingPointIdsExact | app/backend/models.py:33-35 | the ids collected for an event are exactly those of its selling points |
| Models.OwnedEptIdsExact | app/backend/models.py:51-53 | the ids collected for a set of selling points are exactly those of their terminals |
| Models.DeleteEventCascadeSound | app/backend/models.py:33-38 | deleting an event keeps the constraints and removes exactly the event, its selling points, their terminals and every transaction of the event or under those rows |
| Models.DeleteSellingPointCascadeSound | app/backend/models.py:51-56 | deleting a selling point keeps the events, keeps the constraints, and removes exactly it, its terminals and every transaction under them |
| Models.DeleteEptCascadeSound | app/backend/models.py:70-72 | deleting a terminal leaves events and selling points as they were and removes exactly it and its transactions |
| Aggregation.GroupedSumsAgree | app/backend/routers/events.py:148-164 | the grouped sum looked up with default 0 equals the sum of the event's amounts for that key |
| Aggregation.GroupedSumsKeys | app/backend/routers/events.py:148-164 | a key has a group exactly when some transaction of the event carries it |
| Aggregation.TotalOfAbsentKey | app/backend/routers/events.py:172 | a key no transaction of the event carries totals 0 |
| Aggregation.TotalOfOwnTransactions | app/backend/routers/events.py:153 | a total over the log equals the total over the event's own transactions |
| Aggregation.SummaryShape | app/backend/routers/events.py:166-185 | the tree echoes the event id and has one node per selling point of the event in table order. Each node has that selling point's id, name and total, and one node per terminal with its id, label and total. No selling points gives an empty list |
| Aggregation.SummaryCoversCatalogue | app/backend/routers/events.py:167 | with unique selling-point ids, every selling point of the event has a node, and no two nodes share an id |
| Aggregation.SummaryOfQuietEvent | app/backend/routers/events.py:172-180 | an event without transactions has every total 0 and every terminal still listed |
| Aggregation.SummaryIgnoresOtherEvents | app/backend/routers/events.py:153 | the tree is the same when every other event's transactions are removed |
| Aggregation.TotalOfAppend | app/backend/routers/events.py:151 | one more transaction adds its contribution to a total |
| Aggregation.SummaryAfterInsert | app/backend/routers/events.py:148-183 | storing one more transaction changes only the totals of its own selling point and terminal in its own event's tree, each by its amount |
| Aggregation.TotalsConserved | app/backend/routers/events.py:148-155 | the totals of distinct keys that cover every transaction of the event add up to the event's total |
| Aggregation.SummaryConservesTotal | app/backend/routers/events.py:148-185 | when the event's transactions name its selling points, the selling-point totals of the tree add up to the sum of all its amounts |
| Aggregation.TreeEptIds | app/backend/routers/events.py:166-175 | in a consistent database no terminal id occurs twice in an event's tree |
| Aggregation.TerminalInTree | app/backend/routers/events.py:167-175 | every terminal of every selling point of the event appears in the tree |
| Aggregation.SummaryConservesEptTotals | app/backend/routers/events.py:157-175 | when each transaction of the event names a terminal of one of its selling points, all terminal totals of the tree add up to the sum of the event's amounts |
| Events.PatchEvent | app/backend/routers/events.py:39-40 | the id is kept, each supplied field takes the new value and each unsupplied field keeps the old one |
| Events.PatchSellingPoint | app/backend/routers/events.py:79-80 | the id and event are kept, each supplied field takes the new value and each unsupplied field keeps the old one |
| Events.PatchEpt | app/backend/routers/events.py:119-120 | the id and selling point are kept, each supplied field takes the new value and each unsupplied field keeps the old one |
| Events.PatchLaws | app/backend/routers/events.py:39-40 | an empty patch changes nothing and applying a patch twice equals applying it once |
| Events.Store.constructor | app/backend/models.py:25-97 | an empty database satisfies the constraints |
| Events.Store.ListEvents | app/backend/routers/events.py:12-14 | every event, in the model's table order (the query fixes none) |
| Events.Store.GetEvent | app/backend/routers/events.py:26-31 | an event comes back exactly when its id exists, and it carries that id; otherwise not found |
| Events.Store.CreateEvent | app/backend/routers/events.py:17-23 | the event is appended and returned exactly when its id and name are unused; otherwise a conflict and no change. Constraints kept |
| Events.Store.UpdateEvent | app/backend/routers/events.py:34-43 | an unknown id gives not found. A patched name held by another event gives a conflict. Otherwise the event is replaced in place by the patched one. Other tables and rows are unchanged; constraints kept |
| Events.Store.DeleteEvent | app/backend/routers/events.py:46-53 | an existing event is deleted with its cascade; an unknown id gives not found and no change. Constraints kept |
| Events.Store.ListSellingPoints | app/backend/routers/events.py:57-59 | exactly the selling points with that event id, in the model's table order (the query fixes none), and none for an unknown event |
| Events.Store.CreateSellingPoint | app/backend/routers/events.py:62-71 | not found for an unknown event, a conflict for a used id, otherwise the selling point under the path event is appended. Constraints kept |
| Events.Store.UpdateSellingPoint | app/backend/routers/events.py:74-83 | not found, with no change, unless the selling point exists and belongs to the path event; otherwise replaced in place by the patched one. Other tables unchanged |
| Events.Store.DeleteSellingPoint | app/backend/routers/events.py:86-93 | deleted with its cascade exactly when it exists and belongs to the path event; otherwise not found and no change |
| Events.Store.ListEpts | app/backend/routers/events.py:97-99 | exactly the terminals with that selling-point id, in the model's table order (the query fixes none), and none for an unknown selling point |
| Events.Store.CreateEpt | app/backend/routers/events.py:102-111 | not found for an unknown selling point, a conflict for a used id, otherwise the terminal under the path selling point is appended. Constraints kept |
| Events.Store.UpdateEpt | app/backend/routers/events.py:114-123 | not found, with no change, unless the terminal exists and belongs to the path selling point; otherwise replaced in place by the patched one. Other tables unchanged |
| Events.Store.DeleteEpt | app/backend/routers/events.py:126-133 | deleted with its transactions exactly when it exists and belongs to the path selling point; otherwise not found and no change |
| Events.Store.InsertTransaction | app/backend/models.py:75-93 | the row is stored exactly when its id and (source, hash) pair are unused, its three foreign keys resolve and its strings fit their widths. The currency defaults to `CHF`. A used id is a conflict, a repeated pair a duplicate, and a refusal changes nothing |
| Events.Store.GetSummary | app/backend/routers/events.py:137-185 | not found for an unknown event; otherwise the tree of `Summarize`, built by the loop from the two grouped sums |
| Parsers.Sniff | app/backend/parsers.py:22-32 | true exactly when each of the six expected names occurs in the header |
| Parsers.SniffDependsOnNamesOnly | app/backend/parsers.py:32 | only which names occur matters: order, duplicates and extra columns do not |
| Parsers.LookupParser | app/backend/parsers.py:60 | a parser is registered exactly under `mock_worldline`, and its name is that key |
| Parsers.RawFields | app/backend/parsers.py:38-46 | the raw values of the columns in order when all are present; otherwise the first missing column |
| Parsers.FingerprintInput | app/backend/parsers.py:38-47 | a fingerprint input exists exactly when the six columns are present |
| Parsers.FingerprintLayout | app/backend/parsers.py:38-47 | the fingerprint input is the raw texts of selling_point, ept, amount_cents, currency, occurred_at and card_last4, in that order, separated by single pipe characters |
| Parsers.RawFieldsAgree | app/backend/parsers.py:38-46 | rows that agree on the columns give the same raw values, or the same error |
| Parsers.JoinInjective | app/backend/parsers.py:38 | joining with the pipe character is injective on lists with the same number of parts when no part but the last contains one |
| Parsers.FingerprintInputInjective | app/backend/parsers.py:38-47 | when the first five values contain no pipe character, rows with the same fingerprint input agree on all six columns |
| Parsers.FingerprintCollision | app/backend/parsers.py:38-47 | two rows that differ in `selling_point` and `ept` share a fingerprint input when a value contains a pipe character |
| Parsers.ParseInt | app/backend/parsers.py:52 | a result exists exactly for all-digit text or a sign followed by digits; digits read as their decimal value, and a leading `-` negates it |
| Parsers.ShowNatValue | app/backend/parsers.py:52 | the decimal form of a natural number reads back as that number |
| Parsers.ParseShowInt | app/backend/parsers.py:52 | `int` reads back the decimal form of every integer |
| Parsers.ParseRow | app/backend/parsers.py:37-57 | a row parses exactly when the six columns are present, the amount is an integer and the timestamp parses. The texts pass through unchanged, the amount is its integer value, and the hash is SHA-256 of the fingerprint input. A missing column gives a missing-column error |
| Parsers.ParseRowDeterministic | app/backend/parsers.py:38-48 | rows with the same six raw values parse to the same candidate, hash included |
| Parsers.ParseRows | app/backend/parsers.py:37-57 | the candidates are those of the leading rows, in row order. With no failure there is one per row; otherwise the next row fails with the reported error |
| Parsers.ParseEveryRow | app/backend/parsers.py:37-57 | when every row parses there is exactly one candidate per row, in row order, and no failure |
| Parsers.Parse | app/backend/parsers.py:34-57 | `parse` of the mock Worldline parser is the row-by-row run of `ParseRows` |

## Left out

- HTTP routing, dependency injection, response models and status codes: errors are the values of `ApiError`.
- Sessions, commit, refresh and eager loading. Each handler is one atomic step on the store. A rejected commit is an error result with the store unchanged.
- `Events.Store.UpdateEvent`: a PATCH that reuses another event's name fails in the source at commit with an unhandled integrity error, not a designed response. The model answers `Conflict` and changes nothing.
- `Events.Store.CreateEvent`, `Events.Store.CreateSellingPoint`, `Events.Store.CreateEpt`: ids are generated by `uuid4` in the source. Here they are parameters, and an id already in use gives `Conflict`.
- PATCH bodies that send an explicit `null` for a non-nullable field: a patch field is either supplied with a value or absent.
- `Events.Store.GetSummary`, `Events.Store.ListEvents`, `Events.Store.ListSellingPoints`, `Events.Store.ListEpts`: the queries and relationships carry no `ORDER BY`, so the database fixes no order. The model returns rows in table (insertion) order.
- `Events.Store.InsertTransaction`: the import or ingest endpoint that would call it, and the name-to-id resolution of candidates, are not part of this model: the router at app/backend/routers/events.py defines no import or ingest route.
- The timeline endpoint and its bucketing: the router at app/backend/routers/events.py defines no timeline route.
- `Parsers.ParseInt`: Python's `int()` also accepts surrounding whitespace, `_` digit separators and non-ASCII digits. The model accepts only an optional sign followed by ASCII digits.
- SHA-256 and `datetime.fromisoformat`: parameters of `Parsers.ParseRow`, uninterpreted.
- CSV decoding, UTF-8 and `csv.DictReader`: rows arrive as column-name to text maps. A column that the reader leaves absent or fills with no value (a short row) is absent from the map.
- `Parsers.FingerprintInputInjective`: distinct rows give distinct fingerprint inputs only when the first five values contain no `|`. Distinct inputs give distinct hashes only as far as SHA-256 is collision-free, which is not modelled.
- Latitude and longitude: carried as uninterpreted reals, with no arithmetic.
- Event start and end times: carried and never compared, as in the source.
- Integer widths: amounts are unbounded integers, and the storage engine's integer range is not modelled.
- `schemas.py`, `seed.py`, `db.py`, `main.py`, the tests and the frontend: data shapes, plumbing, I/O and UI.
