# Candidate intake service — a Dafny model

This project models the core of a small recruitment service,
`new-recruitment-api`:

- **POST /candidates** (`CandidatesController.create`). This is a validation
  pipeline whose checks run in a fixed order:
  1. a JavaScript-truthiness presence check over eight required fields;
  2. a non-empty-offers check;
  3. a job-offer existence check that compares row counts;
  4. an INSERT, which fails on a duplicate email;
  5. a best-effort POST of `{firstName, lastName, email}` to a legacy system,
     whose outcome is ignored.
- **GET /candidates** (`getAll`, and `getCandidates` in `db.ts`). This is a
  paginated listing. It defaults `page` to 1 and `limit` to 10, takes
  `offset = (page-1)*limit`, returns `total` over all rows, and turns each row's
  stored offers text back into a list.
- **The database** (`setupDb`, `addCandidate`). The candidates table has a
  UNIQUE email and an AUTOINCREMENT id. The jobOffers table is seeded with ids
  1 to 4.

Files and modules:

- `wrappers.dfy`, module `Wrappers`: `Option`, `Min`, `Max`.
- `types.dfy`, module `Types`: the `Candidate` record of `types.ts`, and the
  request `Body`, in which every property may be absent.
- `offer_codec.dfy`, module `OfferCodec`: `JSON.stringify` and `JSON.parse` of
  the offers column, with the round-trip proof `DecodeEncodeOffers`.
- `db.dfy`, module `Db`: the `Store` class (tables as sequences), the row
  shape, the `IN (...)` query, the `LIMIT/OFFSET` window and the listing.
  `Store.Valid()` is the schema invariant: emails pairwise distinct, ids
  positive and strictly increasing in insertion order, every offers column
  decodable, job-offer ids distinct.
- `candidates_controller.dfy`, module `CandidatesController`: truthiness, the
  specification function `Decide` of the create pipeline, the HTTP responses,
  and the `Controller` class with `Create` and `GetAll`.

`Controller.Create` is imperative, like the handler. It runs the same `for`
loop with early return over the required fields, then the checks, then the
insert, then the legacy call. Its contract ties the result to `Decide` on the
state before the call. It also says what the new state is: on every rejection
the table, the id counter and the legacy-request log are unchanged; on success
exactly one row and one request are appended. `Decide` takes no fetch outcome,
so the legacy system's answer cannot affect the result.

Three behaviours of the code are worth spelling out:

- `[]` is truthy in JavaScript, so a body with `offers: []` passes the presence
  loop and is refused with "Candidate must have at least one offer"
  (`__tests__/create-candidate.test.ts:33-52`, `EmptyOffersPassPresence`).
- The existence check compares the counts with `!==`. The `IN (...)` query
  returns at most one row per distinct submitted id (`OffersInCard`,
  `ElemsCard`), so this is the same as testing for fewer rows than ids.
- The handler awaits `fetch` before it answers 201. The model makes one
  synchronous call and discards its outcome.

## Model

| member | source | states |
|---|---|---|
| `CandidatesController.FirstFalsy` | new-recruitment-api/src/candidates.controller.ts:49-66 | The presence loop stops at a falsy field with every earlier field truthy, or finds none when all from the start position are truthy. |
| `CandidatesController.Truthy` | new-recruitment-api/src/candidates.controller.ts:61 | `!candidate[field]` in JavaScript terms: a missing property, `""` and `0` are falsy, an array never is. `EmptyOffersPassPresence` and `ZeroExperienceIsMissing` prove the two consequences for `create`. |
| `CandidatesController.EmptyOffersPassPresence` | new-recruitment-api/src/__tests__/create-candidate.test.ts:33-52 | A body whose other fields are filled and whose offers are `[]` passes the presence loop and gets NoOffers. |
| `CandidatesController.ZeroExperienceIsMissing` | new-recruitment-api/src/candidates.controller.ts:60-66 | `experienceYears: 0` after four filled fields is refused as the missing field `experienceYears`. |
| `CandidatesController.Decide` | new-recruitment-api/src/candidates.controller.ts:60-122 | Each outcome, as an if-and-only-if. MissingField when a required field is falsy, naming the first one. NoOffers when all are truthy and offers is `[]`. UnknownOffer when some id is not a job offer or an id repeats. DuplicateEmail when the checks pass and the email is stored. Created when the checks pass and the email is new. |
| `CandidatesController.Controller.Create` | new-recruitment-api/src/candidates.controller.ts:46-125 | The result is `Decide` on the prior table, whatever the legacy system does. A rejection leaves the table, the id counter and the legacy log unchanged. Created appends exactly one stored row and one `{firstName, lastName, email}` request. The store invariant is kept. |
| `CandidatesController.Controller.PostToLegacy` | new-recruitment-api/src/candidates.controller.ts:102-114 | Exactly one request is logged, and the call reports whether it threw. |
| `CandidatesController.ResponseOf` | new-recruitment-api/src/candidates.controller.ts:62-122 | Status 201 exactly for Created, 409 exactly for DuplicateEmail, 400 exactly for the three validation rejections. |
| `CandidatesController.ResponsesDiffer` | new-recruitment-api/src/candidates.controller.ts:62-121 | Distinct outcomes get distinct responses: the status or message tells which check refused the body. |
| `CandidatesController.SameEmailIsDuplicate` | new-recruitment-api/src/__tests__/create-candidate.test.ts:54-75 | After a body is created, any body that passes validation with the same email is refused as a duplicate. |
| `CandidatesController.Controller.GetAll` | new-recruitment-api/src/candidates.controller.ts:16-40 | Page and limit default to 1 and 10 when the parameter is NaN or 0, so neither is ever 0. `total` is the row count. For page, limit >= 1 the data are the decoded rows at offsets `(page-1)*limit` onward, `min(limit, max(0, total-offset))` of them. On a valid store the call never fails. |
| `CandidatesController.Controller.constructor` | new-recruitment-api/src/candidates.controller.ts:10-14 | The controller works over the given store, with no legacy requests yet. |
| `CandidatesController.ListedRoundTrip` | new-recruitment-api/src/candidates.controller.ts:87-99 | What create stores, the listing gives back field for field: the insert's id, every submitted column, an empty `notes` as null, and the submitted offers. |
| `CandidatesController.FirstPageOfOne` | new-recruitment-api/src/candidates.controller.ts:17-39 | With one stored candidate, the default first page has total 1 and that one candidate, with its offers decoded. |
| `CandidatesController.IntakeScenario` | new-recruitment-api/src/__tests__/create-candidate.test.ts:54-119 | On a fresh store, a body with offers `[1]` is created (201) even though the legacy call throws. The same email again gets 409 "Candidate with this email already exists". The first page then lists one candidate with offers `[1]`. |
| `Db.Store.Setup` | new-recruitment-api/src/db.ts:7-42 | After setup, the job-offer ids are exactly {1,2,3,4}, the candidates table is empty, the next id is 1, and the invariant holds. |
| `Db.Store.AddCandidate` | new-recruitment-api/src/db.ts:44-59 | The insert succeeds exactly when the email is not stored yet; nothing else is checked. On success one row is appended with the next id. On the constraint error the table and counter are unchanged. Email uniqueness and increasing ids are preserved. |
| `Db.StoredRow` | new-recruitment-api/src/db.ts:54-57 | The row stores `notes` as null exactly when it is absent or empty, and otherwise as given. Its offers text decodes to the submitted list. |
| `Db.OffersInCard` | new-recruitment-api/src/candidates.controller.ts:75-79 | The `IN (...)` query returns one row per distinct submitted id that exists. |
| `Db.ElemsCard` | new-recruitment-api/src/candidates.controller.ts:81 | A list has at most as many distinct values as entries, and exactly as many when no value repeats. |
| `Db.OffersCheck` | new-recruitment-api/src/candidates.controller.ts:75-85 | The count comparison passes exactly when every submitted id is a job offer and none repeats. |
| `Db.OfferIds` | new-recruitment-api/src/db.ts:27-31 | The id set holds exactly the ids of the job-offer rows. |
| `Db.OffersIn` | new-recruitment-api/src/candidates.controller.ts:75-79 | The `SELECT id ... WHERE id IN (...)` query: table rows whose id is submitted, each once, never more rows than the table has. Its count is stated by `OffersInCard`. |
| `Db.EmailTaken` | new-recruitment-api/src/db.ts:18 | Some stored row already has the email, which is when the UNIQUE constraint refuses an insert (`Store.AddCandidate`). |
| `Db.EmailTakenAfterInsert` | new-recruitment-api/src/db.ts:18 | After one more row, an email is taken exactly when it was before or the new row carries it. |
| `Db.DecodeRow` | new-recruitment-api/src/candidates.controller.ts:36-39 | `{...c, offers: JSON.parse(c.offers)}`: it fails exactly when the offers text does not parse, and otherwise keeps every column and replaces the offers text by the parsed list. `ListedRoundTrip` ties it to what create stored. |
| `Db.DecodeRows` | new-recruitment-api/src/db.ts:72-75 | Decoding a page succeeds exactly when every row's offers parse, and then yields one record per row, in order. |
| `Db.Window` | new-recruitment-api/src/db.ts:63-67 | For non-negative limit and offset: `min(limit, max(0, n-offset))` rows, each the row at `offset+k`. A negative offset acts as 0 and a negative limit as no bound, as SQLite defines them. |
| `Db.PageOffset` | new-recruitment-api/src/db.ts:62 | For page, limit >= 1 the offset `(page-1)*limit` is non-negative. |
| `Db.Store.GetCandidates` | new-recruitment-api/src/db.ts:61-77 | `total` is the count of all rows. For page, limit >= 1 the page holds `min(limit, max(0, total-(page-1)*limit))` decoded rows, in table order from the offset. On a valid store the call never fails. |
| `OfferCodec.DecodeEncodeOffers` | new-recruitment-api/src/db.ts:57-74 | `JSON.parse(JSON.stringify(offers))` gives back the same integer list. |
| `OfferCodec.EncodeOffers` | new-recruitment-api/src/db.ts:57 | `JSON.stringify` of the offers: a bracketed text, read back to the same list by `DecodeOffers` (`DecodeEncodeOffers`). |
| `OfferCodec.DecodeOffers` | new-recruitment-api/src/db.ts:74 | `JSON.parse` of the offers text: it only succeeds on a bracketed text, and gives the empty list exactly for `[]`. |
| `OfferCodec.Digits` | new-recruitment-api/src/db.ts:57 | An integer's decimal text is non-empty, all digits, and has no leading zero except for 0 itself. |

## Left out

- Express routing, the JSON body parser, `listen` and process start-up
  (`app.ts`, `index.ts`): these are transport wiring. `ResponseOf` keeps only
  each outcome's status and message.
- The SQLite engine and SQL text: tables are sequences, and each statement is
  the function or method that states its effect. Rows come back in insertion
  order, which is SQLite's storage order for this table. The code does not
  sort.
- The 500 "Database error" answers, for an opaque driver failure in `create`
  and `getAll`: the in-memory store has no such failure. Of `getAll`'s catch,
  only the offers column failing to parse is modelled (`None`). On a valid
  store it cannot happen.
- The `fetch` call itself: the URL (`legacy-api` in the controller,
  `localhost` in the test), headers, timeouts and `console.warn`. The call is a
  logged request with an outcome supplied by the caller.
- Concurrency: calls run one at a time. The uniqueness check and the insert
  form one atomic step, as the UNIQUE constraint makes them.
- The module-level `db` handle: it is a `Store` object given to the controller.
  The controller's own INSERT and `addCandidate` are the same statement, modelled
  once as `Store.AddCandidate`. Likewise `getAll` repeats the queries of
  `getCandidates` and is modelled through it.
- `parseInt` on query strings: page and limit arrive as an optional integer,
  with `None` standing for NaN.
- Request bodies whose properties have the wrong JSON type (a number for
  `firstName`, a string for `offers`): each property is either absent/null or
  of its declared type. Numbers are integers. Fractions, NaN and the 2^53
  precision limit of JavaScript numbers are not modelled.
- `OfferCodec.DecodeOffers`: reads only compact integer arrays. JSON.parse also
  accepts white space, fractions, exponents and nested values. None of these
  can appear in the offers column, since only `EncodeOffers` writes it.
- The `status` union of four literals: nothing enforces it, so it is free text.
- The titles and departments of job offers are seeded. Nothing else reads them.
