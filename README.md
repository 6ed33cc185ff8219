# Members API queries: creation-error reclassifier, CSV import tally, read check

This project models the query logic of the Ghost members API controller
(`core/server/api/canary/members.js`) in Dafny and proves properties of it:

- `add.query` calls the members service's `create`. A successful create resolves
  with the member. A falsy member also resolves, with `undefined`. A rejected create
  passes through a reclassifier. An error with a truthy `code` and a lower-cased
  `message` that contains `"unique"` becomes a `ValidationError` saying that the
  member already exists. Every other error is rejected again unchanged.
- `read.query` rejects with `NotFoundError` when the looked-up member is absent.
  Otherwise it returns that member.
- `importCSV.query` turns every parsed CSV row into a one-member `add` request and
  runs all of them to completion (Bluebird's `.reflect()`). It then counts each
  outcome into `imported`, `duplicates` or `invalid` and returns
  `{meta: {stats: {imported, duplicates, invalid}}}`.

Layout:

- `text.dfy` (module `Text`) holds the two JavaScript string built-ins the
  reclassifier uses: `toLowerCase`, on ASCII letters only, and `indexOf`.
- `members.dfy` (module `Members`) holds the errors, the requests, the three
  queries and the lemmas about the import tally. Four helpers there stand for
  specific source lines and appear only inside other members' contracts:
  `CreateRequest` is the `create` call of lines 70-73, `ImportRequest` the
  per-row `add` frame of lines 171-181, `Attempts` the `result.map(...)` of
  lines 168-182, and `Classify` the three-way branch of lines 184-192.

The members service is not part of this model. Its `create` and `get` are
parameters: functions from the request to the settled promise (`Fulfilled(value)`
or `Rejected(error)`). In a batch, the `create` answer may also depend on the row's
index. This lets a row collide with an earlier row of the same file, or with a
member that already exists. `fsLib.readCSV` is not part of this model either: the
import takes its settled result, which is either the parsed rows or a read error.

Line 187 counts every rejection whose reason is a `ValidationError` as a
duplicate, not only the "member already exists" error that line 82 creates. A
`ValidationError` the service raises for any other reason is therefore counted as a
duplicate too. `RowBucket` states this rule as written.

## Model

| member | source | states |
|---|---|---|
| `Text.ToLower` | core/server/api/canary/members.js:81 | `message.toLowerCase()` keeps the length, lower-cases each character in place, and leaves no upper-case ASCII letter |
| `Text.IndexOf` | core/server/api/canary/members.js:81 | `indexOf` returns the first position where the pattern occurs, or -1 exactly when it occurs nowhere |
| `Members.Reclassify` | core/server/api/canary/members.js:80-86 | an error with a truthy code whose lower-cased message contains "unique" somewhere becomes the "member already exists" ValidationError; any other error is returned unchanged |
| `Members.MentionsUniqueIffWindow` | core/server/api/canary/members.js:81 | the lower-cased message contains "unique" exactly when some six consecutive characters of the raw message spell "unique" in any mix of cases |
| `Members.UniqueAnywhereIsDuplicate` | core/server/api/canary/members.js:81-82 | any spelling of "unique" (UNIQUE, Unique, ...) at any position in the message of a coded error yields "member already exists" |
| `Members.ReclassifyIdempotent` | core/server/api/canary/members.js:81-82 | the replacement error carries no code, so reclassifying it again leaves it as it is |
| `Members.Add` | core/server/api/canary/members.js:68-86 | a fulfilled create resolves with its value, and a falsy member resolves as undefined rather than rejecting; a rejected create rejects with "member already exists" on a uniqueness violation and with the original error otherwise |
| `Members.ReadQuery` | core/server/api/canary/members.js:34-42 | a rejected lookup rejects with the same error; an absent member gives the NotFound error; a present member is returned unchanged |
| `Members.ReadNotFoundIffAbsent` | core/server/api/canary/members.js:35-41 | when the lookup succeeds, read fails exactly when the member is absent, and then with a NotFoundError |
| `Members.ImportCreateCall` | core/server/api/canary/members.js:171-181 | each row reaches `create` as a one-member list holding only the row's email and name; because `send_email: false` sits at `options.options`, the `sendEmail` that lines 70-72 forward reads undefined and is never true |
| `Members.ImportCSV` | core/server/api/canary/members.js:158-205 | a failed read rejects with its error and produces no stats; otherwise the result is exactly `{meta: {stats}}`, with stats the tally of every row's outcome, and the three counters add up to the number of rows |
| `Members.TallyConservation` | core/server/api/canary/members.js:183-193 | every outcome increments exactly one counter: imported + duplicates + invalid equals the number of outcomes |
| `Members.CountOrderIndependent` | core/server/api/canary/members.js:168-193 | each counter depends only on the multiset of outcomes, not on their order |
| `Members.TallyOrderIndependent` | core/server/api/canary/members.js:168-193 | the three counters agree on any reordering of the outcomes: two outcome lists that are permutations of each other give the same stats |
| `Members.AllFulfilledAllImported` | core/server/api/canary/members.js:183-186 | when every attempt is fulfilled, imported equals the number of rows and the other two counters are 0 |
| `Members.RowBucket` | core/server/api/canary/members.js:183-192 | a row counts as imported when `create` fulfilled, even with a falsy member; as a duplicate when `create` rejected with a uniqueness violation or with any ValidationError; as invalid otherwise |
| `Members.FalsyMemberImported` | core/server/api/canary/members.js:75-79 | a create answering with a falsy member still yields a fulfilled attempt, which the import counts as imported |

## Left out

- `browse`, `edit`, `destroy` and `exportCSV` only forward their frame to the members service (lines 21-23, 104-107, 124-128, 148-150). The service is not part of this model, so they are left out.
- The export file name at lines 135-138 depends on the wall clock (`new Date()`), so it is left out.
- `fsLib.readCSV` is file I/O. The import takes its settled result instead. The regular-expression column lookup at line 166 is not modelled.
- Concurrency: the `add.query` calls built by `result.map` (lines 168-182) run concurrently. `Promise.all` still returns their inspections in row order, and `.each` (line 183) folds them one at a time in that order. The model computes every attempt and folds the outcomes in row order, just as the source does. It does not model the interleaving of the concurrent creates inside the members service.
- The declarative `options`, `validation`, `permissions`, `headers` and `statusCode` blocks are applied by the API framework, not by `query`. The import calls `query` directly, so it skips them.
- `common.i18n.t` lookups are constant strings. Their text stands in for the translations.
- Text.ToLower: lower-cases ASCII letters only. JavaScript's `toLowerCase` also folds non-ASCII letters.
- Members.Reclassify: the error's message is always a string. In JavaScript, an error with a truthy `code` and no `message` would make line 81 throw a TypeError instead.
- Members.Add: a falsy member is one value (`None`). The distinction between `null`, `undefined` and other falsy values is not kept.
- Members.Reclassify: a rejection reason that is not an error object is not modelled. If `create` rejects with `null` or `undefined`, reading `error.code` at line 81 throws a TypeError. A primitive reason is re-rejected as it is. Either way the import counts that row as invalid.
- Object identity of a re-rejected error is modelled as equality of its class, code and message.
