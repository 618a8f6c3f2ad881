# Identity resolution: the `identify` handler

This project models the identity-resolution handler of a small contact
service, together with proofs about it. A request carries an optional email
and an optional phone number. The handler works on a table of contact
records. Each record is either a *primary* or a *secondary* that links to a
primary through `linkedId`.

One call does the following, in order:

1. It rejects a request with neither identifier.
2. It finds the records that share the email or the phone.
3. If none does, it stores the request as a new primary.
4. Otherwise it grows the matched ids to a fixed point by following `id`/`linkedId` links.
5. It fetches that cluster ordered by creation time and takes the oldest record as the primary.
6. It re-points every other member at that primary.
7. It adds one secondary record when the request carries an email or phone no member holds.
8. It answers with the primary id, the distinct emails and phone numbers (primary's first), and the other members' ids.

Layout:

- `contacts.dfy` (module `Contacts`): the record, the table `map<Id, Contact>`, JavaScript truthiness of
  an optional string (`Present`, `Normalize`), the response and the state.
- `matching.dfy` (`Matching`): the direct-match OR query and the novelty test.
- `closure.dfy` (`Closure`): the component search. It has a pure fixed point `Expand` and the handler's
  `while` loop, `ExpandIds`, which is proved equal to it.
- `ordering.dfy` (`Ordering`): `ORDER BY createdAt ASC`, with ties broken by id.
- `response.dfy` (`Response`): the response loop, `Summarize`, and the function it computes, `Summary`.
- `resolver.dfy` (`Resolver`): one call as a pure function `Resolve` from state and request to new
  state and outcome.
- `store.dfy` (`ContactStore`): the table as a class `Store` with the fields `contacts` and `nextId`.
  Its method `Identify` runs the handler step by step and is proved to compute `Resolve` exactly.
- `resolver_facts.dfy` (`ResolverFacts`): what one call does, stated about `Resolve` and `Merge`.
- `idempotence.dfy` (`Idempotence`): repeating a request changes nothing.
- `wellformed.dfy` (`WellFormedness`): the link shape of the table is preserved by every call.

Modelling choices:

- The store is an in-memory map. Ids come from a counter `nextId` that starts at 1, as an
  auto-increment column does. A link is therefore never the falsy id 0, and `if (r.linkedId)`
  is the same as "has a link".
- The creation time of a record inserted by a call is the parameter `now`, because the clock is
  outside the model. Idempotence and well-formedness assume `now` is not earlier than any stored
  record (`ClockAhead`).
- `ORDER BY createdAt` leaves ties open. The model breaks them by ascending id, so the cluster order
  is determined. `SortedOrderIsUnique` shows that any order sorted this way is that order.
- The whole call is one atomic method. The transaction around the handler is what justifies this.
- The closure follows links only. The handler expands through `id IN set` and `linkedId IN set`
  (src/controllers/identify.controller.ts:53-60), never through the email or phone of records found
  on the way. A record that shares an email with a cluster member but has no link to the cluster is
  therefore not pulled in. The model follows the code.
- There is no error for a non-empty match whose closure is empty. The code has no such check, and the
  model proves the case cannot happen (`Resolver.ClusterOf`: a non-empty match gives a non-empty
  cluster).
- The demotion pass writes every member after the first that is a primary or links elsewhere. The
  code never writes the first member, whatever its state. `WellFormedness.OldestIsPrimary` shows
  that in a well-formed table the first member is always a primary anyway.

## Model

| member | source | states |
|---|---|---|
| Contacts.Normalize | src/controllers/identify.controller.ts:13-14 | an identifier becomes null exactly when it is null or the empty string; otherwise it is kept unchanged |
| Contacts.Listed | src/controllers/identify.controller.ts:40-41 | a present value gives a one-element list holding it; an absent one gives the empty list |
| Matching.Matches | src/controllers/identify.controller.ts:22-23 | defines one clause of the OR query: the request value is present and the record holds it in that field |
| Matching.DirectMatches | src/controllers/identify.controller.ts:19-26 | the direct matches are stored records, and a request with no present identifier matches nothing |
| Matching.AbsentFieldAddsNoClause | src/controllers/identify.controller.ts:19-26 | with one identifier absent, a record is matched exactly when the other identifier is present and the record holds it; a record with a null value for the absent field is never matched through it |
| Matching.IsNew | src/controllers/identify.controller.ts:76-77 | defines `hasNewEmail` and `hasNewPhone`: the request value is present and no member holds it |
| Closure.Related | src/controllers/identify.controller.ts:53-60 | defines the records returned by `id IN set OR linkedId IN set` |
| Closure.Step | src/controllers/identify.controller.ts:53-64 | defines one pass of the loop: the set plus every related record's id and non-null link |
| Closure.Expand | src/controllers/identify.controller.ts:48-65 | defines the search: `Step` repeated from the matches until it adds nothing |
| Closure.ClosedIffStepAddsNothing | src/controllers/identify.controller.ts:51-65 | a pass of the loop adds nothing exactly when the set is closed under `id`/`linkedId` links |
| Closure.StepWithinUniverse | src/controllers/identify.controller.ts:61-64 | a pass never removes an id and adds only stored ids and ids they link to |
| Closure.GrowthShrinksRemainder | src/controllers/identify.controller.ts:51-52 | a pass that grows the set leaves fewer candidate ids to add, so the loop terminates |
| Closure.StepStaysInClosed | src/controllers/identify.controller.ts:53-64 | a pass from inside a closed set stays inside it |
| Closure.ExpandIsClosedSuperset | src/controllers/identify.controller.ts:48-65 | the fixed point contains every direct match, is closed, and adds only stored ids and their links |
| Closure.ExpandIsLeast | src/controllers/identify.controller.ts:48-65 | the fixed point lies inside every closed set that contains the direct matches |
| Closure.AddRelated | src/controllers/identify.controller.ts:61-64 | the inner `for` loop adds exactly the related records' ids and their non-null links |
| Closure.ExpandIds | src/controllers/identify.controller.ts:48-65 | the `previousSize` loop ends with the least closed superset of the matches |
| Ordering.Oldest | src/controllers/identify.controller.ts:74 | a non-empty set of stored ids has a member that comes strictly before every other |
| Ordering.OrderByAge | src/controllers/identify.controller.ts:68-71 | the fetched cluster holds exactly the ids of the set, once each, strictly ordered by creation time then id |
| Ordering.SortedOrderIsUnique | src/controllers/identify.controller.ts:68-71 | any sequence of exactly those ids sorted that way is the fetched order |
| Response.Distinct | src/controllers/identify.controller.ts:115-117 | defines the insertion-ordered `Set`: each value is added at the end unless already present |
| Response.Summary | src/controllers/identify.controller.ts:116-139 | defines the answer: the primary id, the distinct non-empty emails and phones of the primary then of every member, and the member ids other than the primary |
| Response.DistinctShape | src/controllers/identify.controller.ts:116-117 | an insertion-ordered set lists every added value exactly once and starts with the first value added |
| Response.FieldValuesHeld | src/controllers/identify.controller.ts:124-126 | the values added for a field are exactly the non-empty values the records hold |
| Response.WithoutMembers | src/controllers/identify.controller.ts:127-129 | the secondary ids are exactly the members other than the primary |
| Response.SummaryShape | src/controllers/identify.controller.ts:116-139 | the response names the primary, lists no value twice, lists the primary's own value first, lists every non-empty member value and nothing else, and lists every other member id |
| Response.Summarize | src/controllers/identify.controller.ts:116-139 | the response loop computes `Summary` |
| Response.SummarizeMembers | src/controllers/identify.controller.ts:124-130 | from the primary's own values, the member loop ends with the distinct non-empty emails and phone numbers of the primary then every member, and the member ids other than the primary, in order |
| Response.AddMember | src/controllers/identify.controller.ts:125-129 | one pass adds the member's email and phone when present and not yet listed, and its id when it is not the primary |
| Response.DistinctListed | src/controllers/identify.controller.ts:125-126 | adding a record's field to an insertion-ordered set adds its value only when the value is non-empty |
| Resolver.Relink | src/controllers/identify.controller.ts:87-90 | defines the update that makes a record a secondary linked to the oldest member |
| Resolver.NeedsRelink | src/controllers/identify.controller.ts:83 | defines the demotion guard: the record is a primary or links somewhere other than the oldest member |
| Resolver.Relinked | src/controllers/identify.controller.ts:82-96 | defines the table after the demotion pass; it keeps the table's ids |
| Resolver.HasNewInfo | src/controllers/identify.controller.ts:76-77 | defines the novelty test: `hasNewEmail` or `hasNewPhone` holds for the members |
| Resolver.CreatePrimary | src/controllers/identify.controller.ts:28-44 | defines the insert of a new primary under the next id and the answer naming it with its own values |
| Resolver.Grown | src/controllers/identify.controller.ts:112 | defines the members answered for: the cluster, then the new record when one was created |
| Resolver.Merge | src/controllers/identify.controller.ts:74-139 | defines a matched call: relink every member after the oldest, add one secondary when the request is novel, and answer for the members |
| Resolver.Resolve | src/controllers/identify.controller.ts:8-139 | defines one call: reject a request without identifiers, create a primary when nothing matches, otherwise merge the fetched cluster |
| Resolver.ClusterOf | src/controllers/identify.controller.ts:68-71 | the fetched cluster is non-empty for a non-empty match and holds exactly the stored records of the component, once each, oldest first |
| Resolver.RelinkedStep | src/controllers/identify.controller.ts:82-95 | one iteration of the demotion loop relinks one more member and leaves the others as they were |
| ContactStore.Store.Create | src/controllers/identify.controller.ts:104-111 | an insert takes the next id, which was not in use, and changes no other record |
| ContactStore.Store.RelinkMembers | src/controllers/identify.controller.ts:80-100 | the demotion loop makes every member after the first a secondary of the first, and writes exactly the members that were a primary or linked elsewhere |
| ContactStore.Store.AddSecondary | src/controllers/identify.controller.ts:103-112 | when the request is novel, one record is inserted under the next id as a secondary of the oldest member and pushed onto the cluster; otherwise nothing changes |
| ContactStore.Store.MergeCluster | src/controllers/identify.controller.ts:74-139 | the steps after the search compute `Merge` and keep ids below the counter |
| ContactStore.Store.Identify | src/controllers/identify.controller.ts:8-139 | one call computes exactly `Resolve` on the table and keeps ids below the counter |
| ResolverFacts.RejectsOnlyWithoutIdentifiers | src/controllers/identify.controller.ts:8-11 | a call is rejected if and only if neither identifier is present, and a rejected call leaves the table as it was |
| ResolverFacts.NewPrimaryWhenNothingMatches | src/controllers/identify.controller.ts:28-44 | with no match, exactly one record is added under a fresh id, as a primary with no link and the request's present identifiers; the answer names it with its own values and no secondaries |
| ResolverFacts.ClusterFacts | src/controllers/identify.controller.ts:68-74 | a matched request is resolved by merging its fetched cluster, and the first member is older than every other member |
| ResolverFacts.RelinkedShape | src/controllers/identify.controller.ts:80-100 | the demotion pass keeps the table's ids and the oldest member's record, makes every other member a secondary of the oldest, and changes nothing else |
| ResolverFacts.DemotionShape | src/controllers/identify.controller.ts:80-100 | after a merge the oldest member is unchanged, every other member is a secondary linked to it, records outside the cluster are unchanged, and no email, phone or creation time changes |
| ResolverFacts.NoveltyOfNormalized | src/controllers/identify.controller.ts:76-77 | the novelty test holds exactly when the request's email is present and no member holds it, or its phone is present and no member holds it |
| ResolverFacts.CreatesOnlyForNewInfo | src/controllers/identify.controller.ts:103-113 | a merge adds a record if and only if the request is novel; then it adds exactly one, under the next id, a secondary of the oldest member with the request's identifiers |
| ResolverFacts.ResponseShape | src/controllers/identify.controller.ts:116-139 | a merge answers with the oldest member as primary, the other members' ids in cluster order with a new record last, and for each field every non-empty member value exactly once, the primary's first |
| ResolverFacts.SummaryOfMembers | src/controllers/identify.controller.ts:116-139 | for a cluster whose head is listed once, the answer names the head as primary, the rest as secondaries in order, and each non-empty member value exactly once, the head's first |
| ResolverFacts.WithoutHead | src/controllers/identify.controller.ts:127-129 | dropping the primary's id from a cluster that lists it once, first, leaves the rest in order |
| Idempotence.CreateRepeats | tests/identify.test.ts:29-45 | after a request created a new primary, repeating it finds that record alone, writes nothing and answers the same |
| Idempotence.MergeRepeats | tests/identify.test.ts:152-165 | after a request merged a cluster, repeating it finds the same members in the same order, creates and writes nothing and answers the same |
| Idempotence.RepeatChangesNothing | tests/identify.test.ts:152-165 | repeating any request with no write in between leaves the table as it is and returns the same outcome |
| Idempotence.MembersInOrder | src/controllers/identify.controller.ts:68-71 | after a merge the members, with a new record last, are still stored, distinct and sorted by creation time then id |
| Idempotence.SearchReachesAll | src/controllers/identify.controller.ts:48-65 | after a merge every member, including a new record, is reached again from the request's matches |
| Idempotence.SearchStaysInside | src/controllers/identify.controller.ts:48-65 | after a merge the search from the request's matches finds no record outside the members |
| WellFormedness.OldestIsPrimary | src/controllers/identify.controller.ts:74 | in a well-formed table the first member of a fetched cluster is a primary with no link |
| WellFormedness.MergeKeepsWellFormed | src/controllers/identify.controller.ts:80-113 | a merge keeps every secondary linked directly to an older stored primary, and leaves the oldest member the only primary among the members |
| WellFormedness.SettledKeepsWellFormed | src/controllers/identify.controller.ts:80-113 | when the oldest member is a primary older than the other members and no outsider links into the cluster, the merged table is well formed and the oldest is the only primary member |
| WellFormedness.CreateKeepsWellFormed | src/controllers/identify.controller.ts:28-36 | storing a new primary keeps the table well formed |
| WellFormedness.ResolveKeepsWellFormed | src/controllers/identify.controller.ts:8-139 | every call keeps the auto-increment invariant and the link shape of the table |

## Left out

- HTTP transport is left out: Express routing, body parsing, status codes and JSON encoding (src/controllers/identify.controller.ts:1-6, 142-146). The 400 answer is the outcome `InvalidInput`. A successful answer is `Resolved`.
- The 500 path and error logging are left out. They happen only when the database fails, and the database is not modelled.
- The Prisma client, the connection pool, configuration loading, and the health and root endpoints are left out. They are library and transport plumbing.
- Concurrency is left out: transaction isolation, concurrent requests, and the concurrent `Promise.all` of the updates. The updates are applied one after another inside one atomic call.
- `String(...)` coercion of non-string inputs is left out. Identifiers are optional strings.
- The database clock is left out. `createdAt` of a record inserted by a call is the parameter `now` of `Identify`.
- Idempotence.RepeatChangesNothing: holds only when the first call's `now` is not earlier than any stored record. This is the database clock's behaviour, but the model does not derive it.
- WellFormedness.ResolveKeepsWellFormed: has the same condition on `now`.
