# Contact identity consolidation: the `/identify` handler

This project models the `POST /identify` handler of a contact-consolidation service. A request
carries an optional email and an optional phone number. The handler:

- finds every stored contact that shares either value;
- picks one of them as the anchor ("primary contact"): the first primary, else the oldest match;
- creates a new primary when nothing matches;
- otherwise demotes every other matching primary to a secondary of the anchor, and writes a new
  secondary when the request carries information the matching rows do not;
- answers with the anchor's id, the distinct emails and phone numbers of the anchor's cluster
  and the ids of its secondary rows.

The model has four parts:

- `contact.dfy`, module `Contacts`: the contact row, the response, JavaScript truthiness and
  `===` on optional strings, and the table queries (`findMany` filtered and ordered by creation,
  `update` of one row's linkage). Request fields and stored columns are `Option<string>`:
  `None` is an absent field (undefined) or a null column, `Some("")` is an empty string.
- `consolidation.dfy`, module `Consolidation`: each decision of the handler as a function on a
  snapshot of the table, and `IdentifySpec`, the whole request as a function from (table, next
  id, request) to (answer, table, next id).
- `store.dfy`, module `Store`: the table as a class `ContactStore` whose `contacts` sequence
  and `nextId` counter the handler's statements update one at a time. `Identify` runs the
  handler's steps, with the demotion loop as a `while` loop. It is proved to produce exactly
  what `IdentifySpec` describes.
- `properties.dfy`, module `IdentifyProperties`: what every request does, proved over
  `IdentifySpec` for all tables and requests. `scenarios.dfy` works two concrete requests
  through to their answers.

Ids come from a counter starting at 1, and the table sequence is kept in creation order. So
"ordered by `createdAt`" is the sequence order and also increasing-id order (`WellFormed`).

The code does not perform an idealised merge, and the model keeps its behaviour:

- When the matching rows are all secondaries, the anchor is the oldest of them. It is not the
  primary they link to, so a new secondary can link to a secondary.
- When a primary is demoted, its former secondaries keep pointing at it. They are not relinked
  to the surviving primary, and the refetch does not reach them.
- The response lists emails and phone numbers in the order the cluster's rows first carry
  them. On every table the handler builds itself, every row linked to the anchor is younger
  than the anchor, so the anchor's own email and phone number come first
  (`PrimaryValuesFirst`). This order fails only on a table the handler did not build: one
  holding a link to a younger row, or one whose `createdAt` order disagrees with its id order.
- A valid repeated request is a no-op only when it supplies both fields
  (`RepeatedRequestIsNoOp`). When one field is left out, the absent field never equals a
  stored value, so the duplicate test never fires and every repeat writes another secondary
  (`SingleFieldRequestAlwaysInserts`). An invalid request changes nothing, however often it
  is repeated (`IdentifySpec`).

## Model

| member | source | states |
|---|---|---|
| Contacts.FindMany | src/index.ts:39-47 | the query answers exactly the rows of the table that satisfy the filter, and never more rows than the table has |
| Contacts.FindManyInOrder | src/index.ts:46 | a query over a table in creation order answers in creation order (ids strictly increase) |
| Contacts.FindManyConcat | src/index.ts:39-47 | the answer over a table split in two is the answer over the first part followed by the answer over the second |
| Contacts.FindManyNone | src/index.ts:39-47 | a query no row satisfies answers the empty list |
| Contacts.WithLinkageKeepsWellFormed | src/index.ts:69-75 | an update linking to an existing id keeps the table in creation order with every id and link below the counter |
| Contacts.AppendKeepsWellFormed | src/index.ts:55-61 | creating a row with the counter's id and a link below the counter keeps the table well formed |
| Contacts.WithLinkageKeepsLinks | src/index.ts:69-75 | an update that makes a row a primary without a link, or a secondary linked to an older row, keeps every link consistent |
| Contacts.AppendKeepsLinks | src/index.ts:55-61 | appending a row that is an unlinked primary or a secondary linked to an older row keeps links consistent |
| Contacts.Truthy | src/index.ts:34 | an optional request string is truthy iff it is present and not empty |
| Contacts.StrictlyEquals | src/index.ts:81 | a stored column `===` a request field iff the field is present and equal to it; an absent field equals nothing |
| Consolidation.MatchingSet | src/index.ts:39-47 | a row is matched iff the request supplies a truthy email equal to its email or a truthy phone equal to its phone |
| Consolidation.Primaries | src/index.ts:64-66 | the filtered list holds exactly the primary rows of the matching set |
| Consolidation.Matches | src/index.ts:41-44 | a row matches iff a truthy request email equals its email or a truthy request phone equals its phone |
| Consolidation.FirstPrimary | src/index.ts:51 | no result iff no row is primary; otherwise the result sits at a primary position with no primary before it |
| Consolidation.Anchor | src/index.ts:50-51 | no anchor iff nothing matched; an anchor that is primary is the first primary; an anchor that is secondary is the first row and no row is primary |
| Consolidation.Demote | src/index.ts:64-77 | the loop changes no row's id, email or phone and keeps the table's length |
| Consolidation.DemoteStep | src/index.ts:67-77 | one more iteration updates the next rival to a secondary of the anchor, and skips the anchor itself |
| Consolidation.IsExactDuplicate | src/index.ts:80-82 | some matching row `===` the request on both email and phone |
| Consolidation.ExistsWithEmail | src/index.ts:85 | some matching row `===` the request email |
| Consolidation.ExistsWithPhone | src/index.ts:86 | some matching row `===` the request phone |
| Consolidation.ShouldInsert | src/index.ts:84-88 | a row is written iff the pair is not a duplicate, a field is truthy, and the email or the phone is on no matching row; its effect on the table is stated by `InsertsOnlyNewInformation` |
| Consolidation.Cluster | src/index.ts:102-110 | the refetch holds exactly the rows whose id is the anchor's or whose link is the anchor's |
| Consolidation.Secondaries | src/index.ts:118-119 | the filtered list holds exactly the secondary rows of the cluster |
| Consolidation.Present | src/index.ts:113 | the list holds exactly the non-null, non-empty values of the column over the rows |
| Consolidation.Distinct | src/index.ts:112-117 | the result has the same members as the input, no duplicates, and keeps the order of first appearance |
| Consolidation.FirstIndexInPrefix | src/index.ts:112-117 | appending a value does not move the first occurrence of a value already present |
| Consolidation.DistinctHead | src/index.ts:112-117 | the distinct values of a non-empty list start with the list's first value |
| Consolidation.Consolidate | src/index.ts:102-129 | the answer is the consolidated identity of the anchor; what it lists is stated by `ResponseDescribesCluster` |
| Consolidation.ResponseDescribesCluster | src/index.ts:102-129 | the answer names the anchor, lists each non-empty email and phone of the cluster exactly once in first-appearance order, and lists exactly the ids of the cluster's secondaries in increasing order |
| Consolidation.IdentifySpec | src/index.ts:32-36 | the answer is the client error iff neither field is truthy, and then the table and counter are unchanged |
| IdentifyProperties.AtMostOneRowCreatedFieldsKept | src/index.ts:53-98 | a request creates at most one row, with the counter's id and the request's fields, and changes no existing row's id, email or phone |
| IdentifyProperties.NoMatchCreatesPrimary | src/index.ts:53-61 | with no match, the request appends exactly one unlinked primary carrying its fields and answers with that row alone |
| IdentifyProperties.LonePrimaryResponse | src/index.ts:102-129 | a cluster of one primary answers with its id, its own non-empty values and no secondaries |
| IdentifyProperties.AnchorIsOldestPrimaryElseOldest | src/index.ts:39-51 | an anchor exists iff some row matches; it matches; it is the oldest matching primary if one exists, else the oldest matching row |
| IdentifyProperties.AnchorBelowRivals | src/index.ts:50-68 | the anchor is no younger than any primary of the matching set |
| IdentifyProperties.DemotesExactlyOtherMatchingPrimaries | src/index.ts:62-77 | after a match, a row is turned into a secondary of the anchor iff it matched, was primary and is not the anchor; every other row is unchanged |
| IdentifyProperties.InsertsOnlyNewInformation | src/index.ts:79-98 | after a match, a row is added iff no matching row has the exact pair and either the email or the phone is on no matching row; the row is a secondary of the anchor with the request's fields |
| IdentifyProperties.SingleFieldRequestAlwaysInserts | src/index.ts:80-88 | a request that leaves a field out and matches some row always adds a secondary |
| IdentifyProperties.KeepsWellFormed | src/index.ts:53-98 | every request keeps the table in creation order with ids and links below the counter |
| IdentifyProperties.KeepsLinksPointingBackward | src/index.ts:53-98 | every request keeps primaries unlinked, secondaries linked, and every link pointing at an older row |
| IdentifyProperties.DemoteKeepsLinks | src/index.ts:64-77 | demoting rows towards an anchor no younger than any of them keeps links consistent |
| IdentifyProperties.MatchingSetOfDemoted | src/index.ts:39-47 | demotion commutes with the match query |
| IdentifyProperties.FirstPrimaryOfDemoted | src/index.ts:51 | demotion keeps the anchor as the first primary |
| IdentifyProperties.ClusterStartsWithAnchor | src/index.ts:102-110 | on a table in creation order whose links point backward, a row is the first row of its own refetched cluster |
| IdentifyProperties.OwnValuesFirst | src/index.ts:112-117 | on such a table, the answer for a row's cluster lists that row's own non-empty email and phone first |
| IdentifyProperties.PrimaryRow | src/index.ts:50-62 | a valid request answers for a row of the resulting table, the new primary or the anchor, and the answer is that row's consolidated cluster |
| IdentifyProperties.PrimaryValuesFirst | src/index.ts:30-129 | on every table the handler builds, the primary contact's own non-empty email and phone number head the answer's lists |
| IdentifyProperties.RepeatAfterMatch | src/index.ts:39-98 | after a request that matched, repeating it finds the same anchor, no other primary and nothing to insert |
| IdentifyProperties.RepeatedRequestIsNoOp | src/index.ts:30-129 | repeating a request that supplies both fields changes nothing and gives the same answer |
| Store.ContactStore.constructor | src/index.ts:55-61 | the table starts empty, with the autoincrement counter at 1 and the invariant holding |
| Store.ContactStore.Create | src/index.ts:55-61 | appends one row with the counter's id and advances the counter |
| Store.ContactStore.Update | src/index.ts:69-75 | the table becomes `WithLinkage` of the old table, with the counter unchanged and the invariant kept for a link to an older row |
| Store.ContactStore.DemoteOtherPrimaries | src/index.ts:64-77 | the loop leaves the table equal to `Demote` of the old table for the ids of the matching primaries, keeping the invariant because the anchor is no younger than any of them |
| Store.ContactStore.Identify | src/index.ts:30-134 | the handler's answer, table and counter are exactly those of `IdentifySpec` on the old table and counter |
| Scenarios.NewPhoneForKnownEmail | src/index.ts:79-129 | a known email with a new phone adds secondary 2 linked to primary 1, which answers with both values and secondary 2 |
| Scenarios.MergeKeepsOlderPrimary | src/index.ts:62-129 | a request joining two primaries demotes the younger, adds nothing, and answers with the older |

## Left out

- The HTTP layer (Express, JSON parsing, the `GET /` page, status codes) is not modelled. The client error is the `InvalidRequest` answer.
- A JSON `null` request field is not modelled. Request fields are either absent or strings.
- The database client is not modelled. The table is a sequence and the autoincrement id is a counter starting at 1.
- Asynchrony, concurrent requests and the absence of a transaction are not modelled. Each request runs alone from start to end.
- The `catch` branch answering 500 is not modelled, because the store never fails in the model.
- `createdAt` and `updatedAt` timestamps are not modelled. Creation order is the sequence order and the id order.
- dist/index.js is not part of this model. It is the compiled form of the same handler.
- The relinking of a demoted primary's former secondaries is not modelled, because the code does not do it.
- The `deletedAt` column is not modelled. The handler neither reads nor writes it, so soft-deleted rows are matched and refetched like any other, and the model, which has no such field, does the same.
- Consolidation.Consolidate: its own contract states only that the answer names the anchor. Everything else about it is stated in `ResponseDescribesCluster`, `OwnValuesFirst` and `PrimaryValuesFirst`.
