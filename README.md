# Contact identity reconciliation, modelled in Dafny

This project models `identifyContact(email?, phoneNumber?)`. The function
reconciles one observed (email, phone number) pair with a table of contact
records. Each record is a PRIMARY or a SECONDARY that links to another
record's id.

One call does the following:
- It finds every record that shares a truthy supplied value.
- If none does, it creates a fresh PRIMARY.
- Otherwise it resolves each matched record to its root and demotes every
  root other than the smallest to SECONDARY under the smallest.
- It reads the cluster of the smallest root. If that cluster still holds
  several PRIMARYs, it demotes all but the first and reads the cluster again.
- It creates a SECONDARY for a supplied value the cluster does not hold.
- It returns the primary id, the e-mails, the phone numbers and the
  secondary ids of the cluster.

Files:
- `wrappers.dfy`: `Option` and `Result`.
- `seqs.dfy`: sequences used as ordered sets, including `Dedup`, which is
  `Array.from(new Set(...))`.
- `contacts.dfy`: the `Contact` record and the table. The table is a sequence
  in creation order, so id order stands for `createdAt` order. This file also
  holds the table's invariant and the three table operations the routine uses
  (the seed query, the cluster read and the linkage update) as pure functions.
- `reconcile.dfy`: one pure function per step of the routine. `Reconcile` is
  the whole call: it returns the result, the table after the call, and the
  next id the autoincrement hands out.
- `store.dfy`: the class `ContactStore`. Its fields `contacts` and `nextId`
  are updated in place by `Create` and `UpdateLinkage`. The loops of the
  routine are methods with loop invariants. `Identify` is proved to leave
  the table and return exactly what `Reconcile` describes.
- `properties.dfy`: what one call guarantees, stated about `Reconcile`.

JavaScript truthiness is modelled explicitly:
- A string value is truthy when it is present and not `""` (`Truthy`).
- A `linkedId` is truthy when it is present and not 0.
- The creation guards at lines 125 and 136 test `!= null`, so they are
  modelled as "present", and `""` counts as supplied there.

## Model

| member | source | states |
|---|---|---|
| Contacts.Select | src/utils/identifyContact.ts:12-22 | a `findMany` with a `where` keeps exactly the records that satisfy the filter, never more than the table holds, in table (creation) order |
| Contacts.Matches | src/utils/identifyContact.ts:13-18 | no contract of its own: the `where` of the seed query, an `OR` over the email and the phone number in which only a truthy value takes part |
| Contacts.Matching | src/utils/identifyContact.ts:12-22 | the seed query holds exactly the table records that share a truthy supplied value, in creation order when the table is |
| Contacts.NoneMatching | src/utils/identifyContact.ts:12-25 | when no record shares a truthy supplied value, the seed query comes back empty |
| Properties.MainPath | src/utils/identifyContact.ts:12-25 | when some record shares a truthy supplied value, the seed query is non-empty, holds only table records, and the call takes the merge path with it |
| Properties.MissingInputFails | src/utils/identifyContact.ts:7-9 | the call fails exactly when neither value is truthy, and then the table and the next id are unchanged |
| Properties.NewIdentity | src/utils/identifyContact.ts:25-39 | with no match, exactly one record is appended: a PRIMARY with the next id, no link and the supplied values as given; the response holds that id under `primaryContactId`, only the truthy supplied values, and no secondary ids |
| Reconciler.FreshResponse | src/utils/identifyContact.ts:34-39 | no contract of its own: the new-contact response, under the `primaryContactId` key, with only the truthy supplied values and no secondary ids (stated by `NewIdentity`) |
| Reconciler.AppendKeepsInvariant | src/utils/identifyContact.ts:26-32 | creating a record with the next id keeps ids unique, ascending and below the next id, and keeps links resolving |
| Store.ContactStore.Create | src/utils/identifyContact.ts:26-32 | `contact.create` appends a record with the old next id and the given fields, and advances the next id by one |
| Reconciler.RootOf | src/utils/identifyContact.ts:49-53 | no contract of its own: the `linkedId` of a SECONDARY whose link is truthy (present and not 0), otherwise the record's own id (stated for the whole set by `Roots`) |
| Reconciler.Roots | src/utils/identifyContact.ts:48-54 | the root set holds no repeats and holds exactly the roots of the matched records: the `linkedId` of a SECONDARY with a truthy link, otherwise the record's own id; it is non-empty when something matched |
| Store.ContactStore.CollectRoots | src/utils/identifyContact.ts:46-54 | the loop builds exactly the root set `Roots`, in insertion order |
| Reconciler.MinOf | src/utils/identifyContact.ts:57 | `Math.min` returns a member of the set that is at most every member |
| Contacts.Demoted | src/utils/identifyContact.ts:62-65 | no contract of its own: the update data, SECONDARY linked to the target, with every other field kept |
| Contacts.Demote | src/utils/identifyContact.ts:60-66 | no contract of its own: the record with that id, if any, replaced by its demoted form, every other record as it was (stated by `UpdateLinkage` and `DemoteOthers`) |
| Contacts.DemoteOthers | src/utils/identifyContact.ts:58-69 | after demoting the roots one by one, each record whose id is listed and is not the target is SECONDARY linked to the target, and every other record is unchanged, whatever the order and repetitions of the list |
| Store.ContactStore.UpdateLinkage | src/utils/identifyContact.ts:60-66 | `contact.update` of an existing id sets that record to SECONDARY linked to the target and changes nothing else; the table invariant holds afterwards |
| Store.ContactStore.FoldRoots | src/utils/identifyContact.ts:58-69 | the update loop leaves the table as `DemoteOthers` of the root set under the true primary, keeps the invariant and leaves the next id alone |
| Reconciler.DemoteOthersKeepsTable | src/utils/identifyContact.ts:58-69 | demoting under an existing record keeps ids and their order, keeps links resolving, changes only linkage (to SECONDARY), and keeps "SECONDARY exactly when linked" when it held before |
| Properties.MergeFoldsIntoSmallestRoot | src/utils/identifyContact.ts:57-69 | the true primary is the smallest root; every other root's record becomes SECONDARY linked to it; the true primary's record and every non-root record are not modified |
| Contacts.Cluster | src/utils/identifyContact.ts:70-80 | the cluster read (also lines 99-109) holds exactly the table records whose id is the root or whose link is the root, in creation order when the table is |
| Reconciler.Primaries | src/utils/identifyContact.ts:84 | the filter keeps exactly the PRIMARY records of the cluster read, in its order |
| Reconciler.Regroup | src/utils/identifyContact.ts:70-110 | the cluster read and the second pass change only linkage, keep the table well linked, keep consistent linkage, and return a non-empty cluster in id order whose records are in the table |
| Reconciler.RegroupReadsCluster | src/utils/identifyContact.ts:70-110 | the records returned are the cluster, in the table left behind, of the root or, when the first read holds several PRIMARYs, of the first of them; the table left behind is the merged table when the first read holds at most one PRIMARY, and otherwise the merged table with every PRIMARY of that read but the first demoted under the first |
| Store.ContactStore.RegroupCluster | src/utils/identifyContact.ts:70-110 | the method reads the cluster and runs the second pass, leaving the table and the cluster exactly as `Regroup` describes, with the invariant kept |
| Store.ContactStore.FoldPrimaries | src/utils/identifyContact.ts:84-97 | the demotion loop leaves the table as `DemoteOthers` of the extra PRIMARYs under the first one, with the invariant kept |
| Properties.SecondPassDormant | src/utils/identifyContact.ts:84-85 | when every record is SECONDARY exactly when it is linked, a cluster read holds at most one PRIMARY, so the second pass never runs |
| Reconciler.Settle | src/utils/identifyContact.ts:45-111 | the whole merge changes only linkage (to SECONDARY), keeps the table well linked and keeps consistent linkage; the cluster it returns is non-empty, in id order, and drawn from the merged table |
| Reconciler.SettleReadsCluster | src/utils/identifyContact.ts:45-111 | the records the merge returns are exactly the cluster of the merge root in the table it leaves behind, and that root is the id of a record of the table |
| Store.ContactStore.Merge | src/utils/identifyContact.ts:45-111 | the merge leaves the table and the related records exactly as `Settle` describes, with the invariant kept and the next id unchanged |
| Reconciler.PickPrimary | src/utils/identifyContact.ts:120-123 | the primary contact is a member of the cluster and every record before it is SECONDARY, so it is the first PRIMARY when there is one; it is SECONDARY only when the cluster has no PRIMARY, and then it is the cluster's first record |
| Reconciler.EmailKnown | src/utils/identifyContact.ts:116-117 | no contract of its own: the email is truthy and some related record holds it (its effect is stated by `CreationRule`) |
| Reconciler.PhoneKnown | src/utils/identifyContact.ts:118 | no contract of its own: the phone number is truthy and some related record holds it (its effect is stated by `CreationRule`) |
| Reconciler.NewSecondaries | src/utils/identifyContact.ts:125-146 | no contract of its own: the records the two creation guards add, in order (stated by `CreationRule`) |
| Properties.CreationRule | src/utils/identifyContact.ts:116-146 | at most two records are created; none exactly when each supplied value is absent or already in the cluster; two exactly when both are supplied and new; each created record has the next free id in turn, is SECONDARY, carries both supplied values and links to the primary |
| Store.ContactStore.AddSecondaries | src/utils/identifyContact.ts:116-146 | the method appends exactly the records of the creation rule to the table and to the related records, and advances the next id by their number |
| Properties.AppendSecondaries | src/utils/identifyContact.ts:125-146 | appending SECONDARYs with consecutive new ids, linked to an existing record, keeps the table invariant and consistent linkage |
| Properties.KnownValuesCreateNothing | src/utils/identifyContact.ts:116-146 | when each supplied value is absent or already in the cluster read last, no record is created and only linkage changes |
| Properties.EmptyEmailAlwaysCreates | src/utils/identifyContact.ts:116-135 | an email given as `""` with a truthy, stored phone number is never known, so the call always creates a record carrying the empty email |
| Seqs.Dedup | src/utils/identifyContact.ts:149-150 | `Array.from(new Set(s))` holds exactly the values of `s`, with no repeats |
| Seqs.DedupOrder | src/utils/identifyContact.ts:149-150 | the set iterates its values in the order of their first insertion: each value of the result first occurs in the input after the values before it |
| Reconciler.Present | src/utils/identifyContact.ts:149-150 | `.filter(Boolean)` keeps exactly the present, non-empty strings |
| Properties.PresentOrder | src/utils/identifyContact.ts:149-150 | `.filter(Boolean)` keeps the order of the input: of two values kept, the one listed first occurs first in the input |
| Reconciler.OthersThan | src/utils/identifyContact.ts:157-158 | the tail filter keeps exactly the values other than the head, and keeps them distinct |
| Properties.OthersThanOrder | src/utils/identifyContact.ts:157-158 | the tail filter keeps the order of its input |
| Reconciler.Listing | src/utils/identifyContact.ts:149-158 | a response list starts with the head as given, has no repeats, and its tail holds exactly the truthy values other than the head |
| Properties.ListingOrder | src/utils/identifyContact.ts:149-158 | the tail of a response list holds its values in the order of their first occurrences among the values read |
| Properties.AssembleSpec | src/utils/identifyContact.ts:149-158 | the main-path response uses the `primaryContatctId` key and the primary's id; each list starts with the primary's own value, has no repeats, and its tail holds exactly the other truthy values of the related records |
| Properties.AssembleSecondaries | src/utils/identifyContact.ts:151-153 | the secondary ids are exactly the ids of the SECONDARY related records, and they increase when the related records are in id order |
| Reconciler.Assemble | src/utils/identifyContact.ts:149-160 | no contract of its own: the main-path response built from the primary contact and the related records (stated by `AssembleSpec`, `AssembleSecondaries` and `AssembleOrder`) |
| Properties.AssembleOrder | src/utils/identifyContact.ts:149-158 | the emails and phone numbers after the primary's own come in the order in which they first occur among the related records |
| Properties.ReportsRecords | src/utils/identifyContact.ts:149-159 | every SECONDARY related record has its id listed, and every truthy email and phone number of a related record is listed |
| Properties.ResponseHeads | src/utils/identifyContact.ts:155-158 | on the main path the call succeeds; each list is non-empty, its head is the reported primary's own value, and it has no repeats; the reported primary is a record of the table left behind |
| Properties.ResponseTails | src/utils/identifyContact.ts:149-158 | on the main path every later list entry is truthy and differs from the head, and each truthy supplied value appears in its list |
| Properties.ResponseSecondaryOrder | src/utils/identifyContact.ts:151-159 | on the main path the secondary ids strictly increase |
| Properties.ResponseSecondaryIds | src/utils/identifyContact.ts:151-159 | on the main path every secondary id is the id of a SECONDARY record of the table left behind |
| Properties.ResponseReadsCluster | src/utils/identifyContact.ts:70-160 | the main-path response is assembled from exactly one cluster: the records of the table left behind that form the cluster of the merge root, followed by the records created, with the primary picked from that cluster |
| Properties.ResponseCoversCluster | src/utils/identifyContact.ts:149-159 | read back from the table left behind, every SECONDARY record of the reported cluster and of the created records is listed among the secondary ids, and each truthy email and phone number they hold is listed |
| Properties.MatchedChanges | src/utils/identifyContact.ts:45-160 | the main path succeeds with the `primaryContatctId` key and the id of a record that existed before; existing records change only in linkage, only to SECONDARY; each of the at most two appended records has the next free id in turn, is SECONDARY, carries both supplied values and links to the reported primary |
| Properties.OnlyLinkageChanges | src/utils/identifyContact.ts:6-161 | on every path no record is deleted or reordered, no id, email or phone number changes, linkage only changes to SECONDARY, and at most two records are appended while the next id advances by their number |
| Properties.MatchedInvariants | src/utils/identifyContact.ts:45-146 | the main path keeps the table invariant and consistent linkage |
| Properties.InvariantsPreserved | src/utils/identifyContact.ts:6-161 | every call keeps the table invariant (unique ascending ids below the next id, links that resolve) and keeps "SECONDARY exactly when linked" |
| Properties.RepeatAfterNewIdentity | src/utils/identifyContact.ts:6-161 | repeating a request that created a new identity (each value absent or truthy) changes nothing and reports the same id, but under the `primaryContatctId` key, with each list holding just the stored value, null included |
| Properties.MergeLeavesChains | src/utils/identifyContact.ts:57-80 | on a concrete table, the merge demotes record 2 under record 1 while record 3 still links to record 2, which leaves a two-hop chain |
| Properties.SecondaryReportedAsPrimary | src/utils/identifyContact.ts:48-123 | on the table the chain example leaves, a request with record 3's email changes nothing and reports record 2, a SECONDARY, as the primary, lists it among the secondary ids as well, and heads the emails with its null email |
| Store.ContactStore.IdentifyMatched | src/utils/identifyContact.ts:45-160 | the main path, run in place, leaves the table and next id and returns the result exactly as `ReconcileMatched` describes, with the invariant kept |
| Reconciler.ReconcileMatched | src/utils/identifyContact.ts:45-160 | no contract of its own: the main path as one function, merge then creation then response (stated by `MatchedChanges`, `ResponseReadsCluster` and the other main-path lemmas, and computed by `IdentifyMatched`) |
| Store.ContactStore.Identify | src/utils/identifyContact.ts:6-161 | the whole call, run in place, leaves the table and next id and returns the result exactly as `Reconcile` describes, with the invariant kept |
| Reconciler.Reconcile | src/utils/identifyContact.ts:6-161 | no contract of its own: the whole call as one function, from the table and the next id before it to the result and the table and next id after it (stated by the lemmas above, and computed by `Identify`) |

## Where the code differs from what a caller would expect

The model follows the code in each of these cases:
- Flattening is one level deep. A SECONDARY linked to a root that gets
  demoted keeps its link, and the cluster read of the true primary does not
  see it. `MergeLeavesChains` shows a two-hop chain left behind, so "every
  SECONDARY links directly to the one PRIMARY" is not an invariant of the
  code. The table invariant the model proves is weaker: ids are unique,
  ascending and below the next id, and every link resolves.
- Because of those chains the main path can report a SECONDARY as the
  primary. When a request roots at a demoted record, the cluster read of
  that record holds no PRIMARY, and the first record of the cluster, the
  demoted one, is reported. `SecondaryReportedAsPrimary` shows it on the
  table the chain example leaves: the response names record 2 as primary,
  lists 2 among the secondary ids as well, heads the emails with record 2's
  null email, and never mentions record 1.
- The result key is spelled `primaryContactId` on the fresh-record path
  (line 35) and `primaryContatctId` on the main path (line 156). `IdKey`
  keeps the two apart.
- The head of `emails` and `phoneNumbers` is the primary's own value even
  when that value is null or `""`. The response lists are therefore
  `seq<Option<string>>`.
- A repeated request is not always idempotent.
  - `RepeatAfterNewIdentity`: the second response differs from the first in
    its key, and a value absent from the request appears as a null head.
  - `EmptyEmailAlwaysCreates`: an email given as `""` creates a record on
    every call.
- The second merge pass (lines 84-110) runs only when the table already
  holds a record whose linkage is inconsistent: a SECONDARY without a link,
  or a PRIMARY with one (`SecondPassDormant`). The table invariant therefore
  does not include consistent linkage. Consistent linkage is proved to be
  preserved (`InvariantsPreserved`) rather than assumed.

## Left out

- The Prisma client and database (lines 2-4 and every `await prisma...`).
  These are replaced by the in-memory table with the same filter and order
  semantics. I/O errors are not modelled.
- Transactions, atomicity and concurrent requests. The code uses no
  transaction, and one call is modelled as a sequential step.
- The `createdAt` timestamps. Creation order is the order of the sequence,
  which is also id order.
- The Express layer is not part of this model: the controller, the route
  registration and the server bootstrap.
- The unused locals `emails` and `phones` (lines 114-115). They have no
  effect.
- Store.ContactStore.UpdateLinkage: it requires the id to exist. Prisma's
  `update` throws for a missing id, and every call site passes an id read
  from the table, so that error path cannot be reached.
- The guard at line 56 (`primaryContactIds.size > 0`). It always holds on
  the main path, because at least one record matched.
- Full idempotence of a repeated request is not stated. It does not hold in
  general (see above). The model proves its basis
  (`KnownValuesCreateNothing`) and the repeat of a fresh identity
  (`RepeatAfterNewIdentity`).
