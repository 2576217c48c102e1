/**
 * The identity-reconciliation routine `identifyContact`, step by step, as
 * pure functions over the contact table, and the whole call as one
 * function, `Reconcile`, from the table before the call to the result and
 * the table after it. `ContactStore.Identify` performs the same steps with
 * loops and table updates and is proved to agree with `Reconcile`.
 */
module Reconciler {
  import opened Wrappers
  import opened Seqs
  import opened Contacts

  /** The error thrown when neither an email nor a phone number is given. */
  datatype Error = MissingContactInfo

  /**
   * The key under which the result carries the primary id: it is spelled
   * `primaryContactId` on the new-contact path and `primaryContatctId` on
   * the main path.
   */
  datatype IdKey = PrimaryContactId | PrimaryContatctId

  /** The result object; list entries are optional because the head may be null. */
  datatype Response = Response(
    idKey: IdKey,
    primaryId: nat,
    emails: seq<Option<string>>,
    phoneNumbers: seq<Option<string>>,
    secondaryContactIds: seq<nat>)

  // ---------------------------------------------------------------------
  // Roots of the matched records and the true primary

  /**
   * The root of a matched record: its `linkedId` when it is SECONDARY and
   * the `linkedId` is truthy (present and not 0), its own id otherwise.
   */
  function RootOf(c: Contact): nat {
    if c.linkPrecedence == Secondary && c.linkedId.Some? && c.linkedId.value != 0
    then c.linkedId.value
    else c.id
  }

  function RootList(matched: seq<Contact>): seq<nat> {
    seq(|matched|, k requires 0 <= k < |matched| => RootOf(matched[k]))
  }

  /**
   * The set `primaryContactIds`, in insertion order: one entry per distinct
   * root, and each matched record's root is an entry.
   */
  function Roots(matched: seq<Contact>): (r: seq<nat>)
    ensures Distinct(r)
    ensures forall x :: x in r <==> exists k :: 0 <= k < |matched| && RootOf(matched[k]) == x
    ensures |matched| > 0 ==> |r| > 0
  {
    var all := RootList(matched);
    assert forall k :: 0 <= k < |matched| ==> all[k] == RootOf(matched[k]);
    assert |matched| > 0 ==> all[0] in all;
    Dedup(all)
  }

  /** `Math.min(...s)`. */
  function MinOf(s: seq<nat>): (m: nat)
    requires |s| > 0
    ensures m in s
    ensures forall x :: x in s ==> m <= x
  {
    if |s| == 1 then s[0]
    else
      var rest := MinOf(s[1..]);
      assert s == [s[0]] + s[1..];
      if s[0] <= rest then s[0] else rest
  }

  // ---------------------------------------------------------------------
  // Merging clusters

  /** The PRIMARY records of a cluster read, in order. */
  function Primaries(cluster: seq<Contact>): (r: seq<Contact>)
    ensures forall c :: c in r <==> c in cluster && c.linkPrecedence == Primary
    ensures Ascending(cluster) ==> Ascending(r)
  {
    Select(cluster, (c: Contact) => c.linkPrecedence == Primary)
  }

  /** The table after the merge passes, and the cluster last read from it. */
  datatype Settled = Settled(contacts: seq<Contact>, related: seq<Contact>)

  lemma LinkageOnlyKeepsIds(before: seq<Contact>, after: seq<Contact>)
    requires LinkageOnly(before, after)
    ensures IdSet(after) == IdSet(before)
    ensures Ascending(before) ==> Ascending(after)
  {
    forall x | x in IdSet(before) ensures x in IdSet(after) {
      var k :| 0 <= k < |before| && before[k].id == x;
      assert after[k] in after;
    }
    forall x | x in IdSet(after) ensures x in IdSet(before) {
      var k :| 0 <= k < |after| && after[k].id == x;
      assert before[k] in before;
    }
  }

  lemma LinkageOnlyTransitive(a: seq<Contact>, b: seq<Contact>, c: seq<Contact>)
    requires LinkageOnly(a, b) && LinkageOnly(b, c)
    ensures LinkageOnly(a, c)
  {
  }

  /** Appending a record with the next id whose link resolves keeps the invariant. */
  lemma AppendKeepsInvariant(cs: seq<Contact>, nextId: nat, c: Contact)
    requires StoreInvariant(cs, nextId)
    requires c.id == nextId && 0 < nextId
    requires c.linkedId.Some? ==> c.linkedId.value in IdSet(cs)
    ensures StoreInvariant(cs + [c], nextId + 1)
    ensures IdSet(cs + [c]) == IdSet(cs) + {nextId}
  {
    var after := cs + [c];
    assert forall d :: d in after <==> d in cs || d == c;
    assert IdSet(after) == IdSet(cs) + {nextId} by {
      forall x | x in IdSet(cs) ensures x in IdSet(after) {
        var d :| d in cs && d.id == x;
        assert d in after;
      }
      assert c in after;
    }
    assert Ascending(after) by {
      forall i, j | 0 <= i < j < |after| ensures after[i].id < after[j].id {
        assert after[i] in cs;
        if j < |cs| { assert after[j] == cs[j]; }
      }
    }
  }

  /** One linkage update that points at an existing record keeps the table well linked. */
  lemma DemoteKeepsTable(cs: seq<Contact>, id: nat, target: nat)
    requires WellLinked(cs) && target in IdSet(cs)
    ensures WellLinked(Demote(cs, id, target))
    ensures LinkageOnly(cs, Demote(cs, id, target))
    ensures IdSet(Demote(cs, id, target)) == IdSet(cs)
  {
    var r := Demote(cs, id, target);
    LinkageOnlyKeepsIds(cs, r);
    forall c | c in r && c.linkedId.Some? ensures c.linkedId.value in IdSet(r) {
      var k :| 0 <= k < |r| && r[k] == c;
      assert cs[k] in cs;
    }
  }

  /** Demoting the ids of `ids + [id]` is demoting those of `ids`, then `id`. */
  lemma DemoteOthersStep(cs: seq<Contact>, ids: seq<nat>, id: nat, target: nat)
    ensures DemoteOthers(cs, ids + [id], target) ==
      if id != target then Demote(DemoteOthers(cs, ids, target), id, target) else DemoteOthers(cs, ids, target)
  {
    assert (ids + [id])[..|ids|] == ids;
  }

  /**
   * Demoting records to point at an existing record keeps the table well
   * linked, changes only linkage, and keeps linkage consistent.
   */
  lemma DemoteOthersKeepsTable(cs: seq<Contact>, ids: seq<nat>, target: nat)
    requires WellLinked(cs) && target in IdSet(cs)
    ensures WellLinked(DemoteOthers(cs, ids, target))
    ensures LinkageOnly(cs, DemoteOthers(cs, ids, target))
    ensures IdSet(DemoteOthers(cs, ids, target)) == IdSet(cs)
    ensures LinkageConsistent(cs) ==> LinkageConsistent(DemoteOthers(cs, ids, target))
  {
    var r := DemoteOthers(cs, ids, target);
    assert LinkageOnly(cs, r);
    LinkageOnlyKeepsIds(cs, r);
    forall c | c in r && c.linkedId.Some? ensures c.linkedId.value in IdSet(r) {
      var k :| 0 <= k < |r| && r[k] == c;
      assert cs[k] in cs;
    }
    if LinkageConsistent(cs) {
      forall c | c in r ensures c.linkPrecedence == Secondary <==> c.linkedId.Some? {
        var k :| 0 <= k < |r| && r[k] == c;
        assert cs[k] in cs;
      }
    }
  }

  /** A linkage-only change whose links resolve keeps the table invariant for the same next id. */
  lemma LinkageOnlyKeepsInvariant(before: seq<Contact>, after: seq<Contact>, nextId: nat)
    requires StoreInvariant(before, nextId) && LinkageOnly(before, after) && LinksResolve(after)
    ensures StoreInvariant(after, nextId)
    ensures IdSet(after) == IdSet(before)
  {
    LinkageOnlyKeepsIds(before, after);
    forall d | d in after ensures 0 < d.id < nextId {
      var k :| 0 <= k < |after| && after[k] == d;
      assert before[k] in before;
    }
  }

  /** Demoting records to point at an existing record keeps the table invariant. */
  lemma DemoteOthersKeepsInvariant(cs: seq<Contact>, nextId: nat, ids: seq<nat>, target: nat)
    requires StoreInvariant(cs, nextId) && target in IdSet(cs)
    ensures StoreInvariant(DemoteOthers(cs, ids, target), nextId)
    ensures IdSet(DemoteOthers(cs, ids, target)) == IdSet(cs)
  {
    DemoteOthersKeepsTable(cs, ids, target);
    LinkageOnlyKeepsInvariant(cs, DemoteOthers(cs, ids, target), nextId);
  }

  /** Every root of records of a well-linked table is the id of one of its records. */
  lemma RootsResolve(cs: seq<Contact>, matched: seq<Contact>)
    requires LinksResolve(cs)
    requires forall c :: c in matched ==> c in cs
    ensures forall x :: x in Roots(matched) ==> x in IdSet(cs)
  {
    forall x | x in Roots(matched) ensures x in IdSet(cs) {
      var k :| 0 <= k < |matched| && RootOf(matched[k]) == x;
      assert matched[k] in matched;
    }
  }

  /** The cluster read of an existing id holds at least that record. */
  lemma ClusterOfExistingId(cs: seq<Contact>, root: nat)
    requires root in IdSet(cs)
    ensures |Cluster(cs, root)| > 0
  {
    var c :| c in cs && c.id == root;
    assert c in Cluster(cs, root);
  }

  /**
   * The id whose cluster is read last: the first PRIMARY of the cluster of
   * `root` when that cluster holds more than one PRIMARY, `root` otherwise.
   */
  function RegroupRoot(merged: seq<Contact>, root: nat): nat {
    var primaries := Primaries(Cluster(merged, root));
    if |primaries| > 1 then primaries[0].id else root
  }

  /**
   * `Regroup` returns the cluster of `RegroupRoot(merged, root)` in the
   * table it leaves behind; that table is `merged` when the first read holds
   * at most one PRIMARY, and otherwise `merged` with every PRIMARY of the
   * first read but the first demoted to point at the first.
   */
  lemma RegroupReadsCluster(merged: seq<Contact>, root: nat)
    requires WellLinked(merged) && root in IdSet(merged)
    ensures Regroup(merged, root).related == Cluster(Regroup(merged, root).contacts, RegroupRoot(merged, root))
    ensures RegroupRoot(merged, root) in IdSet(merged)
    ensures |Primaries(Cluster(merged, root))| <= 1 ==> Regroup(merged, root).contacts == merged
    ensures |Primaries(Cluster(merged, root))| > 1 ==>
      Regroup(merged, root).contacts
        == DemoteOthers(merged, Ids(Primaries(Cluster(merged, root))[1..]), RegroupRoot(merged, root))
  {
    var primaries := Primaries(Cluster(merged, root));
    if |primaries| > 1 {
      ClusterOfExistingId(merged, root);
      assert primaries[0] in merged;
    }
  }

  /**
   * Step 3 of the routine: read the cluster of `root` from the merged
   * table; if that read holds more than one PRIMARY, demote all but the
   * first of them to point at the first and read its cluster again.
   */
  function Regroup(merged: seq<Contact>, root: nat): (s: Settled)
    requires WellLinked(merged) && root in IdSet(merged)
    ensures WellLinked(s.contacts) && LinkageOnly(merged, s.contacts)
    ensures LinkageConsistent(merged) ==> LinkageConsistent(s.contacts)
    ensures |s.related| > 0 && Ascending(s.related)
    ensures forall c :: c in s.related ==> c in s.contacts
  {
    ClusterOfExistingId(merged, root);
    var linked := Cluster(merged, root);
    var primaries := Primaries(linked);
    if |primaries| > 1 then
      var head := primaries[0];
      assert head in merged;
      DemoteOthersKeepsTable(merged, Ids(primaries[1..]), head.id);
      var remerged := DemoteOthers(merged, Ids(primaries[1..]), head.id);
      ClusterOfExistingId(remerged, head.id);
      Settled(remerged, Cluster(remerged, head.id))
    else
      assert LinkageOnly(merged, merged);
      Settled(merged, linked)
  }

  /**
   * Steps 2 and 3 of the routine: demote every root other than the
   * smallest to point at it, then regroup around the smallest root.
   */
  function Settle(cs: seq<Contact>, matched: seq<Contact>): (s: Settled)
    requires WellLinked(cs)
    requires |matched| > 0 && forall c :: c in matched ==> c in cs
    ensures WellLinked(s.contacts) && LinkageOnly(cs, s.contacts)
    ensures LinkageConsistent(cs) ==> LinkageConsistent(s.contacts)
    ensures |s.related| > 0 && Ascending(s.related)
    ensures forall c :: c in s.related ==> c in s.contacts
  {
    var roots := Roots(matched);
    var truePrimary := MinOf(roots);
    RootsResolve(cs, matched);
    DemoteOthersKeepsTable(cs, roots, truePrimary);
    var merged := DemoteOthers(cs, roots, truePrimary);
    var s := Regroup(merged, truePrimary);
    LinkageOnlyTransitive(cs, merged, s.contacts);
    s
  }

  /**
   * The id whose cluster the main path reports: the smallest root, or the
   * first PRIMARY of its cluster when the second pass runs.
   */
  function MergeRoot(cs: seq<Contact>, matched: seq<Contact>): nat
    requires |matched| > 0
  {
    var truePrimary := MinOf(Roots(matched));
    RegroupRoot(DemoteOthers(cs, Roots(matched), truePrimary), truePrimary)
  }

  /**
   * The records `Settle` returns are exactly the cluster of the merge root
   * in the table it leaves behind, and that root is an id of the table.
   */
  lemma SettleReadsCluster(cs: seq<Contact>, matched: seq<Contact>)
    requires WellLinked(cs)
    requires |matched| > 0 && forall c :: c in matched ==> c in cs
    ensures Settle(cs, matched).related == Cluster(Settle(cs, matched).contacts, MergeRoot(cs, matched))
    ensures MergeRoot(cs, matched) in IdSet(cs)
  {
    var roots := Roots(matched);
    var truePrimary := MinOf(roots);
    RootsResolve(cs, matched);
    DemoteOthersKeepsTable(cs, roots, truePrimary);
    var merged := DemoteOthers(cs, roots, truePrimary);
    assert IdSet(merged) == IdSet(cs) by {
      LinkageOnlyKeepsIds(cs, merged);
    }
    RegroupReadsCluster(merged, truePrimary);
  }

  // ---------------------------------------------------------------------
  // The primary contact and the new secondaries

  /**
   * The position a search for the first PRIMARY record stops at: that
   * record's index, or the length when there is none.
   */
  function FirstPrimaryAt(cs: seq<Contact>): (k: nat)
    ensures k <= |cs|
    ensures k < |cs| ==> cs[k].linkPrecedence == Primary
    ensures forall j :: 0 <= j < k ==> cs[j].linkPrecedence == Secondary
  {
    if cs == [] then 0
    else if cs[0].linkPrecedence == Primary then 0
    else
      var k := FirstPrimaryAt(cs[1..]);
      assert forall j :: 0 <= j < 1 + k ==> cs[j].linkPrecedence == Secondary by {
        forall j | 0 <= j < 1 + k ensures cs[j].linkPrecedence == Secondary {
          if j > 0 {
            assert cs[j] == cs[1..][j - 1];
          }
        }
      }
      1 + k
  }

  /** The first PRIMARY of the cluster read, or its first record when it has none. */
  function PickPrimary(related: seq<Contact>): (p: Contact)
    requires |related| > 0
    ensures p in related
    ensures exists k :: 0 <= k < |related| && related[k] == p &&
                        forall j :: 0 <= j < k ==> related[j].linkPrecedence == Secondary
    ensures p.linkPrecedence == Secondary ==>
      p == related[0] && forall c :: c in related ==> c.linkPrecedence == Secondary
  {
    var k := FirstPrimaryAt(related);
    if k < |related| then related[k] else related[0]
  }

  /** `allRelatedContacts.some(c => email && c.email === email)`. */
  predicate EmailKnown(related: seq<Contact>, email: Option<string>) {
    Truthy(email) && exists c :: c in related && c.email == email
  }

  /** `allRelatedContacts.some(c => phoneNumber && c.phoneNumber === phoneNumber)`. */
  predicate PhoneKnown(related: seq<Contact>, phoneNumber: Option<string>) {
    Truthy(phoneNumber) && exists c :: c in related && c.phoneNumber == phoneNumber
  }

  /**
   * The SECONDARY records created for a supplied (`!= null`) value that the
   * cluster does not hold, first for the email, then for the phone number;
   * each carries both supplied values and links to the primary contact.
   */
  function NewSecondaries(related: seq<Contact>, email: Option<string>, phoneNumber: Option<string>,
                          primaryId: nat, nextId: nat): seq<Contact>
  {
    var forEmail :=
      if !EmailKnown(related, email) && email.Some?
      then [Contact(nextId, email, phoneNumber, Secondary, Some(primaryId))]
      else [];
    var forPhone :=
      if !PhoneKnown(related, phoneNumber) && phoneNumber.Some?
      then [Contact(nextId + |forEmail|, email, phoneNumber, Secondary, Some(primaryId))]
      else [];
    forEmail + forPhone
  }

  // ---------------------------------------------------------------------
  // The response

  /** The truthy strings among `vs`, in order (`.filter(Boolean)`). */
  function Present(vs: seq<Option<string>>): (r: seq<string>)
    ensures forall e :: e in r <==> e != "" && Some(e) in vs
  {
    if vs == [] then []
    else
      var rest := Present(vs[1..]);
      assert vs == [vs[0]] + vs[1..];
      if Truthy(vs[0]) then [vs[0].value] + rest else rest
  }

  /** The values of `unique` that differ from `head`, in order. */
  function OthersThan(unique: seq<string>, head: Option<string>): (r: seq<Option<string>>)
    ensures forall x :: x in r <==> x != head && x.Some? && x.value in unique
    ensures Distinct(unique) ==> Distinct(r)
  {
    if unique == [] then []
    else
      var rest := OthersThan(unique[1..], head);
      assert unique == [unique[0]] + unique[1..];
      assert Distinct(unique) ==> unique[0] !in unique[1..];
      if Some(unique[0]) != head then [Some(unique[0])] + rest else rest
  }

  /**
   * A response list: the primary's own value first, even when it is null
   * or "", then every other distinct truthy value of the cluster.
   */
  function Listing(head: Option<string>, values: seq<Option<string>>): (r: seq<Option<string>>)
    ensures |r| > 0 && r[0] == head
    ensures Distinct(r)
    ensures forall x :: x in r[1..] <==> Truthy(x) && x != head && x in values
  {
    var tail := OthersThan(Dedup(Present(values)), head);
    assert ([head] + tail)[1..] == tail;
    [head] + tail
  }

  function EmailsOf(cs: seq<Contact>): seq<Option<string>> {
    seq(|cs|, k requires 0 <= k < |cs| => cs[k].email)
  }

  function PhonesOf(cs: seq<Contact>): seq<Option<string>> {
    seq(|cs|, k requires 0 <= k < |cs| => cs[k].phoneNumber)
  }

  /** The ids of the SECONDARY records, in order. */
  function SecondaryIds(cs: seq<Contact>): seq<nat> {
    Ids(Select(cs, (c: Contact) => c.linkPrecedence == Secondary))
  }

  /** The main path's response, built from the primary contact and the related records. */
  function Assemble(primary: Contact, related: seq<Contact>): Response {
    Response(PrimaryContatctId, primary.id,
             Listing(primary.email, EmailsOf(related)),
             Listing(primary.phoneNumber, PhonesOf(related)),
             SecondaryIds(related))
  }

  /** The new-contact path's response: only the truthy supplied values. */
  function FreshResponse(id: nat, email: Option<string>, phoneNumber: Option<string>): Response {
    Response(PrimaryContactId, id,
             if Truthy(email) then [email] else [],
             if Truthy(phoneNumber) then [phoneNumber] else [],
             [])
  }

  // ---------------------------------------------------------------------
  // The whole call

  /** What a call returns and the table it leaves behind. */
  datatype Outcome = Outcome(result: Result<Response, Error>, contacts: seq<Contact>, nextId: nat)

  /** `identifyContact(email, phoneNumber)` against the table `cs`. */
  function Reconcile(cs: seq<Contact>, nextId: nat, email: Option<string>, phoneNumber: Option<string>): Outcome
    requires StoreInvariant(cs, nextId)
  {
    if !Truthy(email) && !Truthy(phoneNumber) then
      Outcome(Failure(MissingContactInfo), cs, nextId)
    else
      var matched := Matching(cs, email, phoneNumber);
      if matched == [] then
        Outcome(Success(FreshResponse(nextId, email, phoneNumber)),
                cs + [Contact(nextId, email, phoneNumber, Primary, None)], nextId + 1)
      else
        ReconcileMatched(cs, nextId, matched, email, phoneNumber)
  }

  /** The main path, once some record has matched. */
  function ReconcileMatched(cs: seq<Contact>, nextId: nat, matched: seq<Contact>,
                            email: Option<string>, phoneNumber: Option<string>): Outcome
    requires StoreInvariant(cs, nextId)
    requires |matched| > 0 && forall c :: c in matched ==> c in cs
  {
    var s := Settle(cs, matched);
    var primary := PickPrimary(s.related);
    var created := NewSecondaries(s.related, email, phoneNumber, primary.id, nextId);
    Outcome(Success(Assemble(primary, s.related + created)), s.contacts + created, nextId + |created|)
  }

  /**
   * The main path's outcome, given the merge `s`, the related records with
   * the created ones appended, and the table with them appended.
   */
  lemma MatchedOutcome(cs: seq<Contact>, nextId: nat, matched: seq<Contact>,
                       email: Option<string>, phoneNumber: Option<string>,
                       s: Settled, all: seq<Contact>, table: seq<Contact>)
    requires StoreInvariant(cs, nextId)
    requires |matched| > 0 && forall c :: c in matched ==> c in cs
    requires s == Settle(cs, matched)
    requires all == s.related + NewSecondaries(s.related, email, phoneNumber, PickPrimary(s.related).id, nextId)
    requires table == s.contacts + NewSecondaries(s.related, email, phoneNumber, PickPrimary(s.related).id, nextId)
    ensures ReconcileMatched(cs, nextId, matched, email, phoneNumber) ==
      Outcome(Success(Assemble(PickPrimary(s.related), all)), table, nextId + |table| - |s.contacts|)
  {
  }
}
