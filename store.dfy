/**
 * The contact table as an object whose rows the reconciler creates and
 * updates in place, and `identifyContact` as a method on it.
 */
module Store {
  import opened Wrappers
  import opened Seqs
  import opened Contacts
  import opened Reconciler

  class ContactStore {
    /** The rows, in creation order. */
    var contacts: seq<Contact>
    /** The id the next created row receives (autoincrement). */
    var nextId: nat

    ghost predicate Valid()
      reads this
    {
      StoreInvariant(contacts, nextId)
    }

    /** An empty table whose autoincrement starts at 1. */
    constructor ()
      ensures Valid() && contacts == [] && nextId == 1
    {
      contacts := [];
      nextId := 1;
    }

    /** `contact.create`: a new row with the next id, appended to the table. */
    method Create(email: Option<string>, phoneNumber: Option<string>, linkPrecedence: Precedence,
                  linkedId: Option<nat>) returns (c: Contact)
      requires Valid()
      requires linkedId.Some? ==> linkedId.value in IdSet(contacts)
      modifies this
      ensures Valid()
      ensures c == Contact(old(nextId), email, phoneNumber, linkPrecedence, linkedId)
      ensures contacts == old(contacts) + [c] && nextId == old(nextId) + 1
    {
      c := Contact(nextId, email, phoneNumber, linkPrecedence, linkedId);
      AppendKeepsInvariant(contacts, nextId, c);
      contacts := contacts + [c];
      nextId := nextId + 1;
    }

    /**
     * `contact.update({ where: { id }, data: { linkPrecedence: 'SECONDARY',
     * linkedId: target } })`; the row must exist, as the update throws
     * otherwise.
     */
    method UpdateLinkage(id: nat, target: nat)
      requires Valid()
      requires id in IdSet(contacts) && target in IdSet(contacts)
      modifies this
      ensures Valid()
      ensures contacts == Demote(old(contacts), id, target) && nextId == old(nextId)
    {
      DemoteKeepsTable(contacts, id, target);
      contacts := Demote(contacts, id, target);
    }

    /**
     * Lines 48-54: the set `primaryContactIds` of the matched records'
     * roots, built record by record (a sequence in insertion order).
     */
    static method CollectRoots(matched: seq<Contact>) returns (roots: seq<nat>)
      ensures Distinct(roots)
      ensures forall x :: x in roots <==> exists k :: 0 <= k < |matched| && RootOf(matched[k]) == x
      ensures roots == Roots(matched)
    {
      roots := [];
      for i := 0 to |matched|
        invariant roots == Dedup(RootList(matched[..i]))
      {
        assert RootList(matched[..i + 1]) == RootList(matched[..i]) + [RootOf(matched[i])];
        var root := RootOf(matched[i]);
        if root !in roots {
          roots := roots + [root];
        }
      }
      assert matched[..|matched|] == matched;
      assert roots == Roots(matched);
    }

    /** Lines 58-69: demote every root other than `truePrimary` to point at it. */
    method FoldRoots(roots: seq<nat>, truePrimary: nat)
      requires Valid()
      requires truePrimary in IdSet(contacts)
      requires forall x :: x in roots ==> x in IdSet(contacts)
      modifies this
      ensures Valid() && nextId == old(nextId)
      ensures contacts == DemoteOthers(old(contacts), roots, truePrimary)
    {
      ghost var before := contacts;
      for j := 0 to |roots|
        invariant nextId == old(nextId)
        invariant contacts == DemoteOthers(before, roots[..j], truePrimary)
      {
        DemoteOthersKeepsInvariant(before, nextId, roots[..j], truePrimary);
        var id := roots[j];
        assert roots[..j + 1] == roots[..j] + [id];
        DemoteOthersStep(before, roots[..j], id, truePrimary);
        if id != truePrimary {
          UpdateLinkage(id, truePrimary);
        }
      }
      assert roots[..|roots|] == roots;
      DemoteOthersKeepsInvariant(before, nextId, roots, truePrimary);
    }

    /**
     * Lines 89-97: demote each record of `others` (the PRIMARYs of the
     * cluster read after the first) to point at `head` (the first).
     */
    method FoldPrimaries(others: seq<nat>, head: nat)
      requires Valid()
      requires head in IdSet(contacts) && head !in others
      requires forall x :: x in others ==> x in IdSet(contacts)
      modifies this
      ensures Valid() && nextId == old(nextId)
      ensures contacts == DemoteOthers(old(contacts), others, head)
    {
      ghost var before := contacts;
      for k := 0 to |others|
        invariant nextId == old(nextId)
        invariant contacts == DemoteOthers(before, others[..k], head)
      {
        DemoteOthersKeepsInvariant(before, nextId, others[..k], head);
        var id := others[k];
        assert others[..k + 1] == others[..k] + [id];
        DemoteOthersStep(before, others[..k], id, head);
        UpdateLinkage(id, head);
      }
      assert others[..|others|] == others;
      DemoteOthersKeepsInvariant(before, nextId, others, head);
    }

    /**
     * Lines 45-110: fold the matched records' clusters into the one rooted
     * at the smallest root, then regroup, and return the cluster read last
     * (`allRelatedContacts`).
     */
    method Merge(matched: seq<Contact>) returns (related: seq<Contact>)
      requires Valid()
      requires |matched| > 0 && forall c :: c in matched ==> c in contacts
      modifies this
      ensures Valid() && nextId == old(nextId)
      ensures Settled(contacts, related) == Settle(old(contacts), matched)
    {
      var primaryContactIds := CollectRoots(matched);
      var truePrimary := MinOf(primaryContactIds);
      RootsResolve(contacts, matched);
      FoldRoots(primaryContactIds, truePrimary);
      related := RegroupCluster(truePrimary);
    }

    /**
     * Lines 70-110: read the cluster of `root`, and if it holds more than
     * one PRIMARY, demote all but the first to point at the first and read
     * again.
     */
    method RegroupCluster(root: nat) returns (related: seq<Contact>)
      requires Valid() && root in IdSet(contacts)
      modifies this
      ensures Valid() && nextId == old(nextId)
      ensures Settled(contacts, related) == Regroup(old(contacts), root)
    {
      ClusterOfExistingId(contacts, root);
      related := Cluster(contacts, root);
      var uniquePrimaries := Primaries(related);
      if |uniquePrimaries| > 1 {
        var head := uniquePrimaries[0];
        var others := Ids(uniquePrimaries[1..]);
        assert forall c :: c in uniquePrimaries ==> c in contacts;
        assert forall x :: x in others ==> x in IdSet(contacts);
        assert head.id !in others;
        FoldPrimaries(others, head.id);
        related := Cluster(contacts, head.id);
      }
    }

    /**
     * Lines 116-146: create a SECONDARY for the email and one for the phone
     * number when supplied and not in `related`, linked to `primaryId`, and
     * return `related` with them pushed.
     */
    method AddSecondaries(related: seq<Contact>, email: Option<string>, phoneNumber: Option<string>,
                          primaryId: nat) returns (all: seq<Contact>)
      requires Valid() && primaryId in IdSet(contacts)
      modifies this
      ensures Valid()
      ensures contacts == old(contacts) + NewSecondaries(related, email, phoneNumber, primaryId, old(nextId))
      ensures all == related + NewSecondaries(related, email, phoneNumber, primaryId, old(nextId))
      ensures nextId == old(nextId) + |NewSecondaries(related, email, phoneNumber, primaryId, old(nextId))|
    {
      var emailAlreadyExists := EmailKnown(related, email);
      var phoneAlreadyExists := PhoneKnown(related, phoneNumber);
      all := related;
      if !emailAlreadyExists && email.Some? {
        var c := Create(email, phoneNumber, Secondary, Some(primaryId));
        all := all + [c];
      }
      if !phoneAlreadyExists && phoneNumber.Some? {
        assert primaryId in IdSet(contacts) by {
          var d :| d in old(contacts) && d.id == primaryId;
          assert d in contacts;
        }
        var c := Create(email, phoneNumber, Secondary, Some(primaryId));
        all := all + [c];
      }
    }

    /**
     * `identifyContact(email, phoneNumber)`: reconcile one observation with
     * the table, updating it in place, and return the cluster summary.
     */
    method Identify(email: Option<string>, phoneNumber: Option<string>) returns (r: Result<Response, Error>)
      requires Valid()
      modifies this
      ensures Valid()
      ensures Outcome(r, contacts, nextId) == Reconcile(old(contacts), old(nextId), email, phoneNumber)
    {
      if !Truthy(email) && !Truthy(phoneNumber) {
        return Failure(MissingContactInfo);
      }
      var matched := Matching(contacts, email, phoneNumber);
      if |matched| == 0 {
        var c := Create(email, phoneNumber, Primary, None);
        return Success(FreshResponse(c.id, email, phoneNumber));
      }
      r := IdentifyMatched(matched, email, phoneNumber);
    }

    /** The main path of `identifyContact`, once some record has matched. */
    method IdentifyMatched(matched: seq<Contact>, email: Option<string>, phoneNumber: Option<string>)
      returns (r: Result<Response, Error>)
      requires Valid()
      requires |matched| > 0 && forall c :: c in matched ==> c in contacts
      modifies this
      ensures Valid()
      ensures Outcome(r, contacts, nextId) == ReconcileMatched(old(contacts), old(nextId), matched, email, phoneNumber)
    {
      ghost var before, n := contacts, nextId;
      var allRelatedContacts := Merge(matched);
      ghost var merged := Settled(contacts, allRelatedContacts);
      var primaryContact := PickPrimary(allRelatedContacts);
      assert primaryContact.id in IdSet(contacts) by {
        assert primaryContact in contacts;
      }
      allRelatedContacts := AddSecondaries(allRelatedContacts, email, phoneNumber, primaryContact.id);
      r := Success(Assemble(primaryContact, allRelatedContacts));
      MatchedOutcome(before, n, matched, email, phoneNumber, merged, allRelatedContacts, contacts);
    }
  }
}
