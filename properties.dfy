/**
 * What one call of `identifyContact` guarantees, stated about `Reconcile`
 * (which `ContactStore.Identify` is proved to compute).
 */
module Properties {
  import opened Wrappers
  import opened Seqs
  import opened Contacts
  import opened Reconciler

  /** The call throws exactly when neither value is truthy, and then changes nothing. */
  lemma MissingInputFails(cs: seq<Contact>, nextId: nat, email: Option<string>, phoneNumber: Option<string>)
    requires StoreInvariant(cs, nextId)
    ensures Reconcile(cs, nextId, email, phoneNumber).result.Failure? <==> !Truthy(email) && !Truthy(phoneNumber)
    ensures Reconcile(cs, nextId, email, phoneNumber).result.Failure? ==>
      Reconcile(cs, nextId, email, phoneNumber) == Outcome(Failure(MissingContactInfo), cs, nextId)
  {
  }

  /**
   * When no record shares a truthy supplied value, exactly one record is
   * created: a PRIMARY with no link that carries the supplied values as
   * given, and the response holds its id, only the truthy supplied values
   * and no secondary ids.
   */
  lemma NewIdentity(cs: seq<Contact>, nextId: nat, email: Option<string>, phoneNumber: Option<string>)
    requires StoreInvariant(cs, nextId)
    requires Truthy(email) || Truthy(phoneNumber)
    requires forall c :: c in cs ==> !Matches(c, email, phoneNumber)
    ensures Reconcile(cs, nextId, email, phoneNumber).contacts == cs + [Contact(nextId, email, phoneNumber, Primary, None)]
    ensures Reconcile(cs, nextId, email, phoneNumber).nextId == nextId + 1
    ensures Reconcile(cs, nextId, email, phoneNumber).result ==
      Success(Response(PrimaryContactId, nextId,
                       if Truthy(email) then [email] else [],
                       if Truthy(phoneNumber) then [phoneNumber] else [],
                       []))
  {
    NoneMatching(cs, email, phoneNumber);
  }

  /**
   * The merge step: every root other than the smallest ends up SECONDARY
   * linked to the smallest, the record of the smallest root is not
   * modified, and no record whose id is not a root is touched.
   */
  lemma MergeFoldsIntoSmallestRoot(cs: seq<Contact>, matched: seq<Contact>)
    requires |matched| > 0
    ensures forall x :: x in Roots(matched) ==> MinOf(Roots(matched)) <= x
    ensures forall k :: 0 <= k < |cs| && cs[k].id in Roots(matched) && cs[k].id != MinOf(Roots(matched)) ==>
      DemoteOthers(cs, Roots(matched), MinOf(Roots(matched)))[k].linkPrecedence == Secondary &&
      DemoteOthers(cs, Roots(matched), MinOf(Roots(matched)))[k].linkedId == Some(MinOf(Roots(matched)))
    ensures forall k :: 0 <= k < |cs| && (cs[k].id == MinOf(Roots(matched)) || cs[k].id !in Roots(matched)) ==>
      DemoteOthers(cs, Roots(matched), MinOf(Roots(matched)))[k] == cs[k]
  {
  }

  /**
   * The only change to existing records is to their linkage, and only to
   * SECONDARY; nothing is deleted; at most two records are appended, with
   * consecutive new ids.
   */
  lemma OnlyLinkageChanges(cs: seq<Contact>, nextId: nat, email: Option<string>, phoneNumber: Option<string>)
    requires StoreInvariant(cs, nextId)
    ensures |cs| <= |Reconcile(cs, nextId, email, phoneNumber).contacts| <= |cs| + 2
    ensures LinkageOnly(cs, Reconcile(cs, nextId, email, phoneNumber).contacts[..|cs|])
    ensures Reconcile(cs, nextId, email, phoneNumber).nextId ==
      nextId + |Reconcile(cs, nextId, email, phoneNumber).contacts| - |cs|
  {
    if !Truthy(email) && !Truthy(phoneNumber) {
      assert cs[..|cs|] == cs;
    } else if exists c :: c in cs && Matches(c, email, phoneNumber) {
      MainPath(cs, nextId, email, phoneNumber);
      MatchedChanges(cs, nextId, Matching(cs, email, phoneNumber), email, phoneNumber);
    } else {
      NewIdentity(cs, nextId, email, phoneNumber);
      assert (cs + [Contact(nextId, email, phoneNumber, Primary, None)])[..|cs|] == cs;
    }
  }

  /**
   * The creation rule: a record is created for the email only if it is
   * supplied (not null) and the cluster holds no record with that truthy
   * email, likewise for the phone number; each created record is
   * SECONDARY, carries both supplied values and links to the primary.
   */
  lemma CreationRule(related: seq<Contact>, email: Option<string>, phoneNumber: Option<string>,
                     primaryId: nat, nextId: nat)
    ensures |NewSecondaries(related, email, phoneNumber, primaryId, nextId)| <= 2
    ensures NewSecondaries(related, email, phoneNumber, primaryId, nextId) == [] <==>
      (email.None? || EmailKnown(related, email)) && (phoneNumber.None? || PhoneKnown(related, phoneNumber))
    ensures |NewSecondaries(related, email, phoneNumber, primaryId, nextId)| == 2 <==>
      email.Some? && !EmailKnown(related, email) && phoneNumber.Some? && !PhoneKnown(related, phoneNumber)
    ensures forall k :: 0 <= k < |NewSecondaries(related, email, phoneNumber, primaryId, nextId)| ==>
      NewSecondaries(related, email, phoneNumber, primaryId, nextId)[k] ==
        Contact(nextId + k, email, phoneNumber, Secondary, Some(primaryId))
  {
  }

  /** When some record matches a truthy supplied value, the call takes the main path. */
  lemma MainPath(cs: seq<Contact>, nextId: nat, email: Option<string>, phoneNumber: Option<string>)
    requires StoreInvariant(cs, nextId)
    requires Truthy(email) || Truthy(phoneNumber)
    requires exists c :: c in cs && Matches(c, email, phoneNumber)
    ensures |Matching(cs, email, phoneNumber)| > 0
    ensures forall c :: c in Matching(cs, email, phoneNumber) ==> c in cs
    ensures Reconcile(cs, nextId, email, phoneNumber) ==
      ReconcileMatched(cs, nextId, Matching(cs, email, phoneNumber), email, phoneNumber)
  {
    var c :| c in cs && Matches(c, email, phoneNumber);
    assert c in Matching(cs, email, phoneNumber);
  }

  /**
   * On the main path the call succeeds with the `primaryContatctId` key and
   * the id of a record that existed before the call; existing records
   * change only in linkage, only to SECONDARY; and every created record
   * (at most two, with consecutive new ids) is SECONDARY, carries both
   * supplied values and links to the reported primary.
   */
  lemma MatchedChanges(cs: seq<Contact>, nextId: nat, matched: seq<Contact>,
                       email: Option<string>, phoneNumber: Option<string>)
    requires StoreInvariant(cs, nextId)
    requires |matched| > 0 && forall c :: c in matched ==> c in cs
    ensures ReconcileMatched(cs, nextId, matched, email, phoneNumber).result.Success?
    ensures ReconcileMatched(cs, nextId, matched, email, phoneNumber).result.value.idKey == PrimaryContatctId
    ensures ReconcileMatched(cs, nextId, matched, email, phoneNumber).result.value.primaryId in IdSet(cs)
    ensures |cs| <= |ReconcileMatched(cs, nextId, matched, email, phoneNumber).contacts| <= |cs| + 2
    ensures LinkageOnly(cs, ReconcileMatched(cs, nextId, matched, email, phoneNumber).contacts[..|cs|])
    ensures ReconcileMatched(cs, nextId, matched, email, phoneNumber).nextId ==
      nextId + |ReconcileMatched(cs, nextId, matched, email, phoneNumber).contacts| - |cs|
    ensures forall k :: |cs| <= k < |ReconcileMatched(cs, nextId, matched, email, phoneNumber).contacts| ==>
      ReconcileMatched(cs, nextId, matched, email, phoneNumber).contacts[k] ==
        Contact(nextId + (k - |cs|), email, phoneNumber, Secondary,
                Some(ReconcileMatched(cs, nextId, matched, email, phoneNumber).result.value.primaryId))
  {
    var s := Settle(cs, matched);
    var primary := PickPrimary(s.related);
    var created := NewSecondaries(s.related, email, phoneNumber, primary.id, nextId);
    var o := ReconcileMatched(cs, nextId, matched, email, phoneNumber);
    assert o.contacts == s.contacts + created;
    assert o.contacts[..|cs|] == s.contacts;
    LinkageOnlyKeepsIds(cs, s.contacts);
    assert primary.id in IdSet(s.contacts);
    CreationRule(s.related, email, phoneNumber, primary.id, nextId);
  }

  /**
   * When both supplied values already occur in the cluster read last, no
   * record is created and only linkage changes: the basis of the
   * idempotence of a repeated request.
   */
  lemma KnownValuesCreateNothing(cs: seq<Contact>, nextId: nat, matched: seq<Contact>,
                                 email: Option<string>, phoneNumber: Option<string>)
    requires StoreInvariant(cs, nextId)
    requires |matched| > 0 && forall c :: c in matched ==> c in cs
    requires email.None? || EmailKnown(Settle(cs, matched).related, email)
    requires phoneNumber.None? || PhoneKnown(Settle(cs, matched).related, phoneNumber)
    ensures ReconcileMatched(cs, nextId, matched, email, phoneNumber).nextId == nextId
    ensures LinkageOnly(cs, ReconcileMatched(cs, nextId, matched, email, phoneNumber).contacts)
  {
    var s := Settle(cs, matched);
    var primary := PickPrimary(s.related);
    CreationRule(s.related, email, phoneNumber, primary.id, nextId);
    MatchedChanges(cs, nextId, matched, email, phoneNumber);
    var o := ReconcileMatched(cs, nextId, matched, email, phoneNumber);
    assert o.contacts == s.contacts + NewSecondaries(s.related, email, phoneNumber, primary.id, nextId);
    assert o.contacts[..|cs|] == o.contacts;
  }

  /**
   * An email given as "" passes the guard when the phone number is truthy
   * but never counts as known, so every such call that matches a record
   * creates a SECONDARY with the empty email: repeating it is not
   * idempotent.
   */
  lemma EmptyEmailAlwaysCreates(cs: seq<Contact>, nextId: nat, phoneNumber: Option<string>)
    requires StoreInvariant(cs, nextId)
    requires Truthy(phoneNumber)
    requires exists c :: c in cs && c.phoneNumber == phoneNumber
    ensures Reconcile(cs, nextId, Some(""), phoneNumber).nextId > nextId
    ensures |Reconcile(cs, nextId, Some(""), phoneNumber).contacts| > |cs|
    ensures Reconcile(cs, nextId, Some(""), phoneNumber).contacts[|cs|].email == Some("")
  {
    var c :| c in cs && c.phoneNumber == phoneNumber;
    assert Matches(c, Some(""), phoneNumber);
    MainPath(cs, nextId, Some(""), phoneNumber);
    var matched := Matching(cs, Some(""), phoneNumber);
    MatchedChanges(cs, nextId, matched, Some(""), phoneNumber);
    var s := Settle(cs, matched);
    var primary := PickPrimary(s.related);
    CreationRule(s.related, Some(""), phoneNumber, primary.id, nextId);
    assert ReconcileMatched(cs, nextId, matched, Some(""), phoneNumber).contacts ==
      s.contacts + NewSecondaries(s.related, Some(""), phoneNumber, primary.id, nextId);
  }

  /**
   * With consistent linkage (SECONDARY exactly when linked), a cluster read
   * holds at most one PRIMARY, so the second merge pass never runs.
   */
  lemma {:induction false} SecondPassDormant(cs: seq<Contact>, root: nat)
    requires Ascending(cs) && LinkageConsistent(cs)
    ensures |Primaries(Cluster(cs, root))| <= 1
  {
    var p := Primaries(Cluster(cs, root));
    forall c | c in p ensures c.id == root {
      assert c in cs;
    }
    var ids: seq<int> := Ids(p);
    assert Distinct(ids);
    DistinctCard(ids);
    if p != [] {
      assert p[0] in p;
      assert (set x | x in ids) == {root};
    } else {
      assert (set x | x in ids) == {};
    }
  }

  /** The table invariant, and consistent linkage, survive every call. */
  lemma InvariantsPreserved(cs: seq<Contact>, nextId: nat, email: Option<string>, phoneNumber: Option<string>)
    requires StoreInvariant(cs, nextId)
    ensures StoreInvariant(Reconcile(cs, nextId, email, phoneNumber).contacts,
                           Reconcile(cs, nextId, email, phoneNumber).nextId)
    ensures LinkageConsistent(cs) ==> LinkageConsistent(Reconcile(cs, nextId, email, phoneNumber).contacts)
  {
    if !Truthy(email) && !Truthy(phoneNumber) {
    } else if exists c :: c in cs && Matches(c, email, phoneNumber) {
      MainPath(cs, nextId, email, phoneNumber);
      MatchedInvariants(cs, nextId, Matching(cs, email, phoneNumber), email, phoneNumber);
    } else {
      NewIdentity(cs, nextId, email, phoneNumber);
      var c := Contact(nextId, email, phoneNumber, Primary, None);
      AppendKeepsInvariant(cs, nextId, c);
      assert forall d :: d in cs + [c] ==> d in cs || d == c;
    }
  }

  /** The invariants survive the main path. */
  lemma MatchedInvariants(cs: seq<Contact>, nextId: nat, matched: seq<Contact>,
                          email: Option<string>, phoneNumber: Option<string>)
    requires StoreInvariant(cs, nextId)
    requires |matched| > 0 && forall c :: c in matched ==> c in cs
    ensures StoreInvariant(ReconcileMatched(cs, nextId, matched, email, phoneNumber).contacts,
                           ReconcileMatched(cs, nextId, matched, email, phoneNumber).nextId)
    ensures LinkageConsistent(cs) ==> LinkageConsistent(ReconcileMatched(cs, nextId, matched, email, phoneNumber).contacts)
  {
    var s := Settle(cs, matched);
    var primary := PickPrimary(s.related);
    SettledBelow(cs, nextId, matched);
    CreatedKeepInvariant(s.contacts, nextId, s.related, email, phoneNumber, primary.id);
    MatchedTable(cs, nextId, matched, email, phoneNumber);
  }

  /** Appending the records the creation rule makes keeps the invariant. */
  lemma CreatedKeepInvariant(table: seq<Contact>, nextId: nat, related: seq<Contact>,
                             email: Option<string>, phoneNumber: Option<string>, primaryId: nat)
    requires StoreInvariant(table, nextId) && primaryId in IdSet(table)
    ensures StoreInvariant(table + NewSecondaries(related, email, phoneNumber, primaryId, nextId),
                           nextId + |NewSecondaries(related, email, phoneNumber, primaryId, nextId)|)
    ensures LinkageConsistent(table) ==>
      LinkageConsistent(table + NewSecondaries(related, email, phoneNumber, primaryId, nextId))
  {
    CreationRule(related, email, phoneNumber, primaryId, nextId);
    AppendSecondaries(table, nextId, NewSecondaries(related, email, phoneNumber, primaryId, nextId), primaryId);
  }

  /** After the merge the table still satisfies the invariant for the same next id. */
  lemma SettledBelow(cs: seq<Contact>, nextId: nat, matched: seq<Contact>)
    requires StoreInvariant(cs, nextId)
    requires |matched| > 0 && forall c :: c in matched ==> c in cs
    ensures StoreInvariant(Settle(cs, matched).contacts, nextId)
    ensures PickPrimary(Settle(cs, matched).related).id in IdSet(Settle(cs, matched).contacts)
  {
    var s := Settle(cs, matched);
    LinkageOnlyKeepsInvariant(cs, s.contacts, nextId);
  }

  /** Appending the created secondaries keeps the invariant. */
  lemma {:induction false} AppendSecondaries(cs: seq<Contact>, nextId: nat, created: seq<Contact>, primaryId: nat)
    requires StoreInvariant(cs, nextId) && primaryId in IdSet(cs)
    requires forall k :: 0 <= k < |created| ==>
      created[k].id == nextId + k && created[k].linkPrecedence == Secondary && created[k].linkedId == Some(primaryId)
    ensures StoreInvariant(cs + created, nextId + |created|)
    ensures LinkageConsistent(cs) ==> LinkageConsistent(cs + created)
    decreases |created|
  {
    if created != [] {
      var c := created[0];
      AppendKeepsInvariant(cs, nextId, c);
      assert LinkageConsistent(cs) ==> LinkageConsistent(cs + [c]) by {
        assert forall d :: d in cs + [c] ==> d in cs || d == c;
      }
      AppendSecondaries(cs + [c], nextId + 1, created[1..], primaryId);
      assert cs + [c] + created[1..] == cs + created;
    }
  }

  /**
   * The main path's response: the head of each list is the primary's own
   * value (possibly null or ""), the lists hold no repeats, the tails hold
   * exactly the other truthy values of the related records.
   */
  lemma AssembleSpec(primary: Contact, related: seq<Contact>)
    ensures Assemble(primary, related).idKey == PrimaryContatctId
    ensures Assemble(primary, related).primaryId == primary.id
    ensures Assemble(primary, related).emails[0] == primary.email
    ensures Assemble(primary, related).phoneNumbers[0] == primary.phoneNumber
    ensures Distinct(Assemble(primary, related).emails) && Distinct(Assemble(primary, related).phoneNumbers)
    ensures forall x :: x in Assemble(primary, related).emails[1..] <==>
      Truthy(x) && x != primary.email && exists c :: c in related && c.email == x
    ensures forall x :: x in Assemble(primary, related).phoneNumbers[1..] <==>
      Truthy(x) && x != primary.phoneNumber && exists c :: c in related && c.phoneNumber == x
  {
    var r := Assemble(primary, related);
    forall x ensures x in EmailsOf(related) <==> exists c :: c in related && c.email == x {
      if x in EmailsOf(related) {
        var k :| 0 <= k < |related| && EmailsOf(related)[k] == x;
        assert related[k] in related;
      }
      if exists c :: c in related && c.email == x {
        var c :| c in related && c.email == x;
        var k :| 0 <= k < |related| && related[k] == c;
        assert EmailsOf(related)[k] == x;
      }
    }
    forall x ensures x in PhonesOf(related) <==> exists c :: c in related && c.phoneNumber == x {
      if x in PhonesOf(related) {
        var k :| 0 <= k < |related| && PhonesOf(related)[k] == x;
        assert related[k] in related;
      }
      if exists c :: c in related && c.phoneNumber == x {
        var c :| c in related && c.phoneNumber == x;
        var k :| 0 <= k < |related| && related[k] == c;
        assert PhonesOf(related)[k] == x;
      }
    }
  }

  /** The secondary ids of a response are the ids of the SECONDARY related records, in their order. */
  lemma AssembleSecondaries(primary: Contact, related: seq<Contact>)
    ensures forall id :: id in Assemble(primary, related).secondaryContactIds <==>
      exists c :: c in related && c.linkPrecedence == Secondary && c.id == id
    ensures Ascending(related) ==> forall i, j :: 0 <= i < j < |Assemble(primary, related).secondaryContactIds| ==>
      Assemble(primary, related).secondaryContactIds[i] < Assemble(primary, related).secondaryContactIds[j]
  {
    var r := Assemble(primary, related);
    var secondaries := Select(related, (c: Contact) => c.linkPrecedence == Secondary);
    forall id ensures id in r.secondaryContactIds <==> exists c :: c in related && c.linkPrecedence == Secondary && c.id == id {
      if id in r.secondaryContactIds {
        var k :| 0 <= k < |secondaries| && Ids(secondaries)[k] == id;
        assert secondaries[k] in secondaries;
      }
      if exists c :: c in related && c.linkPrecedence == Secondary && c.id == id {
        var c :| c in related && c.linkPrecedence == Secondary && c.id == id;
        assert c in secondaries;
        var k :| 0 <= k < |secondaries| && secondaries[k] == c;
        assert Ids(secondaries)[k] == id;
      }
    }
  }

  /**
   * `Present` keeps the order of the values it reads: of two values it
   * lists, the one listed first occurs first in the input.
   */
  lemma {:induction false} PresentOrder(vs: seq<Option<string>>)
    ensures forall a, b :: a in Present(vs) && b in Present(vs) && FirstAt(Present(vs), a) < FirstAt(Present(vs), b) ==>
      FirstAt(vs, Some(a)) < FirstAt(vs, Some(b))
  {
    if vs != [] {
      var p, rest := Present(vs), Present(vs[1..]);
      PresentOrder(vs[1..]);
      assert vs == [vs[0]] + vs[1..];
      forall a, b | a in p && b in p && FirstAt(p, a) < FirstAt(p, b)
        ensures FirstAt(vs, Some(a)) < FirstAt(vs, Some(b))
      {
        if Truthy(vs[0]) {
          assert p == [vs[0].value] + rest;
          if a != vs[0].value {
            assert p[1..] == rest;
          }
        }
      }
    }
  }

  /**
   * `OthersThan` keeps the order of its input: when the values of `unique`
   * occur in `vs` in the order `unique` lists them, so do the values it
   * returns.
   */
  lemma {:induction false} OthersThanOrder(unique: seq<string>, head: Option<string>, vs: seq<Option<string>>)
    requires forall i :: 0 <= i < |unique| ==> Some(unique[i]) in vs
    requires forall i, j :: 0 <= i < j < |unique| ==> FirstAt(vs, Some(unique[i])) < FirstAt(vs, Some(unique[j]))
    ensures InFirstOccurrenceOrder(OthersThan(unique, head), vs)
  {
    if unique != [] {
      var u := unique[1..];
      var rest := OthersThan(u, head);
      assert forall i :: 0 <= i < |u| ==> u[i] == unique[i + 1];
      OthersThanOrder(u, head, vs);
      if Some(unique[0]) != head {
        forall k | 0 <= k < |rest|
          ensures rest[k] in vs && FirstAt(vs, Some(unique[0])) < FirstAt(vs, rest[k])
        {
          assert rest[k] in rest;
          var m :| 0 <= m < |u| && u[m] == rest[k].value;
          assert rest[k] == Some(unique[m + 1]);
        }
        ConsOrder(Some(unique[0]), rest, vs);
      }
    }
  }

  /**
   * The tail of a response list holds its values in the order of their
   * first occurrences among the values read.
   */
  lemma ListingOrder(head: Option<string>, values: seq<Option<string>>)
    ensures InFirstOccurrenceOrder(Listing(head, values)[1..], values)
  {
    var p := Present(values);
    var d := Dedup(p);
    DedupOrder(p);
    PresentOrder(values);
    assert forall i :: 0 <= i < |d| ==> d[i] in p;
    OthersThanOrder(d, head, values);
    assert Listing(head, values)[1..] == OthersThan(d, head);
  }

  /**
   * The emails and phone numbers after the primary's own come in the order
   * in which they first occur among the related records.
   */
  lemma AssembleOrder(primary: Contact, related: seq<Contact>)
    ensures InFirstOccurrenceOrder(Assemble(primary, related).emails[1..], EmailsOf(related))
    ensures InFirstOccurrenceOrder(Assemble(primary, related).phoneNumbers[1..], PhonesOf(related))
  {
    ListingOrder(primary.email, EmailsOf(related));
    ListingOrder(primary.phoneNumber, PhonesOf(related));
  }

  /** Records numbered from the next id come after records whose ids are all below it. */
  lemma AppendedAfter(related: seq<Contact>, nextId: nat, created: seq<Contact>)
    requires Ascending(related) && forall c :: c in related ==> c.id < nextId
    requires forall k :: 0 <= k < |created| ==> created[k].id == nextId + k
    ensures Ascending(related + created)
  {
    var all := related + created;
    forall i, j | 0 <= i < j < |all| ensures all[i].id < all[j].id {
      if j < |related| {
      } else if i < |related| {
        assert related[i] in related;
      }
    }
  }

  /**
   * The main path's response lists: the head of each is the reported
   * primary's own value, and the reported primary is a record of the table
   * left behind; no list repeats a value.
   */
  lemma ResponseHeads(cs: seq<Contact>, nextId: nat, matched: seq<Contact>,
                      email: Option<string>, phoneNumber: Option<string>)
    requires StoreInvariant(cs, nextId)
    requires |matched| > 0 && forall c :: c in matched ==> c in cs
    ensures var o := ReconcileMatched(cs, nextId, matched, email, phoneNumber);
      o.result.Success? && |o.result.value.emails| > 0 && |o.result.value.phoneNumbers| > 0
    ensures var o := ReconcileMatched(cs, nextId, matched, email, phoneNumber);
      exists c :: c in o.contacts && c.id == o.result.value.primaryId &&
        o.result.value.emails[0] == c.email && o.result.value.phoneNumbers[0] == c.phoneNumber
    ensures var r := ReconcileMatched(cs, nextId, matched, email, phoneNumber).result.value;
      Distinct(r.emails) && Distinct(r.phoneNumbers)
  {
    var s := Settle(cs, matched);
    var primary := PickPrimary(s.related);
    var created := NewSecondaries(s.related, email, phoneNumber, primary.id, nextId);
    MatchedTable(cs, nextId, matched, email, phoneNumber);
    MatchedResult(cs, nextId, matched, email, phoneNumber);
    AssembleSpec(primary, s.related + created);
    assert primary in s.contacts + created;
  }

  /**
   * Every later entry of a response list is a truthy value other than the
   * head, and each truthy supplied value appears in its list.
   */
  lemma ResponseTails(cs: seq<Contact>, nextId: nat, matched: seq<Contact>,
                      email: Option<string>, phoneNumber: Option<string>)
    requires StoreInvariant(cs, nextId)
    requires |matched| > 0 && forall c :: c in matched ==> c in cs
    ensures var o := ReconcileMatched(cs, nextId, matched, email, phoneNumber);
      o.result.Success? && |o.result.value.emails| > 0 && |o.result.value.phoneNumbers| > 0
    ensures var r := ReconcileMatched(cs, nextId, matched, email, phoneNumber).result.value;
      forall x :: x in r.emails[1..] ==> Truthy(x) && x != r.emails[0]
    ensures var r := ReconcileMatched(cs, nextId, matched, email, phoneNumber).result.value;
      forall x :: x in r.phoneNumbers[1..] ==> Truthy(x) && x != r.phoneNumbers[0]
    ensures var r := ReconcileMatched(cs, nextId, matched, email, phoneNumber).result.value;
      Truthy(email) ==> email in r.emails
    ensures var r := ReconcileMatched(cs, nextId, matched, email, phoneNumber).result.value;
      Truthy(phoneNumber) ==> phoneNumber in r.phoneNumbers
  {
    var s := Settle(cs, matched);
    var primary := PickPrimary(s.related);
    var created := NewSecondaries(s.related, email, phoneNumber, primary.id, nextId);
    var all := s.related + created;
    MatchedResult(cs, nextId, matched, email, phoneNumber);
    CreationRule(s.related, email, phoneNumber, primary.id, nextId);
    AssembleSpec(primary, all);
    var r := Assemble(primary, all);
    if Truthy(email) {
      var c: Contact;
      if EmailKnown(s.related, email) {
        c :| c in s.related && c.email == email;
      } else {
        c := created[0];
      }
      assert c in all;
      if email != r.emails[0] {
        assert email in r.emails[1..];
      }
    }
    if Truthy(phoneNumber) {
      var c: Contact;
      if PhoneKnown(s.related, phoneNumber) {
        c :| c in s.related && c.phoneNumber == phoneNumber;
      } else {
        c := created[|created| - 1];
      }
      assert c in all;
      if phoneNumber != r.phoneNumbers[0] {
        assert phoneNumber in r.phoneNumbers[1..];
      }
    }
  }

  /** The secondary ids of the response increase. */
  lemma ResponseSecondaryOrder(cs: seq<Contact>, nextId: nat, matched: seq<Contact>,
                               email: Option<string>, phoneNumber: Option<string>)
    requires StoreInvariant(cs, nextId)
    requires |matched| > 0 && forall c :: c in matched ==> c in cs
    ensures ReconcileMatched(cs, nextId, matched, email, phoneNumber).result.Success?
    ensures var r := ReconcileMatched(cs, nextId, matched, email, phoneNumber).result.value;
      forall i, j :: 0 <= i < j < |r.secondaryContactIds| ==> r.secondaryContactIds[i] < r.secondaryContactIds[j]
  {
    var s := Settle(cs, matched);
    var primary := PickPrimary(s.related);
    var created := NewSecondaries(s.related, email, phoneNumber, primary.id, nextId);
    MatchedAscending(cs, nextId, matched, email, phoneNumber);
    AssembleSecondaries(primary, s.related + created);
    MatchedResult(cs, nextId, matched, email, phoneNumber);
  }

  /** The related records followed by the created ones are in id order. */
  lemma MatchedAscending(cs: seq<Contact>, nextId: nat, matched: seq<Contact>,
                         email: Option<string>, phoneNumber: Option<string>)
    requires StoreInvariant(cs, nextId)
    requires |matched| > 0 && forall c :: c in matched ==> c in cs
    ensures Ascending(Settle(cs, matched).related +
                      NewSecondaries(Settle(cs, matched).related, email, phoneNumber,
                                     PickPrimary(Settle(cs, matched).related).id, nextId))
  {
    var s := Settle(cs, matched);
    var primary := PickPrimary(s.related);
    SettledBelow(cs, nextId, matched);
    CreatedAfter(s.related, s.contacts, nextId, email, phoneNumber, primary.id);
  }

  /** The created records come after a cluster drawn from a table below the next id. */
  lemma CreatedAfter(related: seq<Contact>, table: seq<Contact>, nextId: nat,
                     email: Option<string>, phoneNumber: Option<string>, primaryId: nat)
    requires StoreInvariant(table, nextId)
    requires Ascending(related) && forall c :: c in related ==> c in table
    ensures Ascending(related + NewSecondaries(related, email, phoneNumber, primaryId, nextId))
  {
    CreationRule(related, email, phoneNumber, primaryId, nextId);
    AppendedAfter(related, nextId, NewSecondaries(related, email, phoneNumber, primaryId, nextId));
  }

  /** Every secondary id of the response is the id of a SECONDARY record of the table left behind. */
  lemma ResponseSecondaryIds(cs: seq<Contact>, nextId: nat, matched: seq<Contact>,
                             email: Option<string>, phoneNumber: Option<string>)
    requires StoreInvariant(cs, nextId)
    requires |matched| > 0 && forall c :: c in matched ==> c in cs
    ensures ReconcileMatched(cs, nextId, matched, email, phoneNumber).result.Success?
    ensures var o := ReconcileMatched(cs, nextId, matched, email, phoneNumber);
      forall id :: id in o.result.value.secondaryContactIds ==>
        exists c :: c in o.contacts && c.id == id && c.linkPrecedence == Secondary
  {
    var s := Settle(cs, matched);
    var primary := PickPrimary(s.related);
    var created := NewSecondaries(s.related, email, phoneNumber, primary.id, nextId);
    var all := s.related + created;
    MatchedTable(cs, nextId, matched, email, phoneNumber);
    MatchedResult(cs, nextId, matched, email, phoneNumber);
    AssembleSecondaries(primary, all);
    assert forall c :: c in all ==> c in s.contacts + created;
  }

  /**
   * The main path reports exactly one cluster: the records of the table it
   * leaves behind that form the cluster of the merge root, followed by the
   * records it creates, with the primary picked from that cluster.
   */
  lemma ResponseReadsCluster(cs: seq<Contact>, nextId: nat, matched: seq<Contact>,
                             email: Option<string>, phoneNumber: Option<string>)
    requires StoreInvariant(cs, nextId)
    requires |matched| > 0 && forall c :: c in matched ==> c in cs
    ensures |cs| <= |ReconcileMatched(cs, nextId, matched, email, phoneNumber).contacts|
    ensures var o := ReconcileMatched(cs, nextId, matched, email, phoneNumber);
      var cluster := Cluster(o.contacts[..|cs|], MergeRoot(cs, matched));
      o.result == Success(Assemble(PickPrimary(cluster), cluster + o.contacts[|cs|..]))
  {
    var s := Settle(cs, matched);
    var created := NewSecondaries(s.related, email, phoneNumber, PickPrimary(s.related).id, nextId);
    MatchedTable(cs, nextId, matched, email, phoneNumber);
    MatchedResult(cs, nextId, matched, email, phoneNumber);
    SettleReadsCluster(cs, matched);
    LinkageOnlyKeepsIds(cs, s.contacts);
    var table := s.contacts + created;
    assert table[..|cs|] == s.contacts && table[|cs|..] == created;
  }

  /**
   * Read back from the outcome: every SECONDARY record of the reported
   * cluster, and of the records created, is listed among the secondary
   * ids, and every truthy email and phone number they hold is listed.
   */
  lemma ResponseCoversCluster(cs: seq<Contact>, nextId: nat, matched: seq<Contact>,
                              email: Option<string>, phoneNumber: Option<string>)
    requires StoreInvariant(cs, nextId)
    requires |matched| > 0 && forall c :: c in matched ==> c in cs
    ensures |cs| <= |ReconcileMatched(cs, nextId, matched, email, phoneNumber).contacts|
    ensures var o := ReconcileMatched(cs, nextId, matched, email, phoneNumber);
      forall c :: c in Cluster(o.contacts[..|cs|], MergeRoot(cs, matched)) + o.contacts[|cs|..] ==>
        (c.linkPrecedence == Secondary ==> c.id in o.result.value.secondaryContactIds) &&
        (Truthy(c.email) ==> c.email in o.result.value.emails) &&
        (Truthy(c.phoneNumber) ==> c.phoneNumber in o.result.value.phoneNumbers)
  {
    ResponseReadsCluster(cs, nextId, matched, email, phoneNumber);
    var o := ReconcileMatched(cs, nextId, matched, email, phoneNumber);
    var cluster := Cluster(o.contacts[..|cs|], MergeRoot(cs, matched));
    ReportsRecords(PickPrimary(cluster), cluster + o.contacts[|cs|..]);
  }

  /** Every SECONDARY record and every truthy value of the records assembled is listed. */
  lemma ReportsRecords(primary: Contact, related: seq<Contact>)
    ensures forall c :: c in related ==>
      (c.linkPrecedence == Secondary ==> c.id in Assemble(primary, related).secondaryContactIds) &&
      (Truthy(c.email) ==> c.email in Assemble(primary, related).emails) &&
      (Truthy(c.phoneNumber) ==> c.phoneNumber in Assemble(primary, related).phoneNumbers)
  {
    var r := Assemble(primary, related);
    AssembleSpec(primary, related);
    AssembleSecondaries(primary, related);
    forall c | c in related
      ensures Truthy(c.email) ==> c.email in r.emails
      ensures Truthy(c.phoneNumber) ==> c.phoneNumber in r.phoneNumbers
    {
      if Truthy(c.email) && c.email != primary.email {
        assert c.email in r.emails[1..];
      }
      if Truthy(c.phoneNumber) && c.phoneNumber != primary.phoneNumber {
        assert c.phoneNumber in r.phoneNumbers[1..];
      }
    }
  }

  /** A cluster read for an id no record has, and no record links to, is empty. */
  lemma {:induction false} ClusterOfUnusedId(cs: seq<Contact>, root: nat)
    requires forall c :: c in cs ==> c.id != root && c.linkedId != Some(root)
    ensures Cluster(cs, root) == []
  {
    if cs != [] {
      ClusterOfUnusedId(cs[..|cs| - 1], root);
      assert cs[|cs| - 1] in cs;
    }
  }

  /** Once a new PRIMARY is appended, the seed query for its own values finds only it. */
  lemma MatchingAfterNewIdentity(cs: seq<Contact>, email: Option<string>, phoneNumber: Option<string>, c0: Contact)
    requires Matches(c0, email, phoneNumber)
    requires forall c :: c in cs ==> !Matches(c, email, phoneNumber)
    ensures Matching(cs + [c0], email, phoneNumber) == [c0]
  {
    assert (cs + [c0])[..|cs|] == cs;
    NoneMatching(cs, email, phoneNumber);
  }

  /** The cluster read for a new record's id finds only that record. */
  lemma ClusterOfNewId(cs: seq<Contact>, nextId: nat, c0: Contact)
    requires StoreInvariant(cs, nextId) && c0.id == nextId
    ensures Cluster(cs + [c0], nextId) == [c0]
  {
    forall c | c in cs ensures c.id != nextId && c.linkedId != Some(nextId) {
      if c.linkedId.Some? {
        assert c.linkedId.value in IdSet(cs);
      }
    }
    ClusterOfUnusedId(cs, nextId);
    assert (cs + [c0])[..|cs|] == cs;
  }

  /** Merging a single matched PRIMARY whose cluster is itself alone changes nothing. */
  lemma SettleSingleton(t: seq<Contact>, c0: Contact)
    requires WellLinked(t) && c0 in t && c0.linkPrecedence == Primary
    requires Cluster(t, c0.id) == [c0]
    ensures Settle(t, [c0]) == Settled(t, [c0])
  {
    assert RootList([c0]) == [c0.id];
    assert Roots([c0]) == [c0.id];
    assert DemoteOthers(t, [c0.id], c0.id) == t;
    assert [c0][..0] == [];
    assert Primaries([c0]) == [c0];
  }

  /** A list whose head is a value absent or truthy, over that value alone, is just the head. */
  lemma ListingOfOwnValue(v: Option<string>)
    requires v.None? || Truthy(v)
    ensures Listing(v, [v]) == [v]
  {
    if v.Some? {
      PresentOfOne(v);
      DedupOfOne(v.value);
      OthersThanOwn(v.value);
    } else {
      assert Present([v]) == [] by {
        assert [v][1..] == [];
      }
    }
  }

  /** A truthy value alone is present. */
  lemma PresentOfOne(v: Option<string>)
    requires Truthy(v)
    ensures Present([v]) == [v.value]
  {
    assert [v][1..] == [];
  }

  /** A single value has nothing to drop. */
  lemma DedupOfOne(x: string)
    ensures Dedup([x]) == [x]
  {
    assert [x][..0] == [];
  }

  /** A value alone, taken away from itself, leaves nothing. */
  lemma OthersThanOwn(x: string)
    ensures OthersThan([x], Some(x)) == []
  {
    assert [x][1..] == [];
  }

  /** The main path for a lone PRIMARY matched by its own values leaves the table as it is. */
  lemma AloneKeepsTable(t: seq<Contact>, nextId: nat, c0: Contact, email: Option<string>, phoneNumber: Option<string>)
    requires StoreInvariant(t, nextId) && c0 in t
    requires c0.email == email && c0.phoneNumber == phoneNumber && c0.linkPrecedence == Primary
    requires email.None? || Truthy(email)
    requires phoneNumber.None? || Truthy(phoneNumber)
    requires Cluster(t, c0.id) == [c0]
    ensures ReconcileMatched(t, nextId, [c0], email, phoneNumber).contacts == t
    ensures ReconcileMatched(t, nextId, [c0], email, phoneNumber).nextId == nextId
  {
    MatchedTable(t, nextId, [c0], email, phoneNumber);
    SettleSingleton(t, c0);
    assert PickPrimary([c0]) == c0;
    NothingNewForAlone(c0, email, phoneNumber, nextId);
    assert t + [] == t;
  }

  /** ... and reports that PRIMARY alone. */
  lemma AloneResponse(t: seq<Contact>, nextId: nat, c0: Contact, email: Option<string>, phoneNumber: Option<string>)
    requires StoreInvariant(t, nextId) && c0 in t
    requires c0.email == email && c0.phoneNumber == phoneNumber && c0.linkPrecedence == Primary
    requires email.None? || Truthy(email)
    requires phoneNumber.None? || Truthy(phoneNumber)
    requires Cluster(t, c0.id) == [c0]
    ensures ReconcileMatched(t, nextId, [c0], email, phoneNumber).result == Success(Assemble(c0, [c0]))
  {
    MatchedResult(t, nextId, [c0], email, phoneNumber);
    SettleSingleton(t, c0);
    assert PickPrimary([c0]) == c0;
    NothingNewForAlone(c0, email, phoneNumber, nextId);
    assert [c0] + [] == [c0];
  }

  /** A lone record already holds its own values, so none is created for them. */
  lemma NothingNewForAlone(c0: Contact, email: Option<string>, phoneNumber: Option<string>, nextId: nat)
    requires c0.email == email && c0.phoneNumber == phoneNumber
    requires email.None? || Truthy(email)
    requires phoneNumber.None? || Truthy(phoneNumber)
    ensures NewSecondaries([c0], email, phoneNumber, c0.id, nextId) == []
  {
    assert c0 in [c0];
  }

  /** The response for a lone PRIMARY whose values are each absent or truthy. */
  lemma AssembleAlone(c0: Contact)
    requires c0.linkPrecedence == Primary
    requires c0.email.None? || Truthy(c0.email)
    requires c0.phoneNumber.None? || Truthy(c0.phoneNumber)
    ensures Assemble(c0, [c0]) == Response(PrimaryContatctId, c0.id, [c0.email], [c0.phoneNumber], [])
  {
    assert EmailsOf([c0]) == [c0.email] && PhonesOf([c0]) == [c0.phoneNumber];
    ListingOfOwnValue(c0.email);
    ListingOfOwnValue(c0.phoneNumber);
    assert [c0][..0] == [];
    assert SecondaryIds([c0]) == [];
  }

  /**
   * Repeating a request that created a new identity (with values that are
   * each absent or truthy) creates nothing and reports the same id, but
   * under the `primaryContatctId` key and with the head of each list being
   * the stored value, so an absent value now shows as null.
   */
  lemma RepeatAfterNewIdentity(cs: seq<Contact>, nextId: nat, email: Option<string>, phoneNumber: Option<string>)
    requires StoreInvariant(cs, nextId)
    requires Truthy(email) || Truthy(phoneNumber)
    requires email.None? || Truthy(email)
    requires phoneNumber.None? || Truthy(phoneNumber)
    requires forall c :: c in cs ==> !Matches(c, email, phoneNumber)
    ensures var first := Reconcile(cs, nextId, email, phoneNumber);
      StoreInvariant(first.contacts, first.nextId) &&
      Reconcile(first.contacts, first.nextId, email, phoneNumber) ==
        Outcome(Success(Response(PrimaryContatctId, nextId, [email], [phoneNumber], [])),
                first.contacts, first.nextId)
  {
    NewIdentity(cs, nextId, email, phoneNumber);
    var c0 := Contact(nextId, email, phoneNumber, Primary, None);
    var t := cs + [c0];
    AppendKeepsInvariant(cs, nextId, c0);
    assert Matches(c0, email, phoneNumber);
    MatchingAfterNewIdentity(cs, email, phoneNumber, c0);
    ClusterOfNewId(cs, nextId, c0);
    assert c0 in t;
    RepeatOfLone(t, nextId + 1, c0, email, phoneNumber);
  }

  /**
   * A request whose values only a lone PRIMARY holds, and that record holds
   * exactly them, changes nothing and reports that record alone.
   */
  lemma RepeatOfLone(t: seq<Contact>, nextId: nat, c0: Contact, email: Option<string>, phoneNumber: Option<string>)
    requires StoreInvariant(t, nextId) && c0 in t
    requires c0.email == email && c0.phoneNumber == phoneNumber && c0.linkPrecedence == Primary
    requires Truthy(email) || Truthy(phoneNumber)
    requires email.None? || Truthy(email)
    requires phoneNumber.None? || Truthy(phoneNumber)
    requires Matching(t, email, phoneNumber) == [c0]
    requires Cluster(t, c0.id) == [c0]
    ensures Reconcile(t, nextId, email, phoneNumber) ==
      Outcome(Success(Response(PrimaryContatctId, c0.id, [email], [phoneNumber], [])), t, nextId)
  {
    assert Matches(c0, email, phoneNumber);
    MainPath(t, nextId, email, phoneNumber);
    AloneKeepsTable(t, nextId, c0, email, phoneNumber);
    AloneResponse(t, nextId, c0, email, phoneNumber);
    AssembleAlone(c0);
  }

  /** When every record matches, the seed query returns the whole table. */
  lemma {:induction false} AllMatching(cs: seq<Contact>, email: Option<string>, phoneNumber: Option<string>)
    requires forall c :: c in cs ==> Matches(c, email, phoneNumber)
    ensures Matching(cs, email, phoneNumber) == cs
  {
    if cs != [] {
      var last := cs[|cs| - 1];
      AllMatching(cs[..|cs| - 1], email, phoneNumber);
      assert last in cs;
      MatchingSnoc(cs[..|cs| - 1], last, email, phoneNumber);
      assert cs[..|cs| - 1] + [last] == cs;
    }
  }

  lemma MatchingSnoc(cs: seq<Contact>, c: Contact, email: Option<string>, phoneNumber: Option<string>)
    ensures Matching(cs + [c], email, phoneNumber) ==
      if Matches(c, email, phoneNumber) then Matching(cs, email, phoneNumber) + [c] else Matching(cs, email, phoneNumber)
  {
    assert (cs + [c])[..|cs|] == cs;
  }

  lemma ClusterSnoc(cs: seq<Contact>, c: Contact, root: nat)
    ensures Cluster(cs + [c], root) ==
      if c.id == root || c.linkedId == Some(root) then Cluster(cs, root) + [c] else Cluster(cs, root)
  {
    assert (cs + [c])[..|cs|] == cs;
  }

  lemma PrimariesSnoc(cs: seq<Contact>, c: Contact)
    ensures Primaries(cs + [c]) == if c.linkPrecedence == Primary then Primaries(cs) + [c] else Primaries(cs)
  {
    assert (cs + [c])[..|cs|] == cs;
  }

  /** The table the main path leaves: the merged table with the created records appended. */
  lemma MatchedTable(cs: seq<Contact>, nextId: nat, matched: seq<Contact>,
                     email: Option<string>, phoneNumber: Option<string>)
    requires StoreInvariant(cs, nextId)
    requires |matched| > 0 && forall c :: c in matched ==> c in cs
    ensures ReconcileMatched(cs, nextId, matched, email, phoneNumber).contacts ==
      Settle(cs, matched).contacts +
      NewSecondaries(Settle(cs, matched).related, email, phoneNumber,
                     PickPrimary(Settle(cs, matched).related).id, nextId)
    ensures ReconcileMatched(cs, nextId, matched, email, phoneNumber).nextId ==
      nextId + |NewSecondaries(Settle(cs, matched).related, email, phoneNumber,
                               PickPrimary(Settle(cs, matched).related).id, nextId)|
  {
  }

  /** The response of the main path: assembled from the primary and the related records, created ones last. */
  lemma MatchedResult(cs: seq<Contact>, nextId: nat, matched: seq<Contact>,
                      email: Option<string>, phoneNumber: Option<string>)
    requires StoreInvariant(cs, nextId)
    requires |matched| > 0 && forall c :: c in matched ==> c in cs
    ensures ReconcileMatched(cs, nextId, matched, email, phoneNumber).result ==
      Success(Assemble(PickPrimary(Settle(cs, matched).related),
                       Settle(cs, matched).related +
                       NewSecondaries(Settle(cs, matched).related, email, phoneNumber,
                                      PickPrimary(Settle(cs, matched).related).id, nextId)))
  {
  }

  // A table with a two-hop link waiting to happen: record 3 links to
  // record 2, and records 1 and 2 are unrelated PRIMARYs.

  function ChainTable(): seq<Contact> {
    [Contact(1, Some("a"), None, Primary, None),
     Contact(2, None, Some("p"), Primary, None),
     Contact(3, Some("b"), None, Secondary, Some(2))]
  }

  /** `ChainTable` with record 2 demoted under record 1. */
  function ChainMerged(): seq<Contact> {
    [Contact(1, Some("a"), None, Primary, None),
     Contact(2, None, Some("p"), Secondary, Some(1)),
     Contact(3, Some("b"), None, Secondary, Some(2))]
  }

  lemma ChainTableValid()
    ensures StoreInvariant(ChainTable(), 4)
  {
    var cs := ChainTable();
    assert cs[0] in cs && cs[1] in cs && cs[2] in cs;
    assert IdSet(cs) == {1, 2, 3};
  }

  lemma ChainMatching()
    ensures Matching(ChainTable(), Some("a"), Some("p")) == ChainTable()[..2]
  {
    var cs := ChainTable();
    AllMatching(cs[..2], Some("a"), Some("p"));
    MatchingSnoc(cs[..2], cs[2], Some("a"), Some("p"));
    assert cs[..2] + [cs[2]] == cs;
  }

  lemma ChainRoots()
    ensures Roots(ChainTable()[..2]) == [1, 2]
  {
    assert RootList(ChainTable()[..2]) == [1, 2];
    assert [1, 2][..1] == [1] && [1][..0] == [];
  }

  lemma ChainDemote()
    ensures DemoteOthers(ChainTable(), [1, 2], 1) == ChainMerged()
  {
    var r := DemoteOthers(ChainTable(), [1, 2], 1);
    assert r[0] == ChainMerged()[0] && r[1] == ChainMerged()[1] && r[2] == ChainMerged()[2];
  }

  lemma ChainCluster()
    ensures Cluster(ChainMerged(), 1) == ChainMerged()[..2]
  {
    var m := ChainMerged();
    ClusterSnoc([], m[0], 1);
    assert [] + [m[0]] == m[..1] && m[..1] + [m[1]] == m[..2] && m[..2] + [m[2]] == m;
    ClusterSnoc(m[..1], m[1], 1);
    ClusterSnoc(m[..2], m[2], 1);
  }

  lemma ChainPrimaries()
    ensures Primaries(ChainMerged()[..2]) == ChainTable()[..1]
  {
    var m := ChainMerged();
    assert m[..2] == [m[0], m[1]];
    PrimaryThenSecondary(m[0], m[1]);
    assert ChainTable()[..1] == [m[0]];
  }

  lemma PrimaryThenSecondary(a: Contact, b: Contact)
    requires a.linkPrecedence == Primary && b.linkPrecedence == Secondary
    ensures Primaries([a, b]) == [a]
  {
    assert Primaries([a]) == [a] by {
      PrimariesSnoc([], a);
      assert [] + [a] == [a];
    }
    PrimariesSnoc([a], b);
    assert [a] + [b] == [a, b];
  }

  lemma ChainSettle()
    ensures WellLinked(ChainTable())
    ensures Settle(ChainTable(), ChainTable()[..2]) == Settled(ChainMerged(), ChainMerged()[..2])
  {
    ChainTableValid();
    ChainRoots();
    assert MinOf([1, 2]) == 1;
    ChainDemote();
    ChainCluster();
    ChainPrimaries();
  }

  /**
   * The merge relinks roots only: a SECONDARY linked to a root that gets
   * demoted keeps its link, leaving a two-hop chain. Here record 3 links to
   * record 2; a request with record 1's email and record 2's phone number
   * demotes record 2 under record 1, and record 3 still links to record 2.
   */
  lemma MergeLeavesChains()
    ensures StoreInvariant(ChainTable(), 4) &&
      var after := Reconcile(ChainTable(), 4, Some("a"), Some("p")).contacts;
      |after| == 3 &&
      after[1].linkPrecedence == Secondary && after[1].linkedId == Some(1) &&
      after[2].linkPrecedence == Secondary && after[2].linkedId == Some(2)
  {
    ChainTableValid();
    ChainMatching();
    MainPath(ChainTable(), 4, Some("a"), Some("p"));
    ChainOutcome();
  }

  /**
   * A two-hop chain makes the main path report a SECONDARY as the primary.
   * The table `ChainMerged` is what the request above leaves behind. A
   * request with record 3's email then roots at record 2, whose cluster
   * holds no PRIMARY: nothing changes, and the response names record 2, a
   * SECONDARY, as primary, lists it among the secondary ids too, and
   * heads the emails with its null email. Record 1, the real primary, is
   * not reported at all.
   */
  lemma SecondaryReportedAsPrimary()
    ensures Reconcile(ChainTable(), 4, Some("a"), Some("p")).contacts == ChainMerged()
    ensures StoreInvariant(ChainMerged(), 4)
    ensures ChainMerged()[1].id == 2 && ChainMerged()[1].linkPrecedence == Secondary
    ensures Reconcile(ChainMerged(), 4, Some("b"), None) ==
      Outcome(Success(Response(PrimaryContatctId, 2, [None, Some("b")], [Some("p")], [2, 3])), ChainMerged(), 4)
  {
    ChainTableValid();
    ChainMatching();
    MainPath(ChainTable(), 4, Some("a"), Some("p"));
    ChainOutcome();
    ChainMergedValid();
    var m := ChainMerged();
    LateMatching();
    assert m[2] in m && Matches(m[2], Some("b"), None);
    MainPath(m, 4, Some("b"), None);
    LateTable();
    LateResult();
    LateResponse();
  }

  lemma ChainMergedValid()
    ensures StoreInvariant(ChainMerged(), 4)
  {
    var m := ChainMerged();
    assert m[0] in m && m[1] in m && m[2] in m;
    assert IdSet(m) == {1, 2, 3};
  }

  lemma LateMatching()
    ensures Matching(ChainMerged(), Some("b"), None) == [ChainMerged()[2]]
  {
    var m := ChainMerged();
    NoneMatching(m[..2], Some("b"), None);
    MatchingSnoc(m[..2], m[2], Some("b"), None);
    assert m[..2] + [m[2]] == m;
  }

  lemma LateSettle()
    requires WellLinked(ChainMerged())
    ensures Settle(ChainMerged(), [ChainMerged()[2]]) == Settled(ChainMerged(), ChainMerged()[1..])
  {
    var m := ChainMerged();
    assert RootList([m[2]]) == [2];
    assert Roots([m[2]]) == [2];
    assert MinOf([2]) == 2;
    assert DemoteOthers(m, [2], 2) == m;
    LateCluster();
    assert m[1..] == [m[1], m[2]];
    BothSecondary(m[1], m[2]);
  }

  lemma LateCluster()
    ensures Cluster(ChainMerged(), 2) == ChainMerged()[1..]
  {
    var m := ChainMerged();
    assert m == [m[0], m[1], m[2]] && m[1..] == [m[1], m[2]];
    ClusterOfLastTwo(m[0], m[1], m[2], 2);
  }

  /** A cluster read over three records of which only the last two belong. */
  lemma ClusterOfLastTwo(a: Contact, b: Contact, c: Contact, root: nat)
    requires a.id != root && a.linkedId != Some(root)
    requires b.id == root || b.linkedId == Some(root)
    requires c.id == root || c.linkedId == Some(root)
    ensures Cluster([a, b, c], root) == [b, c]
  {
    assert Cluster([a], root) == [] by {
      ClusterSnoc([], a, root);
      assert [] + [a] == [a];
    }
    assert Cluster([a, b], root) == [b] by {
      ClusterSnoc([a], b, root);
      assert [a] + [b] == [a, b];
    }
    ClusterSnoc([a, b], c, root);
    assert [a, b] + [c] == [a, b, c];
  }

  lemma BothSecondary(a: Contact, b: Contact)
    requires a.linkPrecedence == Secondary && b.linkPrecedence == Secondary
    ensures Primaries([a, b]) == []
    ensures SecondaryIds([a, b]) == [a.id, b.id]
  {
    NoPrimaryInPair(a, b);
    SecondaryIdsOfPair(a, b);
  }

  lemma NoPrimaryInPair(a: Contact, b: Contact)
    requires a.linkPrecedence == Secondary && b.linkPrecedence == Secondary
    ensures Primaries([a, b]) == []
  {
    assert Primaries([a]) == [] by {
      PrimariesSnoc([], a);
      assert [] + [a] == [a];
    }
    PrimariesSnoc([a], b);
    assert [a] + [b] == [a, b];
  }

  lemma SecondaryIdsOfPair(a: Contact, b: Contact)
    requires a.linkPrecedence == Secondary && b.linkPrecedence == Secondary
    ensures SecondaryIds([a, b]) == [a.id, b.id]
  {
    assert SecondaryIds([a]) == [a.id] by {
      SecondaryIdsSnoc([], a);
      assert [] + [a] == [a];
    }
    SecondaryIdsSnoc([a], b);
    assert [a] + [b] == [a, b];
  }

  lemma SecondaryIdsSnoc(cs: seq<Contact>, c: Contact)
    ensures SecondaryIds(cs + [c]) == if c.linkPrecedence == Secondary then SecondaryIds(cs) + [c.id] else SecondaryIds(cs)
  {
    assert (cs + [c])[..|cs|] == cs;
    var init := Select(cs, (d: Contact) => d.linkPrecedence == Secondary);
    assert Ids(init + [c]) == Ids(init) + [c.id];
  }

  lemma LateTable()
    requires StoreInvariant(ChainMerged(), 4)
    ensures ReconcileMatched(ChainMerged(), 4, [ChainMerged()[2]], Some("b"), None).contacts == ChainMerged()
    ensures ReconcileMatched(ChainMerged(), 4, [ChainMerged()[2]], Some("b"), None).nextId == 4
  {
    var m := ChainMerged();
    LateSettle();
    MatchedTable(m, 4, [m[2]], Some("b"), None);
    assert m[1..] == [m[1], m[2]];
    FirstOfSecondaries(m[1], m[2]);
    LateNothingNew();
    assert m + [] == m;
  }

  lemma LateResult()
    requires StoreInvariant(ChainMerged(), 4)
    ensures ReconcileMatched(ChainMerged(), 4, [ChainMerged()[2]], Some("b"), None).result ==
      Success(Assemble(ChainMerged()[1], ChainMerged()[1..]))
  {
    var m := ChainMerged();
    LateSettle();
    MatchedResult(m, 4, [m[2]], Some("b"), None);
    assert m[1..] == [m[1], m[2]];
    FirstOfSecondaries(m[1], m[2]);
    LateNothingNew();
    assert m[1..] + [] == m[1..];
  }

  lemma LateNothingNew()
    ensures NewSecondaries(ChainMerged()[1..], Some("b"), None, 2, 4) == []
  {
    var related := ChainMerged()[1..];
    assert related[1] in related && related[1].email == Some("b");
    assert EmailKnown(related, Some("b"));
  }

  /** With no PRIMARY among them, the first record is the one picked. */
  lemma FirstOfSecondaries(a: Contact, b: Contact)
    requires a.linkPrecedence == Secondary && b.linkPrecedence == Secondary
    ensures PickPrimary([a, b]) == a
  {
    assert forall c :: c in [a, b] ==> c.linkPrecedence == Secondary;
  }

  lemma LateResponse()
    ensures Assemble(ChainMerged()[1], ChainMerged()[1..]) ==
      Response(PrimaryContatctId, 2, [None, Some("b")], [Some("p")], [2, 3])
  {
    var m := ChainMerged();
    var related := m[1..];
    assert related == [m[1], m[2]];
    assert EmailsOf(related) == [None, Some("b")];
    assert PhonesOf(related) == [Some("p"), None];
    assert Present([None, Some("b")]) == ["b"] by {
      assert [None, Some("b")][1..] == [Some("b")];
      PresentOfOne(Some("b"));
    }
    DedupOfOne("b");
    assert OthersThan(["b"], None) == [Some("b")] by {
      assert ["b"][1..] == [];
    }
    assert Listing(None, [None, Some("b")]) == [None, Some("b")];
    assert Present([Some("p"), None]) == ["p"] by {
      var rest: seq<Option<string>> := [None];
      assert [Some("p"), None][1..] == rest && rest[1..] == [];
    }
    DedupOfOne("p");
    OthersThanOwn("p");
    assert Listing(Some("p"), [Some("p"), None]) == [Some("p")];
    BothSecondary(m[1], m[2]);
  }

  lemma ChainOutcome()
    requires StoreInvariant(ChainTable(), 4)
    ensures ReconcileMatched(ChainTable(), 4, ChainTable()[..2], Some("a"), Some("p")).contacts == ChainMerged()
  {
    ChainSettle();
    MatchedTable(ChainTable(), 4, ChainTable()[..2], Some("a"), Some("p"));
    var related := ChainMerged()[..2];
    assert PickPrimary(related) == related[0];
    ChainNothingNew();
    assert ChainMerged() + [] == ChainMerged();
  }

  lemma ChainNothingNew()
    ensures NewSecondaries(ChainMerged()[..2], Some("a"), Some("p"), 1, 4) == []
  {
    var related := ChainMerged()[..2];
    assert related[0] in related && related[0].email == Some("a");
    assert EmailKnown(related, Some("a"));
    assert related[1] in related && related[1].phoneNumber == Some("p");
    assert PhoneKnown(related, Some("p"));
  }
}
