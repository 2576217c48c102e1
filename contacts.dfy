/**
 * The Contact record and the contact table it lives in.
 *
 * The table is a sequence of records in creation order. Ids are handed out
 * in increasing order, so creation order (`createdAt`) and id order agree
 * and "ordered by createdAt ascending" is the order of the sequence. The
 * two table queries the reconciler issues, the seed query and the cluster
 * read, and its linkage update are the pure functions `Matching`,
 * `Cluster` and `Demote` below.
 */
module Contacts {
  import opened Wrappers

  datatype Precedence = Primary | Secondary

  datatype Contact = Contact(
    id: nat,
    email: Option<string>,
    phoneNumber: Option<string>,
    linkPrecedence: Precedence,
    linkedId: Option<nat>)

  /** JavaScript truthiness of an optional string: present and not "". */
  predicate Truthy(s: Option<string>) {
    s.Some? && s.value != ""
  }

  /** Ids strictly increase along the table: ids are unique and in creation order. */
  predicate Ascending(cs: seq<Contact>) {
    forall i, j :: 0 <= i < j < |cs| ==> cs[i].id < cs[j].id
  }

  function IdSet(cs: seq<Contact>): set<nat> {
    set c | c in cs :: c.id
  }

  function Ids(cs: seq<Contact>): (r: seq<nat>)
    ensures |r| == |cs|
    ensures forall k :: 0 <= k < |cs| ==> r[k] == cs[k].id
  {
    seq(|cs|, k requires 0 <= k < |cs| => cs[k].id)
  }

  /** Every `linkedId` names a record of the table. */
  predicate LinksResolve(cs: seq<Contact>) {
    forall c :: c in cs && c.linkedId.Some? ==> c.linkedId.value in IdSet(cs)
  }

  predicate WellLinked(cs: seq<Contact>) {
    Ascending(cs) && LinksResolve(cs)
  }

  /**
   * What the table keeps true: unique ids in creation order, all below the
   * next id to hand out (autoincrement starts at 1), links that resolve.
   */
  predicate StoreInvariant(cs: seq<Contact>, nextId: nat) {
    0 < nextId && WellLinked(cs) && forall c :: c in cs ==> 0 < c.id < nextId
  }

  /** A record is SECONDARY exactly when it has a `linkedId`. */
  predicate LinkageConsistent(cs: seq<Contact>) {
    forall c :: c in cs ==> (c.linkPrecedence == Secondary <==> c.linkedId.Some?)
  }

  /**
   * `after` is `before` with at most the linkage of some records changed,
   * and every changed record is now SECONDARY: nothing is deleted, added,
   * reordered, renumbered, or given a different email or phone number.
   */
  predicate LinkageOnly(before: seq<Contact>, after: seq<Contact>) {
    |after| == |before| &&
    forall k :: 0 <= k < |before| ==>
      after[k].id == before[k].id &&
      after[k].email == before[k].email &&
      after[k].phoneNumber == before[k].phoneNumber &&
      (after[k] == before[k] || after[k].linkPrecedence == Secondary)
  }

  /** The records of `cs` that satisfy `keep`, in table order (`findMany` with a `where`). */
  function Select(cs: seq<Contact>, keep: Contact -> bool): (r: seq<Contact>)
    ensures |r| <= |cs|
    ensures forall c :: c in r <==> c in cs && keep(c)
    ensures Ascending(cs) ==> Ascending(r)
  {
    if cs == [] then []
    else
      var init := Select(cs[..|cs| - 1], keep);
      var last := cs[|cs| - 1];
      assert cs == cs[..|cs| - 1] + [last];
      assert Ascending(cs) ==> Ascending(init + [last]) by {
        if Ascending(cs) {
          AscendingSnoc(init, cs[..|cs| - 1], last);
        }
      }
      if keep(last) then init + [last] else init
  }

  /** Records drawn from an ascending prefix, in order, stay ascending with the prefix's successor after them. */
  lemma AscendingSnoc(init: seq<Contact>, prefix: seq<Contact>, last: Contact)
    requires Ascending(prefix + [last]) && Ascending(init)
    requires forall c :: c in init ==> c in prefix
    ensures Ascending(init + [last])
  {
    forall c | c in init ensures c.id < last.id {
      var i :| 0 <= i < |prefix| && prefix[i] == c;
      assert (prefix + [last])[i] == c && (prefix + [last])[|prefix|] == last;
    }
  }

  /**
   * The `where` of the seed query: the email matches or the phone number
   * matches, where only a truthy value takes part in the `OR`.
   */
  predicate Matches(c: Contact, email: Option<string>, phoneNumber: Option<string>) {
    (Truthy(email) && c.email == email) || (Truthy(phoneNumber) && c.phoneNumber == phoneNumber)
  }

  /** The seed query: the records that match, in creation order. */
  function Matching(cs: seq<Contact>, email: Option<string>, phoneNumber: Option<string>): (r: seq<Contact>)
    ensures forall c :: c in r <==> c in cs && Matches(c, email, phoneNumber)
    ensures Ascending(cs) ==> Ascending(r)
  {
    Select(cs, c => Matches(c, email, phoneNumber))
  }

  /** When no record matches, the seed query comes back empty. */
  lemma {:induction false} NoneMatching(cs: seq<Contact>, email: Option<string>, phoneNumber: Option<string>)
    requires forall c :: c in cs ==> !Matches(c, email, phoneNumber)
    ensures Matching(cs, email, phoneNumber) == []
  {
    if cs != [] {
      NoneMatching(cs[..|cs| - 1], email, phoneNumber);
      assert cs[|cs| - 1] in cs;
    }
  }

  /** A cluster read: `id = root OR linkedId = root`. */
  function Cluster(cs: seq<Contact>, root: nat): (r: seq<Contact>)
    ensures forall c :: c in r <==> c in cs && (c.id == root || c.linkedId == Some(root))
    ensures Ascending(cs) ==> Ascending(r)
  {
    Select(cs, (c: Contact) => c.id == root || c.linkedId == Some(root))
  }

  /** The linkage update `{ linkPrecedence: SECONDARY, linkedId: target }`. */
  function Demoted(c: Contact, target: nat): Contact {
    c.(linkPrecedence := Secondary, linkedId := Some(target))
  }

  /** `update where id = id`, applied to the table. */
  function Demote(cs: seq<Contact>, id: nat, target: nat): seq<Contact> {
    seq(|cs|, k requires 0 <= k < |cs| => if cs[k].id == id then Demoted(cs[k], target) else cs[k])
  }

  /**
   * Demote, one after the other, every id of `ids` other than `target` to
   * point at `target`. Each record whose id is listed (and is not the
   * target) ends up demoted once, whatever the order and repetitions of
   * `ids`; every other record is untouched.
   */
  function DemoteOthers(cs: seq<Contact>, ids: seq<nat>, target: nat): (r: seq<Contact>)
    ensures |r| == |cs|
    ensures forall k :: 0 <= k < |cs| ==>
      r[k] == if cs[k].id in ids && cs[k].id != target then Demoted(cs[k], target) else cs[k]
  {
    if ids == [] then cs
    else
      var prev := DemoteOthers(cs, ids[..|ids| - 1], target);
      var id := ids[|ids| - 1];
      assert ids == ids[..|ids| - 1] + [id];
      if id != target then Demote(prev, id, target) else prev
  }
}
