/**
 * The contact table as a mutable store, and the `/identify` handler as a method on it that
 * reads the matching rows, creates and updates rows one statement at a time, and answers
 * from the refetched cluster.
 */
module Store {
  import opened Optional
  import opened Contacts
  import opened Consolidation
  import opened IdentifyProperties

  class ContactStore {
    /** The rows, in creation order. */
    var contacts: seq<Contact>
    /** The id (and creation rank) the next created row receives. */
    var nextId: nat

    /**
     * The table invariant: creation order with ids and links below the counter, primaries
     * unlinked and every link pointing at an older row.
     */
    ghost predicate Valid()
      reads this
    {
      WellFormed(contacts, nextId) && ConsistentLinks(contacts)
    }

    /** An empty table; the autoincrement id starts at 1. */
    constructor ()
      ensures Valid() && contacts == [] && nextId == 1
    {
      contacts := [];
      nextId := 1;
    }

    /** `prisma.contact.create`: appends a row with the next id. */
    method Create(email: Option<string>, phoneNumber: Option<string>, prec: LinkPrecedence, linked: Option<nat>)
      returns (created: Contact)
      requires Valid()
      requires prec.Primary? <==> linked.None?
      requires linked.Some? ==> linked.value < nextId
      modifies this
      ensures Valid()
      ensures created == Contact(old(nextId), email, phoneNumber, prec, linked)
      ensures contacts == old(contacts) + [created] && nextId == old(nextId) + 1
    {
      created := Contact(nextId, email, phoneNumber, prec, linked);
      AppendKeepsWellFormed(contacts, nextId, created);
      AppendKeepsLinks(contacts, created);
      contacts := contacts + [created];
      nextId := nextId + 1;
    }

    /** `prisma.contact.update({ where: { id }, ... })`: rewrites the linkage of the row with that id. */
    method Update(id: nat, prec: LinkPrecedence, linked: Option<nat>)
      requires Valid()
      requires prec.Primary? <==> linked.None?
      requires linked.Some? ==> linked.value < nextId && linked.value < id
      modifies this
      ensures Valid()
      ensures contacts == WithLinkage(old(contacts), id, prec, linked) && nextId == old(nextId)
    {
      WithLinkageKeepsWellFormed(contacts, nextId, id, prec, linked);
      WithLinkageKeepsLinks(contacts, id, prec, linked);
      contacts := WithLinkage(contacts, id, prec, linked);
    }

    /**
     * The handler's loop over the matching primaries: each one other than the anchor
     * becomes a secondary linked to the anchor.
     */
    method DemoteOtherPrimaries(primaryContacts: seq<Contact>, primaryId: nat)
      requires Valid()
      requires primaryId < nextId
      requires forall x :: x in IdsOf(primaryContacts) ==> primaryId <= x
      modifies this
      ensures Valid() && nextId == old(nextId)
      ensures contacts == Demote(old(contacts), IdsOf(primaryContacts), primaryId)
    {
      ghost var rivals := IdsOf(primaryContacts);
      var k := 0;
      while k < |primaryContacts|
        invariant k <= |primaryContacts|
        invariant Valid() && nextId == old(nextId)
        invariant contacts == Demote(old(contacts), rivals[..k], primaryId)
      {
        var c := primaryContacts[k];
        DemoteStep(old(contacts), rivals, k, primaryId);
        if c.id != primaryId {
          assert rivals[k] in rivals;
          Update(c.id, Secondary, Some(primaryId));
        }
        k := k + 1;
      }
      assert rivals[..k] == rivals;
    }

    /** The `POST /identify` handler. */
    method Identify(email: Option<string>, phoneNumber: Option<string>) returns (r: Response)
      requires Valid()
      modifies this
      ensures Valid()
      ensures var o := IdentifySpec(old(contacts), old(nextId), email, phoneNumber);
        r == o.response && contacts == o.contacts && nextId == o.nextId
    {
      if !Truthy(email) && !Truthy(phoneNumber) {
        return InvalidRequest;
      }
      var existing := MatchingSet(contacts, email, phoneNumber);
      var primaryContact := Anchor(existing);
      var primaryId: nat;
      if primaryContact.None? {
        var created := Create(email, phoneNumber, Primary, None);
        primaryId := created.id;
      } else {
        primaryId := primaryContact.value.id;
        assert primaryId < nextId;
        FindManyInOrder(contacts, c => Matches(c, email, phoneNumber));
        AnchorBelowRivals(existing, primaryContact.value);
        DemoteOtherPrimaries(Primaries(existing), primaryId);
        if ShouldInsert(existing, email, phoneNumber) {
          var _ := Create(email, phoneNumber, Secondary, Some(primaryId));
        }
      }
      r := Consolidate(contacts, primaryId);
    }
  }
}
