/** Options, used both for nullable stored columns and for request fields that may be absent. */
module Optional {
  datatype Option<+T> = None | Some(value: T)
}

/**
 * The contact table of the identity service: the record type, the response type and the
 * Prisma-style queries (equality filters, ordered by creation) that the handler issues.
 * The table is a sequence in creation order; ids come from an increasing counter, so
 * "ordered by createdAt" and "ordered by id" are the same order.
 */
module Contacts {
  import opened Optional

  datatype LinkPrecedence = Primary | Secondary

  /** One row of the contact table. A null column is None. */
  datatype Contact = Contact(
    id: nat,
    email: Option<string>,
    phoneNumber: Option<string>,
    linkPrecedence: LinkPrecedence,
    linkedId: Option<nat>)

  /** What the handler answers: a client error, or the consolidated identity. */
  datatype Response =
    | InvalidRequest
    | Consolidated(primaryContactId: nat, emails: seq<string>, phoneNumbers: seq<string>,
                   secondaryContactIds: seq<nat>)

  /** JavaScript truthiness of an optional request string: present and non-empty. */
  predicate Truthy(s: Option<string>) {
    s.Some? && s.value != ""
  }

  /**
   * JavaScript `===` between a stored column (null or a string) and a request field
   * (undefined or a string): an absent request field equals nothing.
   */
  predicate StrictlyEquals(stored: Option<string>, requested: Option<string>) {
    requested.Some? && stored == requested
  }

  /** Ids strictly increase along the sequence, i.e. the sequence is in creation order. */
  ghost predicate IdsIncreasing(cs: seq<Contact>) {
    forall i, j :: 0 <= i < j < |cs| ==> cs[i].id < cs[j].id
  }

  /** The table invariant the store keeps: creation order, and every id and link below the counter. */
  ghost predicate WellFormed(cs: seq<Contact>, nextId: nat) {
    && IdsIncreasing(cs)
    && (forall c :: c in cs ==> c.id < nextId)
    && (forall c :: c in cs && c.linkedId.Some? ==> c.linkedId.value < nextId)
  }

  /**
   * The shape the handler gives every record it writes: a primary has no link, a secondary
   * links to a strictly older record.
   */
  ghost predicate ConsistentLinks(cs: seq<Contact>) {
    forall c :: c in cs ==>
      && (c.linkPrecedence.Primary? <==> c.linkedId.None?)
      && (c.linkedId.Some? ==> c.linkedId.value < c.id)
  }

  /** `findMany({ where, orderBy: { createdAt: 'asc' } })`: the rows that satisfy `where`, in table order. */
  function FindMany(cs: seq<Contact>, where: Contact -> bool): (r: seq<Contact>)
    ensures |r| <= |cs|
    ensures forall c :: c in r <==> c in cs && where(c)
  {
    if cs == [] then []
    else
      var rest := FindMany(cs[1..], where);
      assert forall c :: c in rest ==> c in cs[1..];
      if where(cs[0]) then [cs[0]] + rest else rest
  }

  /** A query over a table in creation order answers in creation order. */
  lemma {:induction false} FindManyInOrder(cs: seq<Contact>, where: Contact -> bool)
    requires IdsIncreasing(cs)
    ensures IdsIncreasing(FindMany(cs, where))
  {
    if cs != [] {
      FindManyInOrder(cs[1..], where);
      var rest := FindMany(cs[1..], where);
      if where(cs[0]) {
        forall k | 0 <= k < |rest|
          ensures cs[0].id < rest[k].id
        {
          assert rest[k] in cs[1..];
          var m :| 0 <= m < |cs[1..]| && cs[1..][m] == rest[k];
          assert cs[m + 1] == rest[k];
        }
        var r := [cs[0]] + rest;
        forall i, j | 0 <= i < j < |r|
          ensures r[i].id < r[j].id
        {
          if i > 0 {
            assert r[i] == rest[i - 1] && r[j] == rest[j - 1];
          } else {
            assert r[j] == rest[j - 1];
          }
        }
      }
    }
  }

  /** A query that no row satisfies answers nothing. */
  lemma {:induction false} FindManyNone(cs: seq<Contact>, where: Contact -> bool)
    requires forall c :: c in cs ==> !where(c)
    ensures FindMany(cs, where) == []
  {
    if cs != [] {
      assert cs[0] in cs;
      FindManyNone(cs[1..], where);
    }
  }

  /** Appending a row with the counter's id, linked below the counter, keeps the table well formed. */
  lemma AppendKeepsWellFormed(cs: seq<Contact>, nextId: nat, c: Contact)
    requires WellFormed(cs, nextId)
    requires c.id == nextId && (c.linkedId.Some? ==> c.linkedId.value < nextId)
    ensures WellFormed(cs + [c], nextId + 1)
  {
    var grown := cs + [c];
    forall i, j | 0 <= i < j < |grown|
      ensures grown[i].id < grown[j].id
    {
      assert grown[i] in cs;
    }
  }

  /** Splitting the table splits every query's answer the same way. */
  lemma {:induction false} FindManyConcat(xs: seq<Contact>, ys: seq<Contact>, where: Contact -> bool)
    ensures FindMany(xs + ys, where) == FindMany(xs, where) + FindMany(ys, where)
  {
    if xs != [] {
      assert (xs + ys)[1..] == xs[1..] + ys;
      FindManyConcat(xs[1..], ys, where);
    } else {
      assert xs + ys == ys;
    }
  }

  /** The ids of a sequence of records, position by position. */
  function IdsOf(cs: seq<Contact>): (r: seq<nat>)
    ensures |r| == |cs|
    ensures forall i :: 0 <= i < |cs| ==> r[i] == cs[i].id
  {
    seq(|cs|, i requires 0 <= i < |cs| => cs[i].id)
  }

  /** `prisma.contact.update({ where: { id }, data: { linkPrecedence, linkedId } })` on the table. */
  function WithLinkage(cs: seq<Contact>, id: nat, prec: LinkPrecedence, linked: Option<nat>): (r: seq<Contact>)
    ensures |r| == |cs|
    ensures forall i :: 0 <= i < |cs| && cs[i].id != id ==> r[i] == cs[i]
    ensures forall i :: 0 <= i < |cs| && cs[i].id == id ==>
      r[i] == Contact(id, cs[i].email, cs[i].phoneNumber, prec, linked)
  {
    seq(|cs|, i requires 0 <= i < |cs| =>
      if cs[i].id == id then cs[i].(linkPrecedence := prec, linkedId := linked) else cs[i])
  }

  /** Updating a row's linkage to a link below the counter keeps the table well formed. */
  lemma WithLinkageKeepsWellFormed(cs: seq<Contact>, nextId: nat, id: nat, prec: LinkPrecedence, linked: Option<nat>)
    requires WellFormed(cs, nextId)
    requires linked.Some? ==> linked.value < nextId
    ensures WellFormed(WithLinkage(cs, id, prec, linked), nextId)
  {
    var r := WithLinkage(cs, id, prec, linked);
    forall i, j | 0 <= i < j < |r|
      ensures r[i].id < r[j].id
    {
      assert cs[i].id < cs[j].id;
    }
    forall c | c in r
      ensures c.id < nextId && (c.linkedId.Some? ==> c.linkedId.value < nextId)
    {
      var i :| 0 <= i < |r| && r[i] == c;
      assert cs[i] in cs;
    }
  }

  /** Appending a row whose own link is consistent keeps links consistent. */
  lemma AppendKeepsLinks(cs: seq<Contact>, c: Contact)
    requires ConsistentLinks(cs)
    requires c.linkPrecedence.Primary? <==> c.linkedId.None?
    requires c.linkedId.Some? ==> c.linkedId.value < c.id
    ensures ConsistentLinks(cs + [c])
  {
    forall d | d in cs + [c]
      ensures (d.linkPrecedence.Primary? <==> d.linkedId.None?)
      ensures d.linkedId.Some? ==> d.linkedId.value < d.id
    {
      if d != c {
        assert d in cs;
      }
    }
  }

  /**
   * Updating a row's linkage keeps links consistent when the new linkage is itself
   * consistent: a primary without a link, or a secondary linked to an older row.
   */
  lemma WithLinkageKeepsLinks(cs: seq<Contact>, id: nat, prec: LinkPrecedence, linked: Option<nat>)
    requires ConsistentLinks(cs)
    requires prec.Primary? <==> linked.None?
    requires linked.Some? ==> linked.value < id
    ensures ConsistentLinks(WithLinkage(cs, id, prec, linked))
  {
    var r := WithLinkage(cs, id, prec, linked);
    forall c | c in r
      ensures (c.linkPrecedence.Primary? <==> c.linkedId.None?)
      ensures c.linkedId.Some? ==> c.linkedId.value < c.id
    {
      var i :| 0 <= i < |r| && r[i] == c;
      assert cs[i] in cs;
    }
  }
}
