/**
 * The decisions of the `/identify` handler, as functions over a snapshot of the contact
 * table: which rows match the request, which one anchors the cluster, which primaries are
 * demoted, whether a new secondary is written, and how the response is assembled from the
 * refetched cluster. `IdentifySpec` composes them into the whole request.
 */
module Consolidation {
  import opened Optional
  import opened Contacts

  // ---------------------------------------------------------------------------------------
  // Matching

  /**
   * The row satisfies the query's OR filter: an email filter is added only for a truthy
   * email, a phone filter only for a truthy phone number.
   */
  predicate Matches(c: Contact, email: Option<string>, phoneNumber: Option<string>) {
    || (Truthy(email) && c.email == email)
    || (Truthy(phoneNumber) && c.phoneNumber == phoneNumber)
  }

  /** The matching set: every row whose email or phone equals a supplied value, in creation order. */
  function MatchingSet(cs: seq<Contact>, email: Option<string>, phoneNumber: Option<string>): (r: seq<Contact>)
    ensures forall c :: c in r <==> c in cs && Matches(c, email, phoneNumber)
  {
    FindMany(cs, c => Matches(c, email, phoneNumber))
  }

  /** The primary rows of a sequence, in order. */
  function Primaries(cs: seq<Contact>): (r: seq<Contact>)
    ensures forall c :: c in r <==> c in cs && c.linkPrecedence.Primary?
  {
    FindMany(cs, (c: Contact) => c.linkPrecedence.Primary?)
  }

  // ---------------------------------------------------------------------------------------
  // Choosing the anchor

  /** `find(c => c.linkPrecedence === 'primary')`: the first primary of the sequence. */
  function FirstPrimary(ms: seq<Contact>): (r: Option<Contact>)
    ensures r.None? <==> forall c :: c in ms ==> !c.linkPrecedence.Primary?
    ensures r.Some? ==> exists k :: 0 <= k < |ms| && ms[k] == r.value && FirstPrimaryAt(ms, k)
  {
    if ms == [] then None
    else if ms[0].linkPrecedence.Primary? then
      assert FirstPrimaryAt(ms, 0);
      Some(ms[0])
    else
      var r := FirstPrimary(ms[1..]);
      assert forall c :: c in ms ==> c == ms[0] || c in ms[1..];
      if r.Some? then
        var k :| 0 <= k < |ms[1..]| && ms[1..][k] == r.value && FirstPrimaryAt(ms[1..], k);
        assert ms[k + 1] == r.value && FirstPrimaryAt(ms, k + 1);
        r
      else r
  }

  /** Position k holds a primary and no earlier position does. */
  predicate FirstPrimaryAt(ms: seq<Contact>, k: nat)
    requires k < |ms|
  {
    ms[k].linkPrecedence.Primary? && forall j :: 0 <= j < k ==> !ms[j].linkPrecedence.Primary?
  }

  /**
   * `find(primary) || existingContacts[0]`: the first primary of the matching set, else its
   * oldest row, else nothing (the matching set is empty).
   */
  function Anchor(ms: seq<Contact>): (r: Option<Contact>)
    ensures r.None? <==> ms == []
    ensures r.Some? ==> r.value in ms
    ensures r.Some? && r.value.linkPrecedence.Primary? ==>
      exists k :: 0 <= k < |ms| && ms[k] == r.value && FirstPrimaryAt(ms, k)
    ensures r.Some? && !r.value.linkPrecedence.Primary? ==>
      r.value == ms[0] && forall c :: c in ms ==> !c.linkPrecedence.Primary?
  {
    match FirstPrimary(ms)
    case Some(p) => Some(p)
    case None => if ms == [] then None else Some(ms[0])
  }

  // ---------------------------------------------------------------------------------------
  // Demotion

  /**
   * One row after the demotion loop: a row whose id is one of the rival primaries' ids,
   * other than the anchor's, becomes a secondary linked to the anchor.
   */
  function DemoteOne(c: Contact, rivals: seq<nat>, anchorId: nat): Contact {
    if c.id in rivals && c.id != anchorId then
      c.(linkPrecedence := Secondary, linkedId := Some(anchorId))
    else c
  }

  /** The table after the demotion loop has updated every id in `rivals`. */
  function Demote(cs: seq<Contact>, rivals: seq<nat>, anchorId: nat): (r: seq<Contact>)
    ensures |r| == |cs|
    ensures forall i :: 0 <= i < |cs| ==>
      && r[i].id == cs[i].id && r[i].email == cs[i].email && r[i].phoneNumber == cs[i].phoneNumber
  {
    seq(|cs|, i requires 0 <= i < |cs| => DemoteOne(cs[i], rivals, anchorId))
  }

  /** One more iteration of the demotion loop: updating the next rival, unless it is the anchor itself. */
  lemma DemoteStep(cs: seq<Contact>, rivals: seq<nat>, k: nat, anchorId: nat)
    requires k < |rivals|
    ensures Demote(cs, rivals[..k + 1], anchorId) ==
      if rivals[k] == anchorId then Demote(cs, rivals[..k], anchorId)
      else WithLinkage(Demote(cs, rivals[..k], anchorId), rivals[k], Secondary, Some(anchorId))
  {
    assert rivals[..k + 1] == rivals[..k] + [rivals[k]];
  }

  // ---------------------------------------------------------------------------------------
  // The duplicate test

  /** `some(c => c.email === email && c.phoneNumber === phoneNumber)`. */
  predicate IsExactDuplicate(ms: seq<Contact>, email: Option<string>, phoneNumber: Option<string>) {
    exists c :: c in ms && StrictlyEquals(c.email, email) && StrictlyEquals(c.phoneNumber, phoneNumber)
  }

  /** `some(c => c.email === email)`. */
  predicate ExistsWithEmail(ms: seq<Contact>, email: Option<string>) {
    exists c :: c in ms && StrictlyEquals(c.email, email)
  }

  /** `some(c => c.phoneNumber === phoneNumber)`. */
  predicate ExistsWithPhone(ms: seq<Contact>, phoneNumber: Option<string>) {
    exists c :: c in ms && StrictlyEquals(c.phoneNumber, phoneNumber)
  }

  /**
   * A new secondary is written when the exact pair is absent, a field is supplied, and at
   * least one of the two fields is found on no matching row.
   */
  predicate ShouldInsert(ms: seq<Contact>, email: Option<string>, phoneNumber: Option<string>) {
    && !IsExactDuplicate(ms, email, phoneNumber)
    && (Truthy(email) || Truthy(phoneNumber))
    && (!ExistsWithEmail(ms, email) || !ExistsWithPhone(ms, phoneNumber))
  }

  // ---------------------------------------------------------------------------------------
  // Response assembly

  /** A row belongs to the refetched cluster of `primaryId`: it is that row or links to it. */
  predicate InCluster(c: Contact, primaryId: nat) {
    c.id == primaryId || c.linkedId == Some(primaryId)
  }

  /** The refetch: the anchor and every row linked to it, in creation order. */
  function Cluster(cs: seq<Contact>, primaryId: nat): (r: seq<Contact>)
    ensures forall c :: c in r <==> c in cs && InCluster(c, primaryId)
  {
    FindMany(cs, c => InCluster(c, primaryId))
  }

  /** The secondary rows of a sequence, in order. */
  function Secondaries(cs: seq<Contact>): (r: seq<Contact>)
    ensures forall c :: c in r <==> c in cs && c.linkPrecedence.Secondary?
  {
    FindMany(cs, (c: Contact) => c.linkPrecedence.Secondary?)
  }

  datatype Field = Email | Phone

  function FieldOf(c: Contact, f: Field): Option<string> {
    match f
    case Email => c.email
    case Phone => c.phoneNumber
  }

  /** `map(c => c.field).filter(v => !!v)`: the non-null, non-empty values of a column, in order. */
  function Present(cs: seq<Contact>, f: Field): (r: seq<string>)
    ensures forall x :: x in r <==> x != "" && exists c :: c in cs && FieldOf(c, f) == Some(x)
  {
    if cs == [] then []
    else
      var v := FieldOf(cs[0], f);
      assert forall c :: c in cs <==> c == cs[0] || c in cs[1..];
      (if Truthy(v) then [v.value] else []) + Present(cs[1..], f)
  }

  /** The position of the first occurrence of `x` in `s`. */
  function FirstIndex(s: seq<string>, x: string): (r: nat)
    requires x in s
    ensures r < |s| && s[r] == x && x !in s[..r]
  {
    if s[0] == x then 0 else 1 + FirstIndex(s[1..], x)
  }

  /** No value occurs twice. */
  predicate NoDuplicates(s: seq<string>) {
    forall i, j :: 0 <= i < j < |s| ==> s[i] != s[j]
  }

  /** The values of `r` occur in `s` and appear in `r` in the order of their first occurrence in `s`. */
  ghost predicate InFirstAppearanceOrder(r: seq<string>, s: seq<string>) {
    && (forall x :: x in r ==> x in s)
    && forall i, j :: 0 <= i < j < |r| && r[i] in s && r[j] in s ==>
         FirstIndex(s, r[i]) < FirstIndex(s, r[j])
  }

  /** `Array.from(new Set(s))`: the distinct values of `s`, in insertion order of the set. */
  function Distinct(s: seq<string>): (r: seq<string>)
    ensures forall x :: x in r <==> x in s
    ensures NoDuplicates(r)
    ensures InFirstAppearanceOrder(r, s)
  {
    if s == [] then []
    else
      var init := s[..|s| - 1];
      var last := s[|s| - 1];
      var d := Distinct(init);
      assert s == init + [last];
      FirstIndexInPrefix(init, last);
      if last in d then d else d + [last]
  }

  /** `Array.from(new Set(s))` starts with the first element of `s`. */
  lemma DistinctHead(s: seq<string>)
    requires s != []
    ensures Distinct(s) != [] && Distinct(s)[0] == s[0]
  {
    var r := Distinct(s);
    assert s[0] in r;
    assert FirstIndex(s, s[0]) == 0;
    forall i | 0 < i < |r|
      ensures r[i] != s[0]
    {
      assert r[0] in s && r[i] in s;
      assert FirstIndex(s, r[0]) < FirstIndex(s, r[i]);
    }
  }

  /** Extending a sequence at the end does not move the first occurrence of a value already in it. */
  lemma FirstIndexInPrefix(init: seq<string>, last: string)
    ensures forall x :: x in init ==> FirstIndex(init + [last], x) == FirstIndex(init, x)
    ensures last !in init ==> FirstIndex(init + [last], last) == |init|
  {
    var s := init + [last];
    forall x | x in init
      ensures FirstIndex(s, x) == FirstIndex(init, x)
    {
      var m := FirstIndex(init, x);
      assert s[..m] == init[..m] && s[m] == x;
    }
    if last !in init {
      assert s[..|init|] == init;
    }
  }

  /**
   * The consolidated response for the refetched cluster of `primaryId`: the anchor's id,
   * the distinct non-empty emails and phone numbers of the cluster, and the ids of the
   * cluster's secondary rows.
   */
  function Consolidate(cs: seq<Contact>, primaryId: nat): (r: Response)
    ensures r.Consolidated? && r.primaryContactId == primaryId
  {
    var cluster := Cluster(cs, primaryId);
    Consolidated(primaryId, Distinct(Present(cluster, Email)), Distinct(Present(cluster, Phone)),
                 IdsOf(Secondaries(cluster)))
  }

  /** The ids strictly increase along the sequence. */
  predicate StrictlyIncreasing(s: seq<nat>) {
    forall i, j :: 0 <= i < j < |s| ==> s[i] < s[j]
  }

  /**
   * The response lists exactly the non-empty emails and phone numbers of the anchor and the
   * rows linked to it, each once, in the order in which the cluster's rows first carry them;
   * and exactly the ids of the cluster's secondary rows, in creation order.
   */
  lemma ResponseDescribesCluster(cs: seq<Contact>, primaryId: nat)
    ensures var r := Consolidate(cs, primaryId);
      && r.Consolidated? && r.primaryContactId == primaryId
      && (forall x :: x in r.emails <==>
            x != "" && exists c :: c in cs && InCluster(c, primaryId) && c.email == Some(x))
      && (forall x :: x in r.phoneNumbers <==>
            x != "" && exists c :: c in cs && InCluster(c, primaryId) && c.phoneNumber == Some(x))
      && NoDuplicates(r.emails) && NoDuplicates(r.phoneNumbers)
      && InFirstAppearanceOrder(r.emails, Present(Cluster(cs, primaryId), Email))
      && InFirstAppearanceOrder(r.phoneNumbers, Present(Cluster(cs, primaryId), Phone))
      && (forall x :: x in r.secondaryContactIds <==>
            exists c :: c in cs && InCluster(c, primaryId) && c.linkPrecedence.Secondary? && c.id == x)
      && (IdsIncreasing(cs) ==> StrictlyIncreasing(r.secondaryContactIds))
  {
    var cluster := Cluster(cs, primaryId);
    var secondaries := Secondaries(cluster);
    var ids := IdsOf(secondaries);
    forall x | x in ids ensures exists c :: c in secondaries && c.id == x {
      var i :| 0 <= i < |ids| && ids[i] == x;
      assert secondaries[i] in secondaries;
    }
    forall c | c in secondaries ensures c.id in ids {
      var i :| 0 <= i < |secondaries| && secondaries[i] == c;
      assert ids[i] == c.id;
    }
    if IdsIncreasing(cs) {
      FindManyInOrder(cs, c => InCluster(c, primaryId));
      FindManyInOrder(cluster, (c: Contact) => c.linkPrecedence.Secondary?);
    }
  }

  // ---------------------------------------------------------------------------------------
  // The whole request

  /** The handler's effect: its answer, the table afterwards and the id counter afterwards. */
  datatype Outcome = Outcome(response: Response, contacts: seq<Contact>, nextId: nat)

  /**
   * One `/identify` request on the table `cs` whose next fresh id is `nextId`: validation,
   * the match query, the anchor, the new primary when nothing matches, otherwise the
   * demotion of the other matching primaries and the conditional new secondary, and
   * finally the response built from the refetched cluster.
   */
  function IdentifySpec(cs: seq<Contact>, nextId: nat, email: Option<string>, phoneNumber: Option<string>): (o: Outcome)
    ensures o.response.InvalidRequest? <==> !Truthy(email) && !Truthy(phoneNumber)
    ensures o.response.InvalidRequest? ==> o.contacts == cs && o.nextId == nextId
  {
    if !Truthy(email) && !Truthy(phoneNumber) then Outcome(InvalidRequest, cs, nextId)
    else
      var ms := MatchingSet(cs, email, phoneNumber);
      match Anchor(ms)
      case None =>
        var grown := cs + [Contact(nextId, email, phoneNumber, Primary, None)];
        Outcome(Consolidate(grown, nextId), grown, nextId + 1)
      case Some(anchor) =>
        var demoted := Demote(cs, IdsOf(Primaries(ms)), anchor.id);
        if ShouldInsert(ms, email, phoneNumber) then
          var grown := demoted + [Contact(nextId, email, phoneNumber, Secondary, Some(anchor.id))];
          Outcome(Consolidate(grown, anchor.id), grown, nextId + 1)
        else
          Outcome(Consolidate(demoted, anchor.id), demoted, nextId)
  }
}
