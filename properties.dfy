/**
 * What one `/identify` request does to the contact table and what it answers, stated over
 * `IdentifySpec` for every table and every request.
 */
module IdentifyProperties {
  import opened Optional
  import opened Contacts
  import opened Consolidation

  /** The response list a lone row contributes for one column. */
  function Lone(v: Option<string>): seq<string> {
    if Truthy(v) then [v.value] else []
  }

  // ---------------------------------------------------------------------------------------
  // What a request may write

  /**
   * A request creates at most one row, with the counter's id and the request's fields, and
   * never changes an existing row's id, email or phone number.
   */
  lemma AtMostOneRowCreatedFieldsKept(cs: seq<Contact>, nextId: nat, email: Option<string>, phoneNumber: Option<string>)
    ensures var o := IdentifySpec(cs, nextId, email, phoneNumber);
      && (|o.contacts| == |cs| || |o.contacts| == |cs| + 1)
      && (|o.contacts| == |cs| <==> o.nextId == nextId)
      && (|o.contacts| == |cs| + 1 ==>
            && o.nextId == nextId + 1
            && o.contacts[|cs|].id == nextId
            && o.contacts[|cs|].email == email && o.contacts[|cs|].phoneNumber == phoneNumber)
      && forall i :: 0 <= i < |cs| ==>
           && o.contacts[i].id == cs[i].id
           && o.contacts[i].email == cs[i].email
           && o.contacts[i].phoneNumber == cs[i].phoneNumber
  {
  }

  // ---------------------------------------------------------------------------------------
  // No match: a new primary

  /**
   * When no row matches a valid request, exactly one row is created: a primary without a
   * link that carries the request's fields; the answer names it and has no secondaries.
   */
  lemma {:induction false} NoMatchCreatesPrimary(cs: seq<Contact>, nextId: nat, email: Option<string>, phoneNumber: Option<string>)
    requires WellFormed(cs, nextId)
    requires Truthy(email) || Truthy(phoneNumber)
    requires forall c :: c in cs ==> !Matches(c, email, phoneNumber)
    ensures var o := IdentifySpec(cs, nextId, email, phoneNumber);
      && o.contacts == cs + [Contact(nextId, email, phoneNumber, Primary, None)]
      && o.nextId == nextId + 1
      && o.response == Consolidated(nextId, Lone(email), Lone(phoneNumber), [])
  {
    var created := Contact(nextId, email, phoneNumber, Primary, None);
    var grown := cs + [created];
    assert IdentifySpec(cs, nextId, email, phoneNumber) == Outcome(Consolidate(grown, nextId), grown, nextId + 1) by {
      FindManyNone(cs, c => Matches(c, email, phoneNumber));
    }
    assert Cluster(grown, nextId) == [created] by {
      FindManyNone(cs, c => InCluster(c, nextId));
      FindManyConcat(cs, [created], c => InCluster(c, nextId));
      assert [created][1..] == [];
    }
    LonePrimaryResponse(grown, created);
  }

  /** A cluster made of one primary row answers with that row's id, its own values and no secondaries. */
  lemma LonePrimaryResponse(cs: seq<Contact>, c: Contact)
    requires c.linkPrecedence.Primary? && Cluster(cs, c.id) == [c]
    ensures Consolidate(cs, c.id) == Consolidated(c.id, Lone(c.email), Lone(c.phoneNumber), [])
  {
    assert [c][1..] == [];
    assert Present([c], Email) == Lone(c.email);
    assert Present([c], Phone) == Lone(c.phoneNumber);
    assert Distinct(Lone(c.email)) == Lone(c.email);
    assert Distinct(Lone(c.phoneNumber)) == Lone(c.phoneNumber);
    assert Secondaries([c]) == [];
  }

  // ---------------------------------------------------------------------------------------
  // The anchor

  /**
   * The anchor exists exactly when some row matches. It is a matching row; if any matching
   * row is primary, it is the oldest matching primary; otherwise it is the oldest matching row.
   */
  lemma AnchorIsOldestPrimaryElseOldest(cs: seq<Contact>, nextId: nat, email: Option<string>, phoneNumber: Option<string>)
    requires WellFormed(cs, nextId)
    ensures var a := Anchor(MatchingSet(cs, email, phoneNumber));
      && (a.Some? <==> exists c :: c in cs && Matches(c, email, phoneNumber))
      && (a.Some? ==> a.value in cs && Matches(a.value, email, phoneNumber))
      && (a.Some? && (exists c :: c in cs && Matches(c, email, phoneNumber) && c.linkPrecedence.Primary?) ==>
            && a.value.linkPrecedence.Primary?
            && forall c :: c in cs && Matches(c, email, phoneNumber) && c.linkPrecedence.Primary? ==> a.value.id <= c.id)
      && (a.Some? && !a.value.linkPrecedence.Primary? ==>
            forall c :: c in cs && Matches(c, email, phoneNumber) ==> a.value.id <= c.id)
  {
    var ms := MatchingSet(cs, email, phoneNumber);
    FindManyInOrder(cs, c => Matches(c, email, phoneNumber));
    if ms != [] {
      assert ms[0] in ms;
      HeadIsOldest(ms);
    }
    match FirstPrimary(ms)
    case Some(p) => FirstPrimaryIsOldestPrimary(ms, p);
    case None =>
  }

  /** In a sequence in creation order, the first row is the oldest. */
  lemma HeadIsOldest(ms: seq<Contact>)
    requires IdsIncreasing(ms) && ms != []
    ensures forall c :: c in ms ==> ms[0].id <= c.id
  {
    forall c | c in ms
      ensures ms[0].id <= c.id
    {
      var j :| 0 <= j < |ms| && ms[j] == c;
    }
  }

  /** In a sequence in creation order, the first primary is the oldest primary. */
  lemma FirstPrimaryIsOldestPrimary(ms: seq<Contact>, p: Contact)
    requires IdsIncreasing(ms) && FirstPrimary(ms) == Some(p)
    ensures forall c :: c in ms && c.linkPrecedence.Primary? ==> p.id <= c.id
  {
    var k :| 0 <= k < |ms| && ms[k] == p && FirstPrimaryAt(ms, k);
    forall c | c in ms && c.linkPrecedence.Primary?
      ensures p.id <= c.id
    {
      var j :| 0 <= j < |ms| && ms[j] == c;
    }
  }

  /** In a matching set in creation order, the anchor is no younger than any primary it may demote. */
  lemma AnchorBelowRivals(ms: seq<Contact>, anchor: Contact)
    requires IdsIncreasing(ms) && Anchor(ms) == Some(anchor)
    ensures forall x :: x in IdsOf(Primaries(ms)) ==> anchor.id <= x
  {
    var ps := Primaries(ms);
    forall x | x in IdsOf(ps)
      ensures anchor.id <= x
    {
      var k :| 0 <= k < |ps| && IdsOf(ps)[k] == x;
      assert ps[k] in ps;
      FirstPrimaryIsOldestPrimary(ms, FirstPrimary(ms).value);
    }
  }

  // ---------------------------------------------------------------------------------------
  // Demotion

  /** In a table in creation order, a row is identified by its id. */
  lemma SameIdSameRow(cs: seq<Contact>, c: Contact, d: Contact)
    requires IdsIncreasing(cs)
    requires c in cs && d in cs && c.id == d.id
    ensures c == d
  {
    var i :| 0 <= i < |cs| && cs[i] == c;
    var j :| 0 <= j < |cs| && cs[j] == d;
  }

  /**
   * After a request that matched, every matching primary other than the anchor is a
   * secondary linked to the anchor, and every other existing row is exactly as before.
   */
  lemma DemotesExactlyOtherMatchingPrimaries(cs: seq<Contact>, nextId: nat, email: Option<string>, phoneNumber: Option<string>)
    requires WellFormed(cs, nextId)
    requires Truthy(email) || Truthy(phoneNumber)
    requires exists c :: c in cs && Matches(c, email, phoneNumber)
    ensures var a := Anchor(MatchingSet(cs, email, phoneNumber)).value;
      var o := IdentifySpec(cs, nextId, email, phoneNumber);
      forall i :: 0 <= i < |cs| ==>
        o.contacts[i] ==
          if Matches(cs[i], email, phoneNumber) && cs[i].linkPrecedence.Primary? && cs[i].id != a.id
          then cs[i].(linkPrecedence := Secondary, linkedId := Some(a.id))
          else cs[i]
  {
    var ms := MatchingSet(cs, email, phoneNumber);
    var c0 :| c0 in cs && Matches(c0, email, phoneNumber);
    assert c0 in ms;
    var a := Anchor(ms).value;
    var ps := Primaries(ms);
    var rivals := IdsOf(ps);
    var o := IdentifySpec(cs, nextId, email, phoneNumber);
    forall i | 0 <= i < |cs|
      ensures o.contacts[i] == DemoteOne(cs[i], rivals, a.id)
      ensures (cs[i].id in rivals) == (Matches(cs[i], email, phoneNumber) && cs[i].linkPrecedence.Primary?)
    {
      assert cs[i] in cs;
      if cs[i].id in rivals {
        var k :| 0 <= k < |rivals| && rivals[k] == cs[i].id;
        assert ps[k] in ps;
        SameIdSameRow(cs, ps[k], cs[i]);
      }
      if Matches(cs[i], email, phoneNumber) && cs[i].linkPrecedence.Primary? {
        assert cs[i] in ps;
        var k :| 0 <= k < |ps| && ps[k] == cs[i];
        assert rivals[k] == cs[i].id;
      }
    }
  }

  // ---------------------------------------------------------------------------------------
  // The new secondary

  /**
   * After a request that matched, a row is added exactly when no matching row carries the
   * supplied pair and at least one supplied field is carried by no matching row; the added
   * row is a secondary linked to the anchor that carries the request's fields.
   */
  lemma InsertsOnlyNewInformation(cs: seq<Contact>, nextId: nat, email: Option<string>, phoneNumber: Option<string>)
    requires Truthy(email) || Truthy(phoneNumber)
    requires exists c :: c in cs && Matches(c, email, phoneNumber)
    ensures var o := IdentifySpec(cs, nextId, email, phoneNumber);
      && (|o.contacts| == |cs| + 1 <==>
            && !(exists c :: c in cs && Matches(c, email, phoneNumber)
                   && StrictlyEquals(c.email, email) && StrictlyEquals(c.phoneNumber, phoneNumber))
            && (|| (forall c :: c in cs && Matches(c, email, phoneNumber) ==> !StrictlyEquals(c.email, email))
                || (forall c :: c in cs && Matches(c, email, phoneNumber) ==> !StrictlyEquals(c.phoneNumber, phoneNumber))))
      && (|o.contacts| == |cs| + 1 ==>
            o.contacts[|cs|] ==
              Contact(nextId, email, phoneNumber, Secondary, Some(Anchor(MatchingSet(cs, email, phoneNumber)).value.id)))
  {
    var ms := MatchingSet(cs, email, phoneNumber);
    var c0 :| c0 in cs && Matches(c0, email, phoneNumber);
    assert c0 in ms;
  }

  /**
   * A request that leaves one field out adds a secondary whenever some row matches: an
   * absent field never equals a stored value, so the duplicate test never fires.
   */
  lemma SingleFieldRequestAlwaysInserts(cs: seq<Contact>, nextId: nat, email: Option<string>, phoneNumber: Option<string>)
    requires email.None? || phoneNumber.None?
    requires Truthy(email) || Truthy(phoneNumber)
    requires exists c :: c in cs && Matches(c, email, phoneNumber)
    ensures var o := IdentifySpec(cs, nextId, email, phoneNumber);
      |o.contacts| == |cs| + 1 && o.contacts[|cs|].linkPrecedence.Secondary?
  {
    var c0 :| c0 in cs && Matches(c0, email, phoneNumber);
    assert c0 in MatchingSet(cs, email, phoneNumber);
  }

  // ---------------------------------------------------------------------------------------
  // Invariants kept by every request

  /** Every request keeps the table in creation order with ids and links below the counter. */
  lemma KeepsWellFormed(cs: seq<Contact>, nextId: nat, email: Option<string>, phoneNumber: Option<string>)
    requires WellFormed(cs, nextId)
    ensures var o := IdentifySpec(cs, nextId, email, phoneNumber);
      WellFormed(o.contacts, o.nextId)
  {
    var ms := MatchingSet(cs, email, phoneNumber);
    if Truthy(email) || Truthy(phoneNumber) {
      match Anchor(ms)
      case None =>
        AppendKeepsWellFormed(cs, nextId, Contact(nextId, email, phoneNumber, Primary, None));
      case Some(anchor) =>
        var demoted := Demote(cs, IdsOf(Primaries(ms)), anchor.id);
        assert anchor.id < nextId;
        DemoteKeepsWellFormed(cs, nextId, IdsOf(Primaries(ms)), anchor.id);
        if ShouldInsert(ms, email, phoneNumber) {
          AppendKeepsWellFormed(demoted, nextId, Contact(nextId, email, phoneNumber, Secondary, Some(anchor.id)));
        }
    }
  }

  /** Demotion towards an existing id keeps the table well formed. */
  lemma DemoteKeepsWellFormed(cs: seq<Contact>, nextId: nat, rivals: seq<nat>, anchorId: nat)
    requires WellFormed(cs, nextId) && anchorId < nextId
    ensures WellFormed(Demote(cs, rivals, anchorId), nextId)
  {
    var d := Demote(cs, rivals, anchorId);
    forall c | c in d
      ensures c.id < nextId && (c.linkedId.Some? ==> c.linkedId.value < nextId)
    {
      var i :| 0 <= i < |d| && d[i] == c;
      assert cs[i] in cs;
    }
  }

  /**
   * Every request keeps links consistent: a primary has no link, and a secondary links to
   * a strictly older row (a demoted primary is younger than the anchor that absorbs it).
   */
  lemma KeepsLinksPointingBackward(cs: seq<Contact>, nextId: nat, email: Option<string>, phoneNumber: Option<string>)
    requires WellFormed(cs, nextId) && ConsistentLinks(cs)
    ensures ConsistentLinks(IdentifySpec(cs, nextId, email, phoneNumber).contacts)
  {
    var ms := MatchingSet(cs, email, phoneNumber);
    if Truthy(email) || Truthy(phoneNumber) {
      match Anchor(ms)
      case None =>
        AppendKeepsLinks(cs, Contact(nextId, email, phoneNumber, Primary, None));
      case Some(anchor) =>
        var rivals := IdsOf(Primaries(ms));
        assert anchor.id < nextId;
        FindManyInOrder(cs, c => Matches(c, email, phoneNumber));
        AnchorBelowRivals(ms, anchor);
        DemoteKeepsLinks(cs, rivals, anchor.id);
        if ShouldInsert(ms, email, phoneNumber) {
          AppendKeepsLinks(Demote(cs, rivals, anchor.id), Contact(nextId, email, phoneNumber, Secondary, Some(anchor.id)));
        }
    }
  }

  /** Demoting only rows no older than the anchor keeps links pointing backward. */
  lemma DemoteKeepsLinks(cs: seq<Contact>, rivals: seq<nat>, anchorId: nat)
    requires ConsistentLinks(cs)
    requires forall x :: x in rivals ==> anchorId <= x
    ensures ConsistentLinks(Demote(cs, rivals, anchorId))
  {
    var d := Demote(cs, rivals, anchorId);
    forall c | c in d
      ensures (c.linkPrecedence.Primary? <==> c.linkedId.None?)
      ensures c.linkedId.Some? ==> c.linkedId.value < c.id
    {
      var i :| 0 <= i < |d| && d[i] == c;
      assert cs[i] in cs;
      assert c == DemoteOne(cs[i], rivals, anchorId);
    }
  }

  // ---------------------------------------------------------------------------------------
  // The primary's own values come first

  /**
   * On a table in creation order whose links point backward, a row is the first of its own
   * refetched cluster: every other member links to it and is therefore younger.
   */
  lemma ClusterStartsWithAnchor(cs: seq<Contact>, p: Contact)
    requires IdsIncreasing(cs) && ConsistentLinks(cs) && p in cs
    ensures var cl := Cluster(cs, p.id); cl != [] && cl[0] == p
  {
    var cl := Cluster(cs, p.id);
    FindManyInOrder(cs, c => InCluster(c, p.id));
    assert p in cl;
    var k :| 0 <= k < |cl| && cl[k] == p;
    assert cl[0] in cl && cl[0] in cs;
    assert p.id <= cl[0].id;
    assert k == 0;
  }

  /**
   * On such a table, the answer for a row's cluster lists that row's own non-empty email and
   * phone number first.
   */
  lemma OwnValuesFirst(cs: seq<Contact>, p: Contact)
    requires IdsIncreasing(cs) && ConsistentLinks(cs) && p in cs
    ensures var r := Consolidate(cs, p.id);
      && (Truthy(p.email) ==> r.emails != [] && r.emails[0] == p.email.value)
      && (Truthy(p.phoneNumber) ==> r.phoneNumbers != [] && r.phoneNumbers[0] == p.phoneNumber.value)
  {
    var cl := Cluster(cs, p.id);
    ClusterStartsWithAnchor(cs, p);
    if Truthy(p.email) {
      assert Present(cl, Email)[0] == p.email.value;
      DistinctHead(Present(cl, Email));
    }
    if Truthy(p.phoneNumber) {
      assert Present(cl, Phone)[0] == p.phoneNumber.value;
      DistinctHead(Present(cl, Phone));
    }
  }

  /**
   * A valid request answers with the id of a row of the resulting table; on every table the
   * handler itself builds, that row's own non-empty email and phone number head the
   * answer's lists.
   */
  lemma PrimaryValuesFirst(cs: seq<Contact>, nextId: nat, email: Option<string>, phoneNumber: Option<string>)
    requires WellFormed(cs, nextId) && ConsistentLinks(cs)
    requires Truthy(email) || Truthy(phoneNumber)
    ensures var o := IdentifySpec(cs, nextId, email, phoneNumber);
      exists p :: p in o.contacts && p.id == o.response.primaryContactId
        && (Truthy(p.email) ==> o.response.emails != [] && o.response.emails[0] == p.email.value)
        && (Truthy(p.phoneNumber) ==> o.response.phoneNumbers != [] && o.response.phoneNumbers[0] == p.phoneNumber.value)
  {
    var o := IdentifySpec(cs, nextId, email, phoneNumber);
    KeepsWellFormed(cs, nextId, email, phoneNumber);
    KeepsLinksPointingBackward(cs, nextId, email, phoneNumber);
    var p := PrimaryRow(cs, nextId, email, phoneNumber);
    OwnValuesFirst(o.contacts, p);
  }

  /** The row a valid request answers with: the new primary, or the anchor as the table now holds it. */
  lemma PrimaryRow(cs: seq<Contact>, nextId: nat, email: Option<string>, phoneNumber: Option<string>) returns (p: Contact)
    requires Truthy(email) || Truthy(phoneNumber)
    ensures var o := IdentifySpec(cs, nextId, email, phoneNumber);
      && p in o.contacts && p.id == o.response.primaryContactId
      && o.response == Consolidate(o.contacts, p.id)
  {
    var ms := MatchingSet(cs, email, phoneNumber);
    match Anchor(ms)
    case None =>
      p := Contact(nextId, email, phoneNumber, Primary, None);
      assert (cs + [p])[|cs|] == p;
    case Some(anchor) =>
      var i :| 0 <= i < |cs| && cs[i] == anchor;
      var demoted := Demote(cs, IdsOf(Primaries(ms)), anchor.id);
      p := demoted[i];
      assert p in demoted;
      if ShouldInsert(ms, email, phoneNumber) {
        assert p in demoted + [Contact(nextId, email, phoneNumber, Secondary, Some(anchor.id))];
      }
  }

  // ---------------------------------------------------------------------------------------
  // Repeating a request

  lemma {:induction false} DemoteCons(cs: seq<Contact>, rivals: seq<nat>, anchorId: nat)
    requires cs != []
    ensures Demote(cs, rivals, anchorId) ==
      [DemoteOne(cs[0], rivals, anchorId)] + Demote(cs[1..], rivals, anchorId)
  {
  }

  /** Demotion changes no email or phone number, so it commutes with the match query. */
  lemma {:induction false} MatchingSetOfDemoted(cs: seq<Contact>, rivals: seq<nat>, anchorId: nat, email: Option<string>, phoneNumber: Option<string>)
    ensures MatchingSet(Demote(cs, rivals, anchorId), email, phoneNumber) ==
      Demote(MatchingSet(cs, email, phoneNumber), rivals, anchorId)
  {
    if cs != [] {
      DemoteCons(cs, rivals, anchorId);
      MatchingSetOfDemoted(cs[1..], rivals, anchorId, email, phoneNumber);
      var d := Demote(cs, rivals, anchorId);
      assert d[0] == DemoteOne(cs[0], rivals, anchorId) && d[1..] == Demote(cs[1..], rivals, anchorId);
      if Matches(cs[0], email, phoneNumber) {
        DemoteCons(MatchingSet(cs, email, phoneNumber), rivals, anchorId);
      }
    }
  }

  /** Demotion keeps the anchor the first primary: earlier rows stay non-primary and the anchor is untouched. */
  lemma {:induction false} FirstPrimaryOfDemoted(ms: seq<Contact>, rivals: seq<nat>, anchor: Contact)
    requires FirstPrimary(ms) == Some(anchor)
    ensures FirstPrimary(Demote(ms, rivals, anchor.id)) == Some(anchor)
  {
    DemoteCons(ms, rivals, anchor.id);
    if !ms[0].linkPrecedence.Primary? {
      FirstPrimaryOfDemoted(ms[1..], rivals, anchor);
    }
  }

  /** A non-primary row appended at the end does not change the first primary. */
  lemma {:induction false} FirstPrimaryAppend(ms: seq<Contact>, s: Contact)
    requires !s.linkPrecedence.Primary?
    ensures FirstPrimary(ms + [s]) == FirstPrimary(ms)
  {
    if ms != [] {
      assert (ms + [s])[1..] == ms[1..] + [s];
      FirstPrimaryAppend(ms[1..], s);
    }
  }

  /** Once every primary's id is a rival, the anchor's id is the only primary id left. */
  lemma OnlyAnchorStaysPrimary(ms: seq<Contact>, rivals: seq<nat>, anchorId: nat)
    requires forall c :: c in ms && c.linkPrecedence.Primary? ==> c.id in rivals
    ensures forall c :: c in Demote(ms, rivals, anchorId) && c.linkPrecedence.Primary? ==> c.id == anchorId
  {
    var d := Demote(ms, rivals, anchorId);
    forall c | c in d && c.linkPrecedence.Primary?
      ensures c.id == anchorId
    {
      var i :| 0 <= i < |d| && d[i] == c;
      assert ms[i] in ms;
    }
  }

  /** Demoting nothing but the anchor leaves the table as it is. */
  lemma DemoteOnlyAnchor(cs: seq<Contact>, rivals: seq<nat>, anchorId: nat)
    requires forall x :: x in rivals ==> x == anchorId
    ensures Demote(cs, rivals, anchorId) == cs
  {
  }

  /** Demotion keeps every email, so the email test answers the same on the demoted rows. */
  lemma ExistsWithEmailOfDemoted(ms: seq<Contact>, rivals: seq<nat>, anchorId: nat, email: Option<string>)
    ensures ExistsWithEmail(Demote(ms, rivals, anchorId), email) == ExistsWithEmail(ms, email)
  {
    var d := Demote(ms, rivals, anchorId);
    if ExistsWithEmail(d, email) {
      var c :| c in d && StrictlyEquals(c.email, email);
      var i :| 0 <= i < |d| && d[i] == c;
      assert ms[i] in ms && StrictlyEquals(ms[i].email, email);
    }
    if ExistsWithEmail(ms, email) {
      var c :| c in ms && StrictlyEquals(c.email, email);
      var i :| 0 <= i < |ms| && ms[i] == c;
      assert d[i] in d && StrictlyEquals(d[i].email, email);
    }
  }

  /** Demotion keeps every phone number, so the phone test answers the same on the demoted rows. */
  lemma ExistsWithPhoneOfDemoted(ms: seq<Contact>, rivals: seq<nat>, anchorId: nat, phoneNumber: Option<string>)
    ensures ExistsWithPhone(Demote(ms, rivals, anchorId), phoneNumber) == ExistsWithPhone(ms, phoneNumber)
  {
    var d := Demote(ms, rivals, anchorId);
    if ExistsWithPhone(d, phoneNumber) {
      var c :| c in d && StrictlyEquals(c.phoneNumber, phoneNumber);
      var i :| 0 <= i < |d| && d[i] == c;
      assert ms[i] in ms && StrictlyEquals(ms[i].phoneNumber, phoneNumber);
    }
    if ExistsWithPhone(ms, phoneNumber) {
      var c :| c in ms && StrictlyEquals(c.phoneNumber, phoneNumber);
      var i :| 0 <= i < |ms| && ms[i] == c;
      assert d[i] in d && StrictlyEquals(d[i].phoneNumber, phoneNumber);
    }
  }

  /** Demotion keeps every (email, phone) pair, so the exact-duplicate test answers the same. */
  lemma IsExactDuplicateOfDemoted(ms: seq<Contact>, rivals: seq<nat>, anchorId: nat, email: Option<string>, phoneNumber: Option<string>)
    ensures IsExactDuplicate(Demote(ms, rivals, anchorId), email, phoneNumber) == IsExactDuplicate(ms, email, phoneNumber)
  {
    var d := Demote(ms, rivals, anchorId);
    if IsExactDuplicate(d, email, phoneNumber) {
      var c :| c in d && StrictlyEquals(c.email, email) && StrictlyEquals(c.phoneNumber, phoneNumber);
      var i :| 0 <= i < |d| && d[i] == c;
      assert ms[i] in ms && StrictlyEquals(ms[i].email, email) && StrictlyEquals(ms[i].phoneNumber, phoneNumber);
    }
    if IsExactDuplicate(ms, email, phoneNumber) {
      var c :| c in ms && StrictlyEquals(c.email, email) && StrictlyEquals(c.phoneNumber, phoneNumber);
      var i :| 0 <= i < |ms| && ms[i] == c;
      assert d[i] in d && StrictlyEquals(d[i].email, email) && StrictlyEquals(d[i].phoneNumber, phoneNumber);
    }
  }

  /** The primaries of a sequence all carry ids the given test accepts, read off their id list. */
  lemma PrimaryIdsOnly(ms: seq<Contact>, anchorId: nat)
    requires forall c :: c in ms && c.linkPrecedence.Primary? ==> c.id == anchorId
    ensures forall x :: x in IdsOf(Primaries(ms)) ==> x == anchorId
  {
    var ps := Primaries(ms);
    forall x | x in IdsOf(ps) ensures x == anchorId {
      var k :| 0 <= k < |ps| && IdsOf(ps)[k] == x;
      assert ps[k] in ps;
    }
  }

  /** Every primary of a sequence has its id in the sequence's primary id list. */
  lemma PrimaryIdsCover(ms: seq<Contact>)
    ensures forall c :: c in ms && c.linkPrecedence.Primary? ==> c.id in IdsOf(Primaries(ms))
  {
    var ps := Primaries(ms);
    forall c | c in ms && c.linkPrecedence.Primary? ensures c.id in IdsOf(ps) {
      assert c in ps;
      var k :| 0 <= k < |ps| && ps[k] == c;
      assert IdsOf(ps)[k] == c.id;
    }
  }

  /**
   * After a request that matched, the same request finds the same anchor, no primary other
   * than the anchor among its matches, and nothing to insert.
   */
  lemma {:induction false} RepeatAfterMatch(cs: seq<Contact>, nextId: nat, email: Option<string>, phoneNumber: Option<string>, anchor: Contact)
    requires email.Some? && phoneNumber.Some?
    requires Truthy(email) || Truthy(phoneNumber)
    requires Anchor(MatchingSet(cs, email, phoneNumber)) == Some(anchor)
    ensures var ms := MatchingSet(cs, email, phoneNumber);
      var demoted := Demote(cs, IdsOf(Primaries(ms)), anchor.id);
      var after := if ShouldInsert(ms, email, phoneNumber)
        then demoted + [Contact(nextId, email, phoneNumber, Secondary, Some(anchor.id))] else demoted;
      var ms1 := MatchingSet(after, email, phoneNumber);
      && Anchor(ms1) == Some(anchor)
      && (forall x :: x in IdsOf(Primaries(ms1)) ==> x == anchor.id)
      && !ShouldInsert(ms1, email, phoneNumber)
  {
    var ms := MatchingSet(cs, email, phoneNumber);
    var rivals := IdsOf(Primaries(ms));
    var demoted := Demote(cs, rivals, anchor.id);
    MatchingSetOfDemoted(cs, rivals, anchor.id, email, phoneNumber);
    var dms := Demote(ms, rivals, anchor.id);
    if FirstPrimary(ms).Some? {
      FirstPrimaryOfDemoted(ms, rivals, anchor);
    } else {
      FindManyNone(ms, (c: Contact) => c.linkPrecedence.Primary?);
      DemoteOnlyAnchor(ms, rivals, anchor.id);
    }
    assert FirstPrimary(dms) == FirstPrimary(ms) && |dms| == |ms|;
    assert Anchor(dms) == Some(anchor);
    PrimaryIdsCover(ms);
    OnlyAnchorStaysPrimary(ms, rivals, anchor.id);
    ExistsWithEmailOfDemoted(ms, rivals, anchor.id, email);
    ExistsWithPhoneOfDemoted(ms, rivals, anchor.id, phoneNumber);
    IsExactDuplicateOfDemoted(ms, rivals, anchor.id, email, phoneNumber);
    if ShouldInsert(ms, email, phoneNumber) {
      RepeatAfterInsert(demoted, dms, Contact(nextId, email, phoneNumber, Secondary, Some(anchor.id)), anchor, email, phoneNumber);
    } else {
      PrimaryIdsOnly(dms, anchor.id);
    }
  }

  /**
   * With the new secondary appended to the demoted table, the same request again finds the
   * anchor, no other primary, and the exact pair it just wrote.
   */
  lemma RepeatAfterInsert(demoted: seq<Contact>, dms: seq<Contact>, added: Contact, anchor: Contact,
                          email: Option<string>, phoneNumber: Option<string>)
    requires MatchingSet(demoted, email, phoneNumber) == dms
    requires Anchor(dms) == Some(anchor)
    requires forall c :: c in dms && c.linkPrecedence.Primary? ==> c.id == anchor.id
    requires Truthy(email) || Truthy(phoneNumber)
    requires email.Some? && phoneNumber.Some?
    requires added.email == email && added.phoneNumber == phoneNumber && added.linkPrecedence == Secondary
    ensures var ms1 := MatchingSet(demoted + [added], email, phoneNumber);
      && Anchor(ms1) == Some(anchor)
      && (forall x :: x in IdsOf(Primaries(ms1)) ==> x == anchor.id)
      && !ShouldInsert(ms1, email, phoneNumber)
  {
    FindManyConcat(demoted, [added], c => Matches(c, email, phoneNumber));
    FindManyConcat([added], [], c => Matches(c, email, phoneNumber));
    var ms1 := dms + [added];
    assert MatchingSet(demoted + [added], email, phoneNumber) == ms1;
    FirstPrimaryAppend(dms, added);
    assert ms1[0] == dms[0];
    assert added in ms1;
    assert forall c :: c in ms1 && c.linkPrecedence.Primary? ==> c.id == anchor.id;
    PrimaryIdsOnly(ms1, anchor.id);
  }

  /**
   * Repeating a request that supplies both fields changes nothing the second time: no row
   * is created, none is demoted, and the answer is the same.
   */
  lemma RepeatedRequestIsNoOp(cs: seq<Contact>, nextId: nat, email: Option<string>, phoneNumber: Option<string>)
    requires email.Some? && phoneNumber.Some?
    requires Truthy(email) || Truthy(phoneNumber)
    ensures var first := IdentifySpec(cs, nextId, email, phoneNumber);
      IdentifySpec(first.contacts, first.nextId, email, phoneNumber) == first
  {
    var ms := MatchingSet(cs, email, phoneNumber);
    match Anchor(ms)
    case None =>
      var created := Contact(nextId, email, phoneNumber, Primary, None);
      var grown := cs + [created];
      FindManyConcat(cs, [created], c => Matches(c, email, phoneNumber));
      FindManyConcat([created], [], c => Matches(c, email, phoneNumber));
      assert ms == [];
      var ms1 := MatchingSet(grown, email, phoneNumber);
      assert ms1 == [created];
      assert IsExactDuplicate(ms1, email, phoneNumber) by { assert created in ms1; }
      assert Anchor(ms1) == Some(created);
      PrimaryIdsOnly(ms1, nextId);
      DemoteOnlyAnchor(grown, IdsOf(Primaries(ms1)), nextId);
    case Some(anchor) =>
      RepeatAfterMatch(cs, nextId, email, phoneNumber, anchor);
      var rivals := IdsOf(Primaries(ms));
      var demoted := Demote(cs, rivals, anchor.id);
      var after := if ShouldInsert(ms, email, phoneNumber)
        then demoted + [Contact(nextId, email, phoneNumber, Secondary, Some(anchor.id))] else demoted;
      DemoteOnlyAnchor(after, IdsOf(Primaries(MatchingSet(after, email, phoneNumber))), anchor.id);
  }
}
