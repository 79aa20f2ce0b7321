/** Two request histories worked through end to end. */
module Scenarios {
  import opened Optional
  import opened Contacts
  import opened Consolidation

  /**
   * A known email with a new phone number: the request matches the primary by email, the
   * pair is new, so a secondary carrying both is linked to the primary.
   */
  lemma NewPhoneForKnownEmail()
    ensures var p1 := Contact(1, Some("a@x.com"), None, Primary, None);
      IdentifySpec([p1], 2, Some("a@x.com"), Some("111")) ==
        Outcome(Consolidated(1, ["a@x.com"], ["111"], [2]),
                [p1, Contact(2, Some("a@x.com"), Some("111"), Secondary, Some(1))], 3)
  {
    var p1 := Contact(1, Some("a@x.com"), None, Primary, None);
    var s2 := Contact(2, Some("a@x.com"), Some("111"), Secondary, Some(1));
    var email, phone := Some("a@x.com"), Some("111");
    NewPhoneSteps(p1, email, phone);
    var grown := [p1] + [s2];
    assert IdentifySpec([p1], 2, email, phone) == Outcome(Consolidate(grown, 1), grown, 3);
    assert grown == [p1, s2];
    NewPhoneResponse(p1, s2);
  }

  /** The steps before the answer: one match, nothing to demote, and the pair is new. */
  lemma NewPhoneSteps(p1: Contact, email: Option<string>, phone: Option<string>)
    requires p1 == Contact(1, Some("a@x.com"), None, Primary, None)
    requires email == Some("a@x.com") && phone == Some("111")
    ensures MatchingSet([p1], email, phone) == [p1] && Anchor([p1]) == Some(p1)
    ensures Demote([p1], IdsOf(Primaries([p1])), 1) == [p1]
    ensures ShouldInsert([p1], email, phone)
  {
    assert [p1][1..] == [];
    assert IdsOf(Primaries([p1])) == [1];
    assert !ExistsWithPhone([p1], phone);
  }

  lemma NewPhoneResponse(p1: Contact, s2: Contact)
    requires p1 == Contact(1, Some("a@x.com"), None, Primary, None)
    requires s2 == Contact(2, Some("a@x.com"), Some("111"), Secondary, Some(1))
    ensures Consolidate([p1, s2], 1) == Consolidated(1, ["a@x.com"], ["111"], [2])
  {
    var grown := [p1, s2];
    ClusterOfTwo(p1, s2);
    NewPhoneEmails(p1, s2);
    NewPhonePhones(p1, s2);
    SecondaryIdsOfTwo(p1, s2);
  }

  lemma SecondaryIdsOfTwo(p1: Contact, s2: Contact)
    requires p1.linkPrecedence == Primary && s2.linkPrecedence == Secondary
    ensures IdsOf(Secondaries([p1, s2])) == [s2.id]
  {
    assert [p1, s2][1..] == [s2] && [s2][1..] == [];
    var sec := Secondaries([p1, s2]);
    assert sec == [s2];
    var ids := IdsOf(sec);
    assert |ids| == 1 && ids[0] == s2.id;
  }

  lemma ClusterOfTwo(p1: Contact, s2: Contact)
    requires p1.id == 1 && s2.linkedId == Some(1)
    ensures Cluster([p1, s2], 1) == [p1, s2]
  {
    assert [p1, s2][1..] == [s2] && [s2][1..] == [];
    assert Cluster([s2], 1) == [s2];
  }

  lemma NewPhoneEmails(p1: Contact, s2: Contact)
    requires p1 == Contact(1, Some("a@x.com"), None, Primary, None)
    requires s2 == Contact(2, Some("a@x.com"), Some("111"), Secondary, Some(1))
    ensures Distinct(Present([p1, s2], Email)) == ["a@x.com"]
  {
    assert [p1, s2][1..] == [s2] && [s2][1..] == [];
    assert Present([s2], Email) == ["a@x.com"];
    assert Present([p1, s2], Email) == ["a@x.com", "a@x.com"];
    assert ["a@x.com", "a@x.com"][..1] == ["a@x.com"];
    assert Distinct(["a@x.com"]) == ["a@x.com"];
  }

  lemma NewPhonePhones(p1: Contact, s2: Contact)
    requires p1 == Contact(1, Some("a@x.com"), None, Primary, None)
    requires s2 == Contact(2, Some("a@x.com"), Some("111"), Secondary, Some(1))
    ensures Distinct(Present([p1, s2], Phone)) == ["111"]
  {
    assert [p1, s2][1..] == [s2] && [s2][1..] == [];
    assert Present([s2], Phone) == ["111"];
    assert Present([p1, s2], Phone) == ["111"];
    assert Distinct(["111"]) == ["111"];
  }

  /**
   * Two separate primaries joined by one request: the older primary (id 1) keeps its role,
   * the younger one (id 2) becomes its secondary, and since each field is already known no
   * row is added.
   */
  lemma MergeKeepsOlderPrimary()
    ensures var p1 := Contact(1, Some("a@x.com"), None, Primary, None);
      var p2 := Contact(2, None, Some("222"), Primary, None);
      IdentifySpec([p1, p2], 3, Some("a@x.com"), Some("222")) ==
        Outcome(Consolidated(1, ["a@x.com"], ["222"], [2]),
                [p1, Contact(2, None, Some("222"), Secondary, Some(1))], 3)
  {
    var p1 := Contact(1, Some("a@x.com"), None, Primary, None);
    var p2 := Contact(2, None, Some("222"), Primary, None);
    var d2 := Contact(2, None, Some("222"), Secondary, Some(1));
    var email, phone := Some("a@x.com"), Some("222");
    MergeSteps(p1, p2, d2, email, phone);
    var after := [p1, d2];
    assert IdentifySpec([p1, p2], 3, email, phone) == Outcome(Consolidate(after, 1), after, 3);
    MergeResponse(p1, d2);
  }

  /** The steps before the answer: both primaries match, the younger is demoted, nothing is new. */
  lemma MergeSteps(p1: Contact, p2: Contact, d2: Contact, email: Option<string>, phone: Option<string>)
    requires p1 == Contact(1, Some("a@x.com"), None, Primary, None)
    requires p2 == Contact(2, None, Some("222"), Primary, None)
    requires d2 == Contact(2, None, Some("222"), Secondary, Some(1))
    requires email == Some("a@x.com") && phone == Some("222")
    ensures MatchingSet([p1, p2], email, phone) == [p1, p2] && Anchor([p1, p2]) == Some(p1)
    ensures Demote([p1, p2], IdsOf(Primaries([p1, p2])), 1) == [p1, d2]
    ensures !ShouldInsert([p1, p2], email, phone)
  {
    assert [p1, p2][1..] == [p2] && [p2][1..] == [];
    assert MatchingSet([p2], email, phone) == [p2];
    assert Primaries([p1, p2]) == [p1, p2];
    assert IdsOf([p1, p2]) == [1, 2];
    assert p1 in [p1, p2] && p2 in [p1, p2];
  }

  lemma MergeResponse(p1: Contact, d2: Contact)
    requires p1 == Contact(1, Some("a@x.com"), None, Primary, None)
    requires d2 == Contact(2, None, Some("222"), Secondary, Some(1))
    ensures Consolidate([p1, d2], 1) == Consolidated(1, ["a@x.com"], ["222"], [2])
  {
    var after := [p1, d2];
    ClusterOfTwo(p1, d2);
    assert after[1..] == [d2] && [d2][1..] == [];
    assert Distinct(Present(after, Email)) == ["a@x.com"] by {
      assert Present([d2], Email) == [];
      assert Present(after, Email) == ["a@x.com"];
      assert Distinct(["a@x.com"]) == ["a@x.com"];
    }
    assert Distinct(Present(after, Phone)) == ["222"] by {
      assert Present([d2], Phone) == ["222"];
      assert Present(after, Phone) == ["222"];
      assert Distinct(["222"]) == ["222"];
    }
    SecondaryIdsOfTwo(p1, d2);
  }
}
