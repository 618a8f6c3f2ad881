/** The response the identify handler assembles from a resolved cluster:
    the primary's id, the distinct emails and phone numbers in the order
    they are first met (primary's first), and the other members' ids. */
module Response {
  import opened Contacts

  predicate NoDuplicates<T(==)>(xs: seq<T>)
  {
    forall i, j :: 0 <= i < j < |xs| ==> xs[i] != xs[j]
  }

  /** `set.add(v)` on a JavaScript Set, which keeps insertion order. */
  function Appended(xs: seq<string>, v: string): seq<string>
  {
    if v in xs then xs else xs + [v]
  }

  /** The insertion-ordered set obtained by adding the values of `xs` in turn. */
  function Distinct(xs: seq<string>): seq<string>
  {
    if xs == [] then [] else Appended(Distinct(xs[..|xs| - 1]), xs[|xs| - 1])
  }

  /** The insertion-ordered set lists each value of `xs` exactly once and
      starts with the first value added. */
  lemma {:induction false} DistinctShape(xs: seq<string>)
    ensures NoDuplicates(Distinct(xs))
    ensures forall v :: v in Distinct(xs) <==> v in xs
    ensures xs != [] ==> Distinct(xs) != [] && Distinct(xs)[0] == xs[0]
    ensures |Distinct(xs)| <= |xs|
  {
    if xs != [] {
      var init := xs[..|xs| - 1];
      DistinctShape(init);
      assert xs == init + [xs[|xs| - 1]];
    }
  }

  lemma DistinctSnoc(xs: seq<string>, v: string)
    ensures Distinct(xs + [v]) == Appended(Distinct(xs), v)
  {
    assert (xs + [v])[..|xs|] == xs;
  }

  /** Whether some record of `ks` holds the non-empty value `v` in field `f`. */
  predicate HeldBy(contacts: Table, ks: seq<Id>, f: Field, v: string)
    requires forall k :: k in ks ==> k in contacts
  {
    v != "" && exists k :: k in ks && Get(contacts[k], f) == Some(v)
  }

  /** The truthy values of field `f` over the records `ks`, in order. */
  function FieldValues(contacts: Table, ks: seq<Id>, f: Field): seq<string>
    requires forall k :: k in ks ==> k in contacts
  {
    if ks == [] then []
    else FieldValues(contacts, ks[..|ks| - 1], f) + Listed(Get(contacts[ks[|ks| - 1]], f))
  }

  /** The listed values are exactly the non-empty values the records hold. */
  lemma {:induction false} FieldValuesHeld(contacts: Table, ks: seq<Id>, f: Field, v: string)
    requires forall k :: k in ks ==> k in contacts
    ensures v in FieldValues(contacts, ks, f) <==> HeldBy(contacts, ks, f, v)
    decreases |ks|
  {
    if ks != [] {
      var init, last := ks[..|ks| - 1], ks[|ks| - 1];
      assert ks == init + [last];
      FieldValuesHeld(contacts, init, f, v);
      if v in FieldValues(contacts, ks, f) {
        if v in FieldValues(contacts, init, f) {
          var k :| k in init && Get(contacts[k], f) == Some(v);
          assert k in ks;
        } else {
          assert last in ks && Get(contacts[last], f) == Some(v);
        }
      }
      if HeldBy(contacts, ks, f, v) {
        var k :| k in ks && Get(contacts[k], f) == Some(v);
        if k in init {
          assert HeldBy(contacts, init, f, v);
        } else {
          assert k == last;
        }
      }
    }
  }

  /** `ks` without `p`, order kept. */
  function Without(ks: seq<Id>, p: Id): seq<Id>
  {
    if ks == [] then []
    else Without(ks[..|ks| - 1], p) + (if ks[|ks| - 1] != p then [ks[|ks| - 1]] else [])
  }

  lemma {:induction false} WithoutMembers(ks: seq<Id>, p: Id)
    ensures forall k :: k in Without(ks, p) <==> k in ks && k != p
    ensures |Without(ks, p)| <= |ks|
  {
    if ks != [] {
      var init := ks[..|ks| - 1];
      WithoutMembers(init, p);
      assert ks == init + [ks[|ks| - 1]];
    }
  }

  /** The response for primary `p` and the cluster sequence `cluster`
      (fetch order, a newly created record last). */
  function Summary(contacts: Table, p: Id, cluster: seq<Id>): ClusterView
    requires p in contacts
    requires forall k :: k in cluster ==> k in contacts
  {
    ClusterView(
      p,
      Distinct(FieldValues(contacts, [p] + cluster, Email)),
      Distinct(FieldValues(contacts, [p] + cluster, Phone)),
      Without(cluster, p))
  }

  /** What a caller can read off the response: no value is listed twice,
      the primary's own value (if any) is listed first, every non-empty
      value held by the primary or a member is listed and nothing else, and
      the secondary ids are exactly the members other than the primary. */
  lemma SummaryShape(contacts: Table, p: Id, cluster: seq<Id>, f: Field)
    requires p in contacts
    requires forall k :: k in cluster ==> k in contacts
    ensures var view := Summary(contacts, p, cluster);
      var values := if f == Email then view.emails else view.phoneNumbers;
      && view.primaryContactId == p
      && NoDuplicates(values)
      && (Present(Get(contacts[p], f)) ==> values != [] && values[0] == Get(contacts[p], f).value)
      && (forall v :: v in values <==> HeldBy(contacts, [p] + cluster, f, v))
      && (forall k :: k in view.secondaryContactIds <==> k in cluster && k != p)
  {
    var ks := [p] + cluster;
    DistinctShape(FieldValues(contacts, ks, f));
    WithoutMembers(cluster, p);
    forall v ensures v in FieldValues(contacts, ks, f) <==> HeldBy(contacts, ks, f, v) {
      FieldValuesHeld(contacts, ks, f, v);
    }
    if Present(Get(contacts[p], f)) {
      var init := FieldValues(contacts, [p], f);
      assert FieldValues(contacts, [], f) == [];
      assert init == [Get(contacts[p], f).value];
      FieldValuesPrefix(contacts, ks, 1, f);
    }
  }

  /** The values of a prefix of the records come first. */
  lemma {:induction false} FieldValuesPrefix(contacts: Table, ks: seq<Id>, n: nat, f: Field)
    requires n <= |ks|
    requires forall k :: k in ks ==> k in contacts
    ensures FieldValues(contacts, ks[..n], f) <= FieldValues(contacts, ks, f)
    decreases |ks|
  {
    if n < |ks| {
      var init := ks[..|ks| - 1];
      assert init[..n] == ks[..n];
      FieldValuesPrefix(contacts, init, n, f);
    } else {
      assert ks[..n] == ks;
    }
  }

  /** One more record adds its value for `f`, if any, at the end. */
  lemma FieldValuesSnoc(contacts: Table, ks: seq<Id>, k: Id, f: Field)
    requires k in contacts && forall j :: j in ks ==> j in contacts
    ensures FieldValues(contacts, ks + [k], f) == FieldValues(contacts, ks, f) + Listed(Get(contacts[k], f))
  {
    assert (ks + [k])[..|ks|] == ks;
  }

  /** One more id is kept at the end unless it is the primary's. */
  lemma WithoutSnoc(ks: seq<Id>, k: Id, p: Id)
    ensures Without(ks + [k], p) == Without(ks, p) + (if k != p then [k] else [])
  {
    assert (ks + [k])[..|ks|] == ks;
  }

  /** Adding one more record's present value to an insertion-ordered set. */
  lemma DistinctListed(xs: seq<string>, o: Option<string>)
    ensures Distinct(xs + Listed(o)) == if Present(o) then Appended(Distinct(xs), o.value) else Distinct(xs)
  {
    if Present(o) {
      DistinctSnoc(xs, o.value);
    } else {
      assert xs + [] == xs;
    }
  }

  /** The response assembly of the handler: add the primary's email and
      phone first, then run the member loop. */
  method Summarize(contacts: Table, p: Id, cluster: seq<Id>) returns (view: ClusterView)
    requires p in contacts
    requires forall k :: k in cluster ==> k in contacts
    ensures view == Summary(contacts, p, cluster)
  {
    var emails: seq<string> := [];
    var phoneNumbers: seq<string> := [];
    var primary := contacts[p];
    DistinctListed([], primary.email);
    DistinctListed([], primary.phone);
    assert [] + Listed(primary.email) == Listed(primary.email);
    assert [] + Listed(primary.phone) == Listed(primary.phone);
    if Present(primary.email) {
      emails := Appended(emails, primary.email.value);
    }
    if Present(primary.phone) {
      phoneNumbers := Appended(phoneNumbers, primary.phone.value);
    }
    var secondaryContactIds;
    emails, phoneNumbers, secondaryContactIds := SummarizeMembers(contacts, p, cluster, emails, phoneNumbers);
    view := ClusterView(p, emails, phoneNumbers, secondaryContactIds);
  }

  /** One pass of the member loop: add record `cluster[i]`'s email and phone
      if present and new, and its id if it is not the primary. */
  method AddMember(contacts: Table, p: Id, cluster: seq<Id>, i: nat, emails: seq<string>, phoneNumbers: seq<string>, ids: seq<Id>)
    returns (emails': seq<string>, phoneNumbers': seq<string>, ids': seq<Id>)
    requires i < |cluster|
    requires p in contacts && forall k :: k in cluster ==> k in contacts
    requires emails == Distinct(FieldValues(contacts, [p] + cluster[..i], Email))
    requires phoneNumbers == Distinct(FieldValues(contacts, [p] + cluster[..i], Phone))
    requires ids == Without(cluster[..i], p)
    ensures emails' == Distinct(FieldValues(contacts, [p] + cluster[..i + 1], Email))
    ensures phoneNumbers' == Distinct(FieldValues(contacts, [p] + cluster[..i + 1], Phone))
    ensures ids' == Without(cluster[..i + 1], p)
  {
    var k := cluster[i];
    var c := contacts[k];
    var before := [p] + cluster[..i];
    assert [p] + cluster[..i + 1] == before + [k] && cluster[..i + 1] == cluster[..i] + [k];
    FieldValuesSnoc(contacts, before, k, Email);
    FieldValuesSnoc(contacts, before, k, Phone);
    WithoutSnoc(cluster[..i], k, p);
    DistinctListed(FieldValues(contacts, before, Email), c.email);
    DistinctListed(FieldValues(contacts, before, Phone), c.phone);
    emails', phoneNumbers', ids' := emails, phoneNumbers, ids;
    if Present(c.email) {
      emails' := Appended(emails, c.email.value);
    }
    if Present(c.phone) {
      phoneNumbers' := Appended(phoneNumbers, c.phone.value);
    }
    if k != p {
      ids' := ids + [k];
    }
  }

  /** The member loop of the response assembly: starting from the primary's
      values, add every member's email and phone and collect every id but
      the primary's. */
  method SummarizeMembers(contacts: Table, p: Id, cluster: seq<Id>, primaryEmails: seq<string>, primaryPhones: seq<string>)
    returns (emails: seq<string>, phoneNumbers: seq<string>, secondaryContactIds: seq<Id>)
    requires p in contacts
    requires forall k :: k in cluster ==> k in contacts
    requires primaryEmails == Distinct(Listed(contacts[p].email))
    requires primaryPhones == Distinct(Listed(contacts[p].phone))
    ensures emails == Distinct(FieldValues(contacts, [p] + cluster, Email))
    ensures phoneNumbers == Distinct(FieldValues(contacts, [p] + cluster, Phone))
    ensures secondaryContactIds == Without(cluster, p)
  {
    emails, phoneNumbers, secondaryContactIds := primaryEmails, primaryPhones, [];
    for i := 0 to |cluster|
      invariant emails == Distinct(FieldValues(contacts, [p] + cluster[..i], Email))
      invariant phoneNumbers == Distinct(FieldValues(contacts, [p] + cluster[..i], Phone))
      invariant secondaryContactIds == Without(cluster[..i], p)
    {
      emails, phoneNumbers, secondaryContactIds := AddMember(contacts, p, cluster, i, emails, phoneNumbers, secondaryContactIds);
    }
    assert cluster[..|cluster|] == cluster;
  }
}
