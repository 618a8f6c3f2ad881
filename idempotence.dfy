/** Repeating a request with no writes in between changes nothing: the
    second call finds the same cluster, in the same order, with the same
    oldest member, creates no record, writes no record and answers the
    same. */
module Idempotence {
  import opened Contacts
  import opened Matching
  import opened Closure
  import opened Ordering
  import opened Response
  import opened Resolver
  import opened ResolverFacts

  /** The second query finds the first query's matches, and nothing outside
      the members. */
  lemma MatchesStayInside(before: Table, after: Table, cluster: seq<Id>, n: Id, novel: bool,
                          e: Option<string>, p: Option<string>, now: nat)
    requires Settled(before, after, cluster, n, novel, e, p, now)
    requires DirectMatches(before, e, p) <= Elements(cluster)
    ensures DirectMatches(before, e, p) <= DirectMatches(after, e, p)
    ensures DirectMatches(after, e, p) <= Elements(Grown(cluster, n, novel))
  {
    forall k | k in DirectMatches(after, e, p) ensures k in Elements(Grown(cluster, n, novel)) {
      if k in before {
        assert k in DirectMatches(before, e, p);
      }
    }
  }

  /** The first search's result, with the new record, is closed after the
      merge. */
  lemma BoundStaysClosed(before: Table, after: Table, cluster: seq<Id>, n: Id, novel: bool,
                         e: Option<string>, p: Option<string>, now: nat, found: set<Id>)
    requires Settled(before, after, cluster, n, novel, e, p, now)
    requires Closed(before, found) && found * before.Keys == Elements(cluster)
    requires DirectMatches(before, e, p) <= found
    ensures Closed(after, found + (if novel then {n} else {}))
    ensures DirectMatches(after, e, p) <= found + (if novel then {n} else {})
  {
    var bound := found + (if novel then {n} else {});
    var oldest := cluster[0];
    assert oldest in cluster;
    assert oldest in found * before.Keys;
    assert DirectMatches(before, e, p) <= Elements(cluster);
    MatchesStayInside(before, after, cluster, n, novel, e, p, now);
    forall k | k in Elements(Grown(cluster, n, novel)) ensures k in bound {
      if k != n {
        assert k in Elements(cluster);
      }
    }
    forall k | k in before && k !in cluster ensures k !in bound && !LinksInto(after[k], bound) {
      assert k !in found * before.Keys;
      assert after[k] == before[k];
    }
    forall k | k in after && (k in bound || LinksInto(after[k], bound))
      ensures k in bound && (after[k].linkedId.Some? ==> after[k].linkedId.value in bound)
    {
      if k == oldest {
        assert oldest in found * before.Keys;
        assert after[k] == before[k];
      } else if k in cluster {
        assert k in found * before.Keys;
        assert after[k].linkedId == Some(oldest);
      } else {
        assert k == n && novel;
      }
    }
  }

  /** The second search finds no record outside the members. */
  lemma SearchStaysInside(before: Table, after: Table, cluster: seq<Id>, n: Id, novel: bool,
                          e: Option<string>, p: Option<string>, now: nat)
    requires Settled(before, after, cluster, n, novel, e, p, now)
    requires Members(before, DirectMatches(before, e, p)) == Elements(cluster)
    ensures Members(after, DirectMatches(after, e, p)) <= Elements(Grown(cluster, n, novel))
  {
    var m1, m2 := DirectMatches(before, e, p), DirectMatches(after, e, p);
    var found := Expand(before, m1);
    ExpandIsClosedSuperset(before, m1);
    BoundStaysClosed(before, after, cluster, n, novel, e, p, now, found);
    var bound := found + (if novel then {n} else {});
    var members := Elements(Grown(cluster, n, novel));
    ExpandIsLeast(after, m2, bound);
    forall k | k in Expand(after, m2) && k in after ensures k in members {
      if k in before {
        assert k in found * before.Keys;
      }
    }
  }

  /** The second search reaches every member: the matches include a member,
      which is the oldest or points at it, and every other member points
      at the oldest. */
  lemma SearchReachesAll(before: Table, after: Table, cluster: seq<Id>, n: Id, novel: bool,
                         e: Option<string>, p: Option<string>, now: nat)
    requires Settled(before, after, cluster, n, novel, e, p, now)
    requires DirectMatches(before, e, p) != {}
    requires DirectMatches(before, e, p) <= Elements(cluster)
    ensures DirectMatches(after, e, p) != {}
    ensures Elements(Grown(cluster, n, novel)) <= Members(after, DirectMatches(after, e, p))
  {
    var m1, m2 := DirectMatches(before, e, p), DirectMatches(after, e, p);
    var oldest := cluster[0];
    assert oldest in cluster;
    MatchesStayInside(before, after, cluster, n, novel, e, p, now);
    ExpandIsClosedSuperset(after, m2);
    var reached := Expand(after, m2);
    var m :| m in m1;
    assert m in reached && m in cluster;
    assert oldest in reached by {
      if m != oldest {
        assert after[m].linkedId == Some(oldest);
        assert LinksInto(after[m], reached);
      }
    }
    forall k | k in Grown(cluster, n, novel) ensures k in reached && k in after {
      if k != oldest {
        assert after[k].linkedId == Some(oldest);
        assert LinksInto(after[k], reached);
      }
    }
  }

  /** The members come back in the same order: a new record is the
      youngest, since the clock is not behind and its id is the largest. */
  lemma MembersInOrder(before: Table, after: Table, cluster: seq<Id>, n: Id, novel: bool,
                       e: Option<string>, p: Option<string>, now: nat)
    requires Settled(before, after, cluster, n, novel, e, p, now)
    requires |Elements(cluster)| == |cluster|
    ensures forall k :: k in Grown(cluster, n, novel) ==> k in after
    ensures SortedByAge(after, Grown(cluster, n, novel))
    ensures |Elements(Grown(cluster, n, novel))| == |Grown(cluster, n, novel)|
  {
    assert forall k :: k in cluster ==> k in after && after[k].createdAt == before[k].createdAt;
    SortedKeepsOrder(before, after, cluster);
    if novel {
      assert n !in before && n in after && after[n].createdAt == now;
      forall k | k in cluster ensures Older(after, k, n) {
        assert before[k].createdAt <= now && k < n;
      }
      NewestLast(after, cluster, n);
      assert Elements(cluster + [n]) == Elements(cluster) + {n};
    }
  }

  /** Keeping every member's creation time keeps the members' order. */
  lemma SortedKeepsOrder(before: Table, after: Table, cluster: seq<Id>)
    requires forall k :: k in cluster ==> k in before && k in after && after[k].createdAt == before[k].createdAt
    requires SortedByAge(before, cluster)
    ensures SortedByAge(after, cluster)
  {
    forall i, j | 0 <= i < j < |cluster| ensures Older(after, cluster[i], cluster[j]) {
      assert Older(before, cluster[i], cluster[j]);
    }
  }

  /** A record younger than every member goes last. */
  lemma NewestLast(contacts: Table, cluster: seq<Id>, n: Id)
    requires n in contacts && forall k :: k in cluster ==> k in contacts
    requires SortedByAge(contacts, cluster)
    requires forall k :: k in cluster ==> Older(contacts, k, n)
    ensures SortedByAge(contacts, cluster + [n])
  {
    var members := cluster + [n];
    forall i, j | 0 <= i < j < |members| ensures Older(contacts, members[i], members[j]) {
      if j < |cluster| {
        assert members[i] == cluster[i] && members[j] == cluster[j];
      } else {
        assert members[i] == cluster[i] && cluster[i] in cluster;
      }
    }
  }

  /** Nothing in the repeated request is new to the members. */
  lemma NothingNewAgain(before: Table, after: Table, cluster: seq<Id>, n: Id, novel: bool,
                        e: Option<string>, p: Option<string>, now: nat)
    requires Settled(before, after, cluster, n, novel, e, p, now)
    requires novel == HasNewInfo(before, cluster, e, p)
    ensures forall k :: k in Grown(cluster, n, novel) ==> k in after
    ensures !HasNewInfo(after, Grown(cluster, n, novel), e, p)
  {
    var members := Grown(cluster, n, novel);
    if novel {
      assert members[|cluster|] == n;
    } else {
      if e.Some? {
        var i :| 0 <= i < |cluster| && before[cluster[i]].email == e;
        assert after[members[i]].email == e;
      }
      if p.Some? {
        var i :| 0 <= i < |cluster| && before[cluster[i]].phone == p;
        assert after[members[i]].phone == p;
      }
    }
  }

  /** Every member after the first already points at it, so the second
      demotion pass writes nothing. */
  lemma RelinkWritesNothing(before: Table, after: Table, cluster: seq<Id>, n: Id, novel: bool,
                            e: Option<string>, p: Option<string>, now: nat)
    requires Settled(before, after, cluster, n, novel, e, p, now)
    requires forall j :: 1 <= j < |cluster| ==> cluster[j] != cluster[0]
    ensures Relinked(after, Elements(Grown(cluster, n, novel)[1..]), cluster[0]) == after
  {
    var members := Grown(cluster, n, novel);
    var others := Elements(members[1..]);
    var oldest := cluster[0];
    assert oldest in before;
    forall k | k in others ensures k in after && Relink(after[k], oldest) == after[k] {
      var j :| 1 <= j < |members| && members[j] == k;
      if j < |cluster| {
        assert k in cluster && k != oldest;
      } else {
        assert k == n;
      }
    }
    var r := Relinked(after, others, oldest);
    assert forall k :: k in r ==> r[k] == after[k];
  }

  /** The second search finds a non-empty set of matches and exactly the
      members. */
  lemma MembersAgain(before: Table, after: Table, cluster: seq<Id>, n: Id, novel: bool,
                     e: Option<string>, p: Option<string>, now: nat)
    requires Settled(before, after, cluster, n, novel, e, p, now)
    requires DirectMatches(before, e, p) != {}
    requires cluster == ClusterOf(before, DirectMatches(before, e, p))
    ensures DirectMatches(after, e, p) != {}
    ensures Members(after, DirectMatches(after, e, p)) == Elements(Grown(cluster, n, novel))
  {
    var m1 := DirectMatches(before, e, p);
    assert Members(before, m1) == Elements(cluster);
    ExpandIsClosedSuperset(before, m1);
    assert m1 <= Elements(cluster);
    SearchStaysInside(before, after, cluster, n, novel, e, p, now);
    SearchReachesAll(before, after, cluster, n, novel, e, p, now);
  }

  /** The second search returns the members, oldest first. */
  lemma ClusterAgain(before: Table, after: Table, cluster: seq<Id>, n: Id, novel: bool,
                     e: Option<string>, p: Option<string>, now: nat)
    requires Settled(before, after, cluster, n, novel, e, p, now)
    requires DirectMatches(before, e, p) != {}
    requires cluster == ClusterOf(before, DirectMatches(before, e, p))
    ensures DirectMatches(after, e, p) != {}
    ensures ClusterOf(after, DirectMatches(after, e, p)) == Grown(cluster, n, novel)
  {
    var members := Grown(cluster, n, novel);
    assert Members(before, DirectMatches(before, e, p)) == Elements(cluster);
    assert |Elements(cluster)| == |cluster|;
    MembersAgain(before, after, cluster, n, novel, e, p, now);
    MembersInOrder(before, after, cluster, n, novel, e, p, now);
    var again := Members(after, DirectMatches(after, e, p));
    assert |members| == |again|;
    SortedOrderIsUnique(after, again, members);
  }

  /** Merging the members again writes nothing and answers the same. */
  lemma MergeAgain(st2: State, now2: nat, before: Table, cluster: seq<Id>, n: Id, novel: bool,
                   e: Option<string>, p: Option<string>, now: nat)
    requires Settled(before, st2.contacts, cluster, n, novel, e, p, now)
    requires novel == HasNewInfo(before, cluster, e, p)
    ensures forall k :: k in Grown(cluster, n, novel) ==> k in st2.contacts
    ensures Merge(st2, now2, e, p, Grown(cluster, n, novel)) ==
              (st2, Resolved(Summary(st2.contacts, cluster[0], Grown(cluster, n, novel))))
  {
    FetchedFacts(before, cluster);
    NothingNewAgain(before, st2.contacts, cluster, n, novel, e, p, now);
    RelinkWritesNothing(before, st2.contacts, cluster, n, novel, e, p, now);
    assert Grown(cluster, n, novel)[0] == cluster[0];
  }

  /** A repeated request after a merge: the second call is the same merge
      and writes nothing. */
  lemma MergeRepeats(st: State, now: nat, now2: nat, email: Option<string>, phone: Option<string>)
    requires IdsBelow(st.contacts, st.nextId) && ClockAhead(st.contacts, now)
    requires Present(email) || Present(phone)
    requires Matched(st, email, phone)
    ensures var (st2, outcome) := Resolve(st, now, email, phone);
      Resolve(st2, now2, email, phone) == (st2, outcome)
  {
    var e, p := Normalize(email), Normalize(phone);
    var cluster := Cluster(st, email, phone);
    ClusterFacts(st, now, email, phone);
    MergeSettles(st, now, e, p, cluster);
    var (st2, outcome) := Merge(st, now, e, p, cluster);
    var novel := HasNewInfo(st.contacts, cluster, e, p);
    ClusterAgain(st.contacts, st2.contacts, cluster, st.nextId, novel, e, p, now);
    MergeAgain(st2, now2, st.contacts, cluster, st.nextId, novel, e, p, now);
  }

  lemma LoneValues(contacts: Table, n: Id, f: Field)
    requires n in contacts
    ensures Distinct(FieldValues(contacts, [n] + [n], f)) == Listed(Get(contacts[n], f))
  {
    var listed := Listed(Get(contacts[n], f));
    assert FieldValues(contacts, [n], f) == listed by {
      assert [n][..0] == [];
    }
    assert ([n] + [n])[..1] == [n];
    assert FieldValues(contacts, [n] + [n], f) == listed + listed;
    if listed != [] {
      var v := listed[0];
      assert listed + listed == [v, v];
      assert [v, v][..1] == [v];
      assert [v][..0] == [];
      assert Distinct([v]) == [v];
    }
  }

  /** The response of a lone record lists its own values once. */
  lemma LoneSummary(contacts: Table, n: Id)
    requires n in contacts
    ensures Summary(contacts, n, [n]) ==
              ClusterView(n, Listed(contacts[n].email), Listed(contacts[n].phone), [])
  {
    LoneValues(contacts, n, Email);
    LoneValues(contacts, n, Phone);
    assert [n][..0] == [];
    assert Without([n], n) == [];
  }

  /** After a new primary `n` is stored, the request finds it alone. */
  lemma LoneCluster(before: Table, after: Table, n: Id, e: Option<string>, p: Option<string>, now: nat)
    requires IdsBelow(before, n)
    requires e.Some? || p.Some?
    requires DirectMatches(before, e, p) == {}
    requires after == before[n := Contact(e, p, None, Primary, now)]
    ensures DirectMatches(after, e, p) == {n}
    ensures ClusterOf(after, {n}) == [n]
  {
    var m := DirectMatches(after, e, p);
    forall k | k in before ensures k !in m {
      assert k != n && after[k] == before[k];
      assert k !in DirectMatches(before, e, p);
    }
    assert n in m;
    assert Closed(after, {n});
    ExpandIsClosedSuperset(after, {n});
    ExpandIsLeast(after, {n}, {n});
    assert Members(after, {n}) == {n};
    SortedOrderIsUnique(after, {n}, [n]);
  }

  /** Merging a lone primary with a request it already holds writes
      nothing and answers with that record alone. */
  lemma LoneMerge(st2: State, now2: nat, n: Id, e: Option<string>, p: Option<string>)
    requires n in st2.contacts
    requires st2.contacts[n].email == e && st2.contacts[n].phone == p
    ensures Merge(st2, now2, e, p, [n]) == (st2, Resolved(ClusterView(n, Listed(e), Listed(p), [])))
  {
    assert !HasNewInfo(st2.contacts, [n], e, p) by {
      assert [n][0] == n;
    }
    assert Relinked(st2.contacts, Elements([n][1..]), n) == st2.contacts by {
      assert Elements([n][1..]) == {};
    }
    LoneSummary(st2.contacts, n);
  }

  /** A repeated request after a new primary was created: the second call
      finds that record alone and writes nothing. */
  lemma CreateRepeats(st: State, now: nat, now2: nat, email: Option<string>, phone: Option<string>)
    requires IdsBelow(st.contacts, st.nextId)
    requires Present(email) || Present(phone)
    requires !Matched(st, email, phone)
    ensures var (st2, outcome) := Resolve(st, now, email, phone);
      Resolve(st2, now2, email, phone) == (st2, outcome)
  {
    var e, p := Normalize(email), Normalize(phone);
    var n := st.nextId;
    var (st2, outcome) := CreatePrimary(st, now, e, p);
    LoneCluster(st.contacts, st2.contacts, n, e, p, now);
    LoneMerge(st2, now2, n, e, p);
  }

  /** Repeating the same request with no write in between creates no
      record, writes nothing and returns the same answer, whatever the
      clock says on the second call. */
  lemma RepeatChangesNothing(st: State, now: nat, now2: nat, email: Option<string>, phone: Option<string>)
    requires IdsBelow(st.contacts, st.nextId) && ClockAhead(st.contacts, now)
    ensures var (st2, outcome) := Resolve(st, now, email, phone);
      Resolve(st2, now2, email, phone) == (st2, outcome)
  {
    if Present(email) || Present(phone) {
      if Matched(st, email, phone) {
        MergeRepeats(st, now, now2, email, phone);
      } else {
        CreateRepeats(st, now, now2, email, phone);
      }
    }
  }
}
