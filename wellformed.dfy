/** The shape every cluster keeps between calls: a primary has no link, a
    secondary links directly to a stored primary older than itself. The
    identify handler preserves it, and after a merge the oldest member is
    the one primary among the members. */
module WellFormedness {
  import opened Contacts
  import opened Matching
  import opened Closure
  import opened Ordering
  import opened Resolver
  import opened ResolverFacts

  /** Record `k` is a primary without a link, or a secondary whose link
      names a stored primary that comes before it. */
  predicate LinkedWell(contacts: Table, k: Id)
    requires k in contacts
  {
    var c := contacts[k];
    && (c.precedence == Primary <==> c.linkedId.None?)
    && (c.linkedId.Some? ==>
          var t := c.linkedId.value;
          t in contacts && contacts[t].precedence == Primary && Older(contacts, t, k))
  }

  predicate WellFormed(contacts: Table)
  {
    forall k :: k in contacts ==> LinkedWell(contacts, k)
  }

  /** A member's link stays inside the cluster, since the search follows
      links; and no member comes before the first. */
  lemma ClusterHoldsLinks(contacts: Table, matches: set<Id>)
    requires matches <= contacts.Keys && matches != {}
    ensures var cluster := ClusterOf(contacts, matches);
      var c := contacts[cluster[0]];
      && (c.linkedId.Some? && c.linkedId.value in contacts ==> c.linkedId.value in cluster)
      && (forall t :: t in cluster ==> !Older(contacts, t, cluster[0]))
  {
    var cluster := ClusterOf(contacts, matches);
    ExpandIsClosedSuperset(contacts, matches);
    assert cluster[0] in cluster;
    forall t | t in cluster ensures !Older(contacts, t, cluster[0]) {
      var j :| 0 <= j < |cluster| && cluster[j] == t;
    }
  }

  /** The first member of a fetched cluster is a primary. */
  lemma OldestIsPrimary(contacts: Table, matches: set<Id>)
    requires WellFormed(contacts)
    requires matches <= contacts.Keys && matches != {}
    ensures var cluster := ClusterOf(contacts, matches);
      contacts[cluster[0]].precedence == Primary && contacts[cluster[0]].linkedId == None
  {
    var cluster := ClusterOf(contacts, matches);
    assert cluster[0] in cluster;
    ClusterHoldsLinks(contacts, matches);
    assert LinkedWell(contacts, cluster[0]);
  }

  /** A record outside the cluster links to no member: otherwise the search
      would have reached it. */
  lemma OutsidersLinkOutside(contacts: Table, matches: set<Id>, k: Id)
    requires matches <= contacts.Keys && matches != {}
    requires k in contacts && k !in ClusterOf(contacts, matches)
    ensures !LinksInto(contacts[k], Elements(ClusterOf(contacts, matches)))
  {
    ExpandIsClosedSuperset(contacts, matches);
    assert Elements(ClusterOf(contacts, matches)) <= Expand(contacts, matches);
  }

  /** A merge keeps the table well formed, and leaves the oldest member the
      only primary among the members. */
  lemma MergeKeepsWellFormed(st: State, now: nat, e: Option<string>, p: Option<string>, matches: set<Id>)
    requires IdsBelow(st.contacts, st.nextId) && ClockAhead(st.contacts, now)
    requires WellFormed(st.contacts)
    requires matches <= st.contacts.Keys && matches != {}
    ensures var cluster := ClusterOf(st.contacts, matches);
      var after := Merge(st, now, e, p, cluster).0.contacts;
      var members := Grown(cluster, st.nextId, HasNewInfo(st.contacts, cluster, e, p));
      && WellFormed(after)
      && (forall k :: k in members ==> k in after && (after[k].precedence == Primary <==> k == cluster[0]))
  {
    var before := st.contacts;
    var cluster := ClusterOf(before, matches);
    var oldest := cluster[0];
    var novel := HasNewInfo(before, cluster, e, p);
    MergeSettles(st, now, e, p, cluster);
    var after := Merge(st, now, e, p, cluster).0.contacts;
    OldestIsPrimary(before, matches);
    ClusterHoldsLinks(before, matches);
    assert oldest in cluster;
    forall k | k in cluster && k != oldest ensures Older(before, oldest, k) {
      assert !Older(before, k, oldest);
    }
    forall k | k in before && k !in cluster ensures !LinksInto(before[k], Elements(cluster)) {
      OutsidersLinkOutside(before, matches, k);
    }
    SettledKeepsWellFormed(before, after, cluster, st.nextId, novel, e, p, now);
  }

  /** The merge step on tables: when the oldest member is a primary older
      than every other member and no outsider links into the cluster, the
      merged table is well formed and its only primary member is the oldest. */
  lemma SettledKeepsWellFormed(before: Table, after: Table, cluster: seq<Id>, n: Id, novel: bool,
                               e: Option<string>, p: Option<string>, now: nat)
    requires Settled(before, after, cluster, n, novel, e, p, now)
    requires WellFormed(before)
    requires before[cluster[0]].precedence == Primary
    requires forall k :: k in cluster && k != cluster[0] ==> Older(before, cluster[0], k)
    requires forall k :: k in before && k !in cluster ==> !LinksInto(before[k], Elements(cluster))
    ensures WellFormed(after)
    ensures forall k :: k in Grown(cluster, n, novel) ==> k in after && (after[k].precedence == Primary <==> k == cluster[0])
  {
    var oldest := cluster[0];
    assert oldest in cluster;
    forall k | k in after ensures LinkedWell(after, k) {
      if k == oldest {
        assert LinkedWell(before, k);
      } else if k in cluster {
        assert after[k].createdAt == before[k].createdAt;
      } else if k in before {
        assert LinkedWell(before, k);
        if before[k].linkedId.Some? {
          var t := before[k].linkedId.value;
          assert t !in Elements(cluster);
          assert after[t] == before[t];
        }
      } else {
        assert k == n && novel;
      }
    }
  }

  /** Creating a lone primary keeps the table well formed. */
  lemma CreateKeepsWellFormed(st: State, now: nat, e: Option<string>, p: Option<string>)
    requires IdsBelow(st.contacts, st.nextId)
    requires WellFormed(st.contacts)
    ensures WellFormed(CreatePrimary(st, now, e, p).0.contacts)
  {
    var before := st.contacts;
    var after := CreatePrimary(st, now, e, p).0.contacts;
    forall k | k in after ensures LinkedWell(after, k) {
      if k in before {
        assert LinkedWell(before, k);
        assert after[k] == before[k];
      }
    }
  }

  /** Every identify call keeps the auto-increment invariant and the link
      shape of the table. */
  lemma ResolveKeepsWellFormed(st: State, now: nat, email: Option<string>, phone: Option<string>)
    requires IdsBelow(st.contacts, st.nextId) && ClockAhead(st.contacts, now)
    requires WellFormed(st.contacts)
    ensures var after := Resolve(st, now, email, phone).0;
      IdsBelow(after.contacts, after.nextId) && WellFormed(after.contacts)
  {
    if Present(email) || Present(phone) {
      var e, p := Normalize(email), Normalize(phone);
      var matches := DirectMatches(st.contacts, e, p);
      if matches == {} {
        CreateKeepsWellFormed(st, now, e, p);
      } else {
        MergeKeepsWellFormed(st, now, e, p, matches);
        MergeKeepsIdsBelow(st, now, e, p, ClusterOf(st.contacts, matches));
      }
    }
  }

  lemma MergeKeepsIdsBelow(st: State, now: nat, e: Option<string>, p: Option<string>, cluster: seq<Id>)
    requires IdsBelow(st.contacts, st.nextId)
    requires cluster != [] && forall k :: k in cluster ==> k in st.contacts
    ensures var after := Merge(st, now, e, p, cluster).0;
      IdsBelow(after.contacts, after.nextId)
  {
    MergeUnfolds(st, now, e, p, cluster);
    var oldest := cluster[0];
    assert oldest in cluster;
    var novel := HasNewInfo(st.contacts, cluster, e, p);
    var relinked := Relinked(st.contacts, Elements(cluster[1..]), oldest);
    assert IdsBelow(relinked, st.nextId) by {
      forall k | k in relinked ensures k < st.nextId && (relinked[k].linkedId.Some? ==> relinked[k].linkedId.value < st.nextId) {
        assert k in st.contacts;
      }
    }
    if novel {
      var contacts := relinked[st.nextId := Contact(e, p, Some(oldest), Secondary, now)];
      assert IdsBelow(contacts, st.nextId + 1) by {
        forall k | k in contacts ensures k < st.nextId + 1 && (contacts[k].linkedId.Some? ==> contacts[k].linkedId.value < st.nextId + 1) {
          if k != st.nextId {
            assert k in relinked;
          }
        }
      }
    }
  }

}
