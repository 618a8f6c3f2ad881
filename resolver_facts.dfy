/** What one identify call does to the store and what it answers. */
module ResolverFacts {
  import opened Contacts
  import opened Matching
  import opened Closure
  import opened Ordering
  import opened Response
  import opened Resolver

  /** The fields the resolver never writes. */
  predicate SameIdentity(a: Contact, b: Contact)
  {
    a.email == b.email && a.phone == b.phone && a.createdAt == b.createdAt
  }

  /** A call is rejected exactly when neither identifier is present, and a
      rejected call leaves the store as it was. */
  lemma RejectsOnlyWithoutIdentifiers(st: State, now: nat, email: Option<string>, phone: Option<string>)
    ensures Resolve(st, now, email, phone).1 == InvalidInput <==> !Present(email) && !Present(phone)
    ensures !Present(email) && !Present(phone) ==> Resolve(st, now, email, phone).0 == st
  {
  }

  /** A request that matches nothing adds exactly one record, a primary
      without a link under the next id, and answers with it alone: its own
      present email and phone, no secondaries. */
  lemma NewPrimaryWhenNothingMatches(st: State, now: nat, email: Option<string>, phone: Option<string>)
    requires IdsBelow(st.contacts, st.nextId)
    requires Present(email) || Present(phone)
    requires !Matched(st, email, phone)
    ensures var (after, outcome) := Resolve(st, now, email, phone);
      var id := st.nextId;
      && id !in st.contacts
      && after.contacts.Keys == st.contacts.Keys + {id}
      && after.nextId == id + 1
      && (forall k :: k in st.contacts ==> after.contacts[k] == st.contacts[k])
      && after.contacts[id].precedence == Primary && after.contacts[id].linkedId == None
      && after.contacts[id].email == Normalize(email) && after.contacts[id].phone == Normalize(phone)
      && outcome == Resolved(ClusterView(id, Listed(email), Listed(phone), []))
  {
  }

  /** A sequence sorted by age lists no id twice. */
  lemma SortedHasNoDuplicates(contacts: Table, xs: seq<Id>)
    requires forall k :: k in xs ==> k in contacts
    requires SortedByAge(contacts, xs)
    ensures forall i, j :: 0 <= i < j < |xs| ==> xs[i] != xs[j]
  {
  }

  lemma TailElements(xs: seq<Id>)
    requires xs != [] && forall j :: 1 <= j < |xs| ==> xs[j] != xs[0]
    ensures forall k :: k in Elements(xs[1..]) <==> k in xs && k != xs[0]
  {
    forall k | k in xs && k != xs[0] ensures k in xs[1..] {
      var j :| 0 <= j < |xs| && xs[j] == k;
      assert xs[1..][j - 1] == k;
    }
  }

  /** In a sequence whose head does not repeat, dropping the head's id
      keeps the tail in order. */
  lemma {:induction false} WithoutHead(xs: seq<Id>)
    requires xs != [] && forall j :: 1 <= j < |xs| ==> xs[j] != xs[0]
    ensures Without(xs, xs[0]) == xs[1..]
    decreases |xs|
  {
    if |xs| > 1 {
      var init := xs[..|xs| - 1];
      assert init[0] == xs[0];
      WithoutHead(init);
      assert xs[1..] == init[1..] + [xs[|xs| - 1]];
    } else {
      assert Without([], xs[0]) == [];
    }
  }

  /** A cluster as the handler fetches it: non-empty, stored, oldest first. */
  predicate Fetched(contacts: Table, cluster: seq<Id>)
  {
    && cluster != []
    && (forall k :: k in cluster ==> k in contacts)
    && SortedByAge(contacts, cluster)
  }

  /** A matched request is resolved by merging its fetched cluster, whose
      first member is older than every other member. */
  lemma ClusterFacts(st: State, now: nat, email: Option<string>, phone: Option<string>)
    requires Present(email) || Present(phone)
    requires Matched(st, email, phone)
    ensures var cluster := Cluster(st, email, phone);
      && Fetched(st.contacts, cluster)
      && (forall k :: k in cluster && k != cluster[0] ==> Older(st.contacts, cluster[0], k))
      && Resolve(st, now, email, phone) == Merge(st, now, Normalize(email), Normalize(phone), cluster)
  {
    var cluster := Cluster(st, email, phone);
    forall k | k in cluster && k != cluster[0] ensures Older(st.contacts, cluster[0], k) {
      var j :| 0 <= j < |cluster| && cluster[j] == k;
    }
  }

  /** The facts about a fetched cluster the merge lemmas rely on. */
  lemma FetchedFacts(contacts: Table, cluster: seq<Id>)
    requires Fetched(contacts, cluster)
    ensures forall j :: 1 <= j < |cluster| ==> cluster[j] != cluster[0]
    ensures forall k :: k in Elements(cluster[1..]) <==> k in cluster && k != cluster[0]
  {
    SortedHasNoDuplicates(contacts, cluster);
    TailElements(cluster);
  }

  /** The state and answer of a merge, taken apart: the relinked table,
      plus the new secondary when the request carries new information. */
  lemma MergeParts(st: State, now: nat, e: Option<string>, p: Option<string>, cluster: seq<Id>)
    requires IdsBelow(st.contacts, st.nextId)
    requires cluster != [] && forall k :: k in cluster ==> k in st.contacts
    ensures var (after, outcome) := Merge(st, now, e, p, cluster);
      var oldest := cluster[0];
      var relinked := Relinked(st.contacts, Elements(cluster[1..]), oldest);
      var novel := HasNewInfo(st.contacts, cluster, e, p);
      && st.nextId !in st.contacts
      && after.contacts == (if novel then relinked[st.nextId := Contact(e, p, Some(oldest), Secondary, now)] else relinked)
      && after.nextId == (if novel then st.nextId + 1 else st.nextId)
      && (forall k :: k in Grown(cluster, st.nextId, novel) ==> k in after.contacts)
      && outcome == Resolved(Summary(after.contacts, oldest, Grown(cluster, st.nextId, novel)))
  {
    assert cluster[0] in cluster;
  }

  /** After the demotion pass of a merge: the oldest member of the cluster
      is left as it was, every other member is a secondary linked to it,
      records outside the cluster are untouched, and no record changes its
      email, phone or creation time. With ClusterFacts, when two primaries
      merge the older one is the one that stays primary. */
  lemma DemotionShape(st: State, now: nat, e: Option<string>, p: Option<string>, cluster: seq<Id>)
    requires IdsBelow(st.contacts, st.nextId)
    requires Fetched(st.contacts, cluster)
    ensures var oldest := cluster[0];
      var after := Merge(st, now, e, p, cluster).0.contacts;
      && st.contacts.Keys <= after.Keys
      && after[oldest] == st.contacts[oldest]
      && (forall k :: k in cluster && k != oldest ==>
            after[k].precedence == Secondary && after[k].linkedId == Some(oldest))
      && (forall k :: k in st.contacts && k !in cluster ==> after[k] == st.contacts[k])
      && (forall k :: k in st.contacts ==> SameIdentity(after[k], st.contacts[k]))
  {
    MergeUnfolds(st, now, e, p, cluster);
    RelinkedShape(st.contacts, cluster);
    var after := Merge(st, now, e, p, cluster).0.contacts;
    var relinked := Relinked(st.contacts, Elements(cluster[1..]), cluster[0]);
    assert st.nextId !in st.contacts;
    assert forall k :: k in st.contacts ==> k in after && after[k] == relinked[k];
  }

  /** The demotion pass on its own: the table keeps its keys, the oldest
      member keeps its record, every other member becomes a secondary of it,
      and nothing else changes. */
  lemma RelinkedShape(contacts: Table, cluster: seq<Id>)
    requires Fetched(contacts, cluster)
    ensures var oldest := cluster[0];
      var relinked := Relinked(contacts, Elements(cluster[1..]), oldest);
      && relinked.Keys == contacts.Keys
      && relinked[oldest] == contacts[oldest]
      && (forall k :: k in cluster && k != oldest ==>
            relinked[k].precedence == Secondary && relinked[k].linkedId == Some(oldest))
      && (forall k :: k in contacts && k !in cluster ==> relinked[k] == contacts[k])
      && (forall k :: k in contacts ==> SameIdentity(relinked[k], contacts[k]))
  {
    FetchedFacts(contacts, cluster);
    assert cluster[0] in cluster;
  }

  /** The novelty test in the request's own terms: the email is present
      and no member holds it, or the phone is present and no member holds
      it. */
  predicate Novel(contacts: Table, cluster: seq<Id>, email: Option<string>, phone: Option<string>)
    requires forall k :: k in cluster ==> k in contacts
  {
    (Present(email) && forall k :: k in cluster ==> contacts[k].email != email) ||
    (Present(phone) && forall k :: k in cluster ==> contacts[k].phone != phone)
  }

  lemma NoveltyOfNormalized(contacts: Table, cluster: seq<Id>, email: Option<string>, phone: Option<string>)
    requires forall k :: k in cluster ==> k in contacts
    ensures HasNewInfo(contacts, cluster, Normalize(email), Normalize(phone)) <==> Novel(contacts, cluster, email, phone)
  {
    var e, p := Normalize(email), Normalize(phone);
    assert IsNew(contacts, cluster, Email, e) <==>
      Present(email) && forall k :: k in cluster ==> contacts[k].email != email;
    assert IsNew(contacts, cluster, Phone, p) <==>
      Present(phone) && forall k :: k in cluster ==> contacts[k].phone != phone;
  }

  /** A merge creates a record exactly when the request carries an
      identifier no member holds; then exactly one record is added, under
      the next id, a secondary of the oldest member carrying the request's
      identifiers. */
  lemma CreatesOnlyForNewInfo(st: State, now: nat, email: Option<string>, phone: Option<string>, cluster: seq<Id>)
    requires IdsBelow(st.contacts, st.nextId)
    requires Fetched(st.contacts, cluster)
    ensures var after := Merge(st, now, Normalize(email), Normalize(phone), cluster).0;
      var novel := Novel(st.contacts, cluster, email, phone);
      && after.contacts.Keys == st.contacts.Keys + (if novel then {st.nextId} else {})
      && after.nextId == (if novel then st.nextId + 1 else st.nextId)
      && (novel ==>
            st.nextId !in st.contacts &&
            after.contacts[st.nextId] == Contact(Normalize(email), Normalize(phone), Some(cluster[0]), Secondary, now))
  {
    MergeParts(st, now, Normalize(email), Normalize(phone), cluster);
    NoveltyOfNormalized(st.contacts, cluster, email, phone);
  }

  /** The response of a merge names the oldest member as primary, lists the
      other members' ids in cluster order with a new record last, and for
      each field lists every non-empty value a member holds exactly once,
      the primary's first. `members` is the cluster, plus the new record
      when one is created. */
  lemma ResponseShape(st: State, now: nat, e: Option<string>, p: Option<string>, cluster: seq<Id>, f: Field)
    requires IdsBelow(st.contacts, st.nextId)
    requires Fetched(st.contacts, cluster)
    ensures var (after, outcome) := Merge(st, now, e, p, cluster);
      var created := after.nextId != st.nextId;
      var members := Grown(cluster, st.nextId, created);
      var values := if f == Email then outcome.view.emails else outcome.view.phoneNumbers;
      && outcome.Resolved?
      && outcome.view.primaryContactId == cluster[0]
      && outcome.view.secondaryContactIds == members[1..]
      && (forall k :: k in members ==> k in after.contacts)
      && NoDuplicates(values)
      && (Present(Get(st.contacts[cluster[0]], f)) ==> values != [] && values[0] == Get(st.contacts[cluster[0]], f).value)
      && (forall v :: v in values <==> HeldBy(after.contacts, members, f, v))
  {
    FetchedFacts(st.contacts, cluster);
    MergeParts(st, now, e, p, cluster);
    RelinkedShape(st.contacts, cluster);
    var (after, outcome) := Merge(st, now, e, p, cluster);
    var novel := HasNewInfo(st.contacts, cluster, e, p);
    var members := Grown(cluster, st.nextId, novel);
    var oldest := cluster[0];
    assert after.contacts[oldest] == st.contacts[oldest];
    assert forall j :: 1 <= j < |members| ==> members[j] != members[0] by {
      if novel {
        assert st.nextId !in st.contacts;
        assert oldest in st.contacts;
      }
    }
    SummaryOfMembers(after.contacts, members, f);
  }

  /** The summary of a cluster whose head is listed once: the head is the
      primary, the rest are the secondaries in order, and each field lists
      every non-empty member value exactly once, the head's first. */
  lemma SummaryOfMembers(contacts: Table, members: seq<Id>, f: Field)
    requires members != [] && forall k :: k in members ==> k in contacts
    requires forall j :: 1 <= j < |members| ==> members[j] != members[0]
    ensures var view := Summary(contacts, members[0], members);
      var values := if f == Email then view.emails else view.phoneNumbers;
      && view.primaryContactId == members[0]
      && view.secondaryContactIds == members[1..]
      && NoDuplicates(values)
      && (Present(Get(contacts[members[0]], f)) ==> values != [] && values[0] == Get(contacts[members[0]], f).value)
      && (forall v :: v in values <==> HeldBy(contacts, members, f, v))
  {
    var head := members[0];
    assert head in members;
    WithoutHead(members);
    SummaryShape(contacts, head, members, f);
    forall v ensures HeldBy(contacts, [head] + members, f, v) <==> HeldBy(contacts, members, f, v) {
      if HeldBy(contacts, [head] + members, f, v) {
        var k :| k in [head] + members && Get(contacts[k], f) == Some(v);
        assert k in members;
      }
    }
  }

  /** What a merge of `cluster` leaves behind in `after`, `n` being the next
      id and `novel` whether a record was created: the facts the second
      call depends on. */
  predicate Settled(before: Table, after: Table, cluster: seq<Id>, n: Id, novel: bool,
                    e: Option<string>, p: Option<string>, now: nat)
  {
    && Fetched(before, cluster)
    && IdsBelow(before, n)
    && ClockAhead(before, now)
    && after.Keys == before.Keys + (if novel then {n} else {})
    && after[cluster[0]] == before[cluster[0]]
    && (forall k :: k in cluster && k != cluster[0] ==>
          after[k].precedence == Secondary && after[k].linkedId == Some(cluster[0]))
    && (forall k :: k in before && k !in cluster ==> after[k] == before[k])
    && (forall k :: k in before ==> SameIdentity(after[k], before[k]))
    && (novel ==> after[n] == Contact(e, p, Some(cluster[0]), Secondary, now))
  }

  lemma MergeSettles(st: State, now: nat, e: Option<string>, p: Option<string>, cluster: seq<Id>)
    requires IdsBelow(st.contacts, st.nextId) && ClockAhead(st.contacts, now)
    requires Fetched(st.contacts, cluster)
    ensures var (after, outcome) := Merge(st, now, e, p, cluster);
      var novel := HasNewInfo(st.contacts, cluster, e, p);
      && Settled(st.contacts, after.contacts, cluster, st.nextId, novel, e, p, now)
      && after.nextId == (if novel then st.nextId + 1 else st.nextId)
      && outcome == Resolved(Summary(after.contacts, cluster[0], Grown(cluster, st.nextId, novel)))
  {
    MergeParts(st, now, e, p, cluster);
    DemotionShape(st, now, e, p, cluster);
  }
}
