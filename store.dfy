/** The contact table as the handler's transaction sees it, and the identify
    handler itself as one atomic method on it. */
module ContactStore {
  import opened Contacts
  import opened Matching
  import opened Closure
  import opened Ordering
  import opened Response
  import opened Resolver

  class Store {
    var contacts: Table
    var nextId: Id

    /** The auto-increment invariant: stored ids and links are below `nextId`. */
    ghost predicate Valid()
      reads this
    {
      IdsBelow(contacts, nextId)
    }

    function Snapshot(): State
      reads this
    {
      State(contacts, nextId)
    }

    /** An empty table. */
    constructor ()
      ensures Valid()
      ensures contacts == map[] && nextId == 1
    {
      contacts := map[];
      nextId := 1;
    }

    /** `tx.contact.create`: insert a record under the next id. */
    method Create(email: Option<string>, phone: Option<string>, linkedId: Option<Id>,
                  precedence: Precedence, now: nat) returns (id: Id)
      requires Valid()
      requires linkedId.Some? ==> linkedId.value in contacts
      modifies this
      ensures Valid()
      ensures id == old(nextId) && id !in old(contacts) && nextId == id + 1
      ensures contacts == old(contacts)[id := Contact(email, phone, linkedId, precedence, now)]
    {
      id := nextId;
      contacts := contacts[id := Contact(email, phone, linkedId, precedence, now)];
      nextId := nextId + 1;
    }

    /** The demotion loop: every member after the first is made a secondary
        of the first, writing only those that are not already one. Returns
        the ids it wrote, in order. */
    method RelinkMembers(cluster: seq<Id>) returns (updated: seq<Id>)
      requires Valid()
      requires cluster != [] && forall k :: k in cluster ==> k in contacts
      modifies this
      ensures Valid() && nextId == old(nextId)
      ensures contacts == Relinked(old(contacts), Elements(cluster[1..]), cluster[0])
      ensures forall k :: k in updated <==> k in cluster[1..] && NeedsRelink(old(contacts)[k], cluster[0])
    {
      var oldest := cluster[0];
      assert oldest in cluster;
      updated := [];
      for i := 1 to |cluster|
        invariant Valid() && nextId == old(nextId) && contacts.Keys == old(contacts).Keys
        invariant contacts == Relinked(old(contacts), Elements(cluster[1..i]), oldest)
        invariant forall k :: k in updated <==> k in cluster[1..i] && NeedsRelink(old(contacts)[k], oldest)
      {
        var k := cluster[i];
        assert cluster[1..i + 1] == cluster[1..i] + [k];
        assert Elements(cluster[1..i + 1]) == Elements(cluster[1..i]) + {k};
        RelinkedStep(old(contacts), Elements(cluster[1..i]), k, oldest, contacts);
        if NeedsRelink(contacts[k], oldest) {
          updated := updated + [k];
          contacts := contacts[k := Relink(contacts[k], oldest)];
        }
      }
    }

    /** The identify handler: validate, match, search the component, take
        the oldest member as primary, demote the others, add a secondary
        when the request carries new information, and answer. */
    method Identify(email: Option<string>, phone: Option<string>, now: nat) returns (outcome: Outcome)
      requires Valid()
      modifies this
      ensures Valid()
      ensures (Snapshot(), outcome) == Resolve(old(Snapshot()), now, email, phone)
    {
      if !Present(email) && !Present(phone) {
        return InvalidInput;
      }
      var e, p := Normalize(email), Normalize(phone);
      var matches := DirectMatches(contacts, e, p);
      if matches == {} {
        var id := Create(e, p, None, Primary, now);
        return Resolved(ClusterView(id, Listed(e), Listed(p), []));
      }
      var ids := ExpandIds(contacts, matches);
      var cluster := OrderByAge(contacts, ids * contacts.Keys);
      assert cluster == ClusterOf(contacts, matches);
      outcome := MergeCluster(cluster, e, p, now);
    }

    /** Steps after the search: the oldest member is primary; decide
        novelty, demote, create at most one secondary, answer. */
    method MergeCluster(cluster: seq<Id>, e: Option<string>, p: Option<string>, now: nat) returns (outcome: Outcome)
      requires Valid()
      requires cluster != [] && forall k :: k in cluster ==> k in contacts
      modifies this
      ensures Valid()
      ensures (Snapshot(), outcome) == Merge(old(Snapshot()), now, e, p, cluster)
    {
      ghost var st := Snapshot();
      var oldest := cluster[0];
      assert oldest in contacts;
      var hasNewEmail := IsNew(contacts, cluster, Email, e);
      var hasNewPhone := IsNew(contacts, cluster, Phone, p);
      ghost var novel := hasNewEmail || hasNewPhone;
      assert HasNewInfo(st.contacts, cluster, e, p) == novel;
      var updated := RelinkMembers(cluster);
      ghost var relinked := contacts;
      var members := AddSecondary(cluster, hasNewEmail || hasNewPhone, e, p, now);
      ghost var after := Snapshot();
      var view := Summarize(contacts, oldest, members);
      outcome := Resolved(view);
      assert after == State(if novel then relinked[st.nextId := Contact(e, p, Some(oldest), Secondary, now)] else relinked,
                            if novel then st.nextId + 1 else st.nextId);
      assert outcome == Resolved(Summary(after.contacts, oldest, Grown(cluster, st.nextId, novel)));
      MergeUnfolds(st, now, e, p, cluster);
    }

    /** `if (hasNewEmail || hasNewPhone)`: insert the request as a secondary of
        the oldest member and push it onto the cluster. */
    method AddSecondary(cluster: seq<Id>, novel: bool, e: Option<string>, p: Option<string>, now: nat)
      returns (members: seq<Id>)
      requires Valid()
      requires cluster != [] && forall k :: k in cluster ==> k in contacts
      modifies this
      ensures Valid()
      ensures members == Grown(cluster, old(nextId), novel)
      ensures forall k :: k in members ==> k in contacts
      ensures contacts == if novel then old(contacts)[old(nextId) := Contact(e, p, Some(cluster[0]), Secondary, now)]
                          else old(contacts)
      ensures nextId == if novel then old(nextId) + 1 else old(nextId)
    {
      members := cluster;
      if novel {
        assert cluster[0] in cluster;
        var id := Create(e, p, Some(cluster[0]), Secondary, now);
        members := members + [id];
      }
    }
  }
}
