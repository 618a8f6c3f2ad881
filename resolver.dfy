/** The identify handler as one function from the persisted state and the
    request to the new state and the response. The store class's Identify
    method is proved to compute exactly this; the lemmas in the other
    resolver files are stated about it. */
module Resolver {
  import opened Contacts
  import opened Matching
  import opened Closure
  import opened Ordering
  import opened Response

  /** The update `{ linkPrecedence: 'secondary', linkedId: primary }`. */
  function Relink(c: Contact, primary: Id): Contact
  {
    c.(precedence := Secondary, linkedId := Some(primary))
  }

  /** The demotion loop writes a member only if it is still a primary or
      points somewhere other than the oldest member. */
  predicate NeedsRelink(c: Contact, primary: Id)
  {
    c.precedence == Primary || c.linkedId != Some(primary)
  }

  /** The table after the demotion pass has relinked `others` to `primary`. */
  function Relinked(contacts: Table, others: set<Id>, primary: Id): (r: Table)
    ensures r.Keys == contacts.Keys
  {
    map k | k in contacts :: if k in others then Relink(contacts[k], primary) else contacts[k]
  }

  /** One iteration of the demotion loop extends the relinked set by `k`. */
  lemma RelinkedStep(start: Table, done: set<Id>, k: Id, primary: Id, current: Table)
    requires k in start && current == Relinked(start, done, primary)
    ensures (if NeedsRelink(current[k], primary) then current[k := Relink(current[k], primary)] else current)
            == Relinked(start, done + {k}, primary)
  {
  }

  function Elements(xs: seq<Id>): set<Id>
  {
    set k | k in xs
  }

  /** The stored records of the connected component found from `matches`. */
  function Members(contacts: Table, matches: set<Id>): set<Id>
  {
    Expand(contacts, matches) * contacts.Keys
  }

  /** The fetched cluster: the component's records, oldest first. */
  function ClusterOf(contacts: Table, matches: set<Id>): (r: seq<Id>)
    requires matches <= contacts.Keys
    ensures matches != {} ==> r != []
    ensures forall k :: k in r <==> k in Members(contacts, matches)
    ensures |r| == |Members(contacts, matches)|
    ensures forall k :: k in r ==> k in contacts
    ensures SortedByAge(contacts, r)
  {
    ExpandIsClosedSuperset(contacts, matches);
    assert matches <= Members(contacts, matches);
    OrderByAge(contacts, Members(contacts, matches))
  }

  /** Whether the request carries an email or phone number that no member of
      the cluster holds (`hasNewEmail || hasNewPhone`). */
  predicate HasNewInfo(contacts: Table, cluster: seq<Id>, email: Option<string>, phone: Option<string>)
    requires forall k :: k in cluster ==> k in contacts
  {
    IsNew(contacts, cluster, Email, email) || IsNew(contacts, cluster, Phone, phone)
  }

  /** A request that matches nothing: insert it as a new primary and answer
      with that record alone. */
  function CreatePrimary(st: State, now: nat, e: Option<string>, p: Option<string>): (State, Outcome)
  {
    var id := st.nextId;
    (State(st.contacts[id := Contact(e, p, None, Primary, now)], id + 1),
     Resolved(ClusterView(id, Listed(e), Listed(p), [])))
  }

  /** The members a merge answers for: the cluster, then the new record
      `n` when one was created. */
  function Grown(cluster: seq<Id>, n: Id, novel: bool): seq<Id>
  {
    if novel then cluster + [n] else cluster
  }

  /** A request that matched the cluster `cluster` (oldest first): demote
      every member after the first, add one secondary if the request
      carries new information, and summarise. */
  function Merge(st: State, now: nat, e: Option<string>, p: Option<string>, cluster: seq<Id>): (State, Outcome)
    requires cluster != [] && forall k :: k in cluster ==> k in st.contacts
  {
    var oldest := cluster[0];
    var relinked := Relinked(st.contacts, Elements(cluster[1..]), oldest);
    var novel := HasNewInfo(st.contacts, cluster, e, p);
    var id := st.nextId;
    var contacts := if novel then relinked[id := Contact(e, p, Some(oldest), Secondary, now)] else relinked;
    (State(contacts, if novel then id + 1 else id), Resolved(Summary(contacts, oldest, Grown(cluster, id, novel))))
  }

  /** `Merge` with its parts named: the relinked table, then the optional
      insert under the next id. */
  lemma MergeUnfolds(st: State, now: nat, e: Option<string>, p: Option<string>, cluster: seq<Id>)
    requires cluster != [] && forall k :: k in cluster ==> k in st.contacts
    ensures var novel := HasNewInfo(st.contacts, cluster, e, p);
      var relinked := Relinked(st.contacts, Elements(cluster[1..]), cluster[0]);
      var contacts := if novel then relinked[st.nextId := Contact(e, p, Some(cluster[0]), Secondary, now)] else relinked;
      Merge(st, now, e, p, cluster)
        == (State(contacts, if novel then st.nextId + 1 else st.nextId),
            Resolved(Summary(contacts, cluster[0], Grown(cluster, st.nextId, novel))))
  {
  }

  /** The request's present identifiers find at least one stored record. */
  predicate Matched(st: State, email: Option<string>, phone: Option<string>)
  {
    DirectMatches(st.contacts, Normalize(email), Normalize(phone)) != {}
  }

  /** The cluster a matched request resolves to, oldest first. */
  function Cluster(st: State, email: Option<string>, phone: Option<string>): seq<Id>
  {
    ClusterOf(st.contacts, DirectMatches(st.contacts, Normalize(email), Normalize(phone)))
  }

  /** One identify call: the state after it and its outcome. `now` is the
      creation time the store stamps on a record inserted by this call. */
  function Resolve(st: State, now: nat, email: Option<string>, phone: Option<string>): (State, Outcome)
  {
    if !Present(email) && !Present(phone) then (st, InvalidInput)
    else
      var e, p := Normalize(email), Normalize(phone);
      var matches := DirectMatches(st.contacts, e, p);
      if matches == {} then CreatePrimary(st, now, e, p)
      else Merge(st, now, e, p, ClusterOf(st.contacts, matches))
  }
}
