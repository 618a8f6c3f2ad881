/** The direct-match query and the novelty test of the identify handler. */
module Matching {
  import opened Contacts

  /** Whether contact `c` satisfies the match clause for field `f` built
      from the normalised request value `v`. An absent value builds no
      clause, so it matches nothing. */
  predicate Matches(c: Contact, f: Field, v: Option<string>)
  {
    v.Some? && Get(c, f) == v
  }

  /** The ids of the records returned by the OR query over the clauses of the
      present identifiers. */
  function DirectMatches(contacts: Table, email: Option<string>, phone: Option<string>): (r: set<Id>)
    ensures r <= contacts.Keys
    ensures email.None? && phone.None? ==> r == {}
  {
    set k | k in contacts && (Matches(contacts[k], Email, email) || Matches(contacts[k], Phone, phone))
  }

  /** A request value absent in the request (null or "") adds no clause: a
      record is found only through the other identifier, whatever its own
      value for the absent one is, including null. */
  lemma AbsentFieldAddsNoClause(contacts: Table, email: Option<string>, phone: Option<string>, k: Id)
    ensures !Present(email) ==>
              (k in DirectMatches(contacts, Normalize(email), Normalize(phone)) <==>
               k in contacts && Present(phone) && contacts[k].phone == phone)
    ensures !Present(phone) ==>
              (k in DirectMatches(contacts, Normalize(email), Normalize(phone)) <==>
               k in contacts && Present(email) && contacts[k].email == email)
  {
  }

  /** `v && !cluster.some(c => c[f] === v)`: the request value is present and
      no member of the cluster holds it. */
  predicate IsNew(contacts: Table, cluster: seq<Id>, f: Field, v: Option<string>)
    requires forall i :: 0 <= i < |cluster| ==> cluster[i] in contacts
  {
    v.Some? && !exists i :: 0 <= i < |cluster| && Get(contacts[cluster[i]], f) == v
  }
}
