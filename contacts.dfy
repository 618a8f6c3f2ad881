/** The data model of the identity resolver: contact records, the store they
    live in, the request's identifiers and the cluster summary it returns. */
module Contacts {

  datatype Option<+T> = None | Some(value: T)

  /** Record ids are assigned by an auto-increment column that starts at 1,
      so an id is never the falsy value 0. */
  type Id = n: nat | n >= 1 witness 1

  datatype Precedence = Primary | Secondary

  /** A stored contact. Its id is the key under which the store holds it. */
  datatype Contact = Contact(
    email: Option<string>,
    phone: Option<string>,
    linkedId: Option<Id>,
    precedence: Precedence,
    createdAt: nat)

  /** The contact table: id to record. */
  type Table = map<Id, Contact>

  /** The two identifier columns a request can name. */
  datatype Field = Email | Phone

  function Get(c: Contact, f: Field): Option<string>
  {
    match f
    case Email => c.email
    case Phone => c.phone
  }

  /** JavaScript truthiness of an optional string: null and "" are absent. */
  predicate Present(o: Option<string>)
  {
    o.Some? && o.value != ""
  }

  /** `x ? String(x) : null`: an absent identifier becomes null. */
  function Normalize(o: Option<string>): (r: Option<string>)
    ensures r.Some? <==> Present(o)
    ensures r.Some? ==> r == o
  {
    if Present(o) then o else None
  }

  /** A one-element list for a present value, the empty list otherwise. */
  function Listed(o: Option<string>): (r: seq<string>)
    ensures |r| <= 1
    ensures r == [] <==> !Present(o)
    ensures r != [] ==> r[0] == o.value
  {
    if Present(o) then [o.value] else []
  }

  /** The body of a successful response. */
  datatype ClusterView = ClusterView(
    primaryContactId: Id,
    emails: seq<string>,
    phoneNumbers: seq<string>,
    secondaryContactIds: seq<Id>)

  /** What a call returns: the 400 "Email or phoneNumber is required"
      rejection, or the cluster summary. */
  datatype Outcome = InvalidInput | Resolved(view: ClusterView)

  /** The persisted state a call reads and writes. */
  datatype State = State(contacts: Table, nextId: Id)

  /** What the auto-increment column guarantees: every stored id, and every
      id a record links to, was handed out before `nextId`. */
  predicate IdsBelow(contacts: Table, nextId: Id)
  {
    forall k :: k in contacts ==>
      k < nextId && (contacts[k].linkedId.Some? ==> contacts[k].linkedId.value < nextId)
  }

  /** The clock value `now` is not earlier than any stored record. */
  predicate ClockAhead(contacts: Table, now: nat)
  {
    forall k :: k in contacts ==> contacts[k].createdAt <= now
  }
}
