/** The order in which the handler fetches a cluster: `ORDER BY createdAt
    ASC`. The database leaves ties open; this model breaks them by id, so
    the order is total and the cluster sequence is determined. */
module Ordering {
  import opened Contacts

  /** Record `a` comes before record `b`. */
  predicate Older(contacts: Table, a: Id, b: Id)
    requires a in contacts && b in contacts
  {
    contacts[a].createdAt < contacts[b].createdAt ||
    (contacts[a].createdAt == contacts[b].createdAt && a < b)
  }

  /** `m` is the member of `s` that comes first. */
  predicate IsOldest(contacts: Table, m: Id, s: set<Id>)
    requires s <= contacts.Keys
  {
    m in s && forall k :: k in s && k != m ==> Older(contacts, m, k)
  }

  lemma {:induction false} OldestExists(contacts: Table, s: set<Id>)
    requires s <= contacts.Keys && s != {}
    ensures exists m :: IsOldest(contacts, m, s)
    decreases s
  {
    var x :| x in s;
    if s != {x} {
      OldestExists(contacts, s - {x});
      var m :| IsOldest(contacts, m, s - {x});
      if Older(contacts, x, m) {
        forall k | k in s && k != x ensures Older(contacts, x, k) {
          if k != m {
            assert k in s - {x} && Older(contacts, m, k);
          }
        }
        assert IsOldest(contacts, x, s);
      } else {
        assert IsOldest(contacts, m, s);
      }
    } else {
      assert IsOldest(contacts, x, s);
    }
  }

  /** The oldest member of a non-empty set of stored ids. */
  function Oldest(contacts: Table, s: set<Id>): (m: Id)
    requires s <= contacts.Keys && s != {}
    ensures IsOldest(contacts, m, s)
  {
    OldestExists(contacts, s);
    var m :| IsOldest(contacts, m, s);
    m
  }

  /** Every element comes strictly before the ones after it. */
  predicate SortedByAge(contacts: Table, xs: seq<Id>)
    requires forall i :: 0 <= i < |xs| ==> xs[i] in contacts
  {
    forall i, j :: 0 <= i < j < |xs| ==> Older(contacts, xs[i], xs[j])
  }

  /** The records of `s`, oldest first: the result of
      `findMany({ where: { id: { in: s } }, orderBy: { createdAt: 'asc' } })`. */
  function OrderByAge(contacts: Table, s: set<Id>): (r: seq<Id>)
    requires s <= contacts.Keys
    ensures |r| == |s|
    ensures forall k :: k in r <==> k in s
    ensures forall i :: 0 <= i < |r| ==> r[i] in contacts
    ensures SortedByAge(contacts, r)
    decreases s
  {
    if s == {} then []
    else
      var m := Oldest(contacts, s);
      [m] + OrderByAge(contacts, s - {m})
  }

  /** A sequence sorted by age that holds exactly the ids of `s` is the
      fetched order: the order does not depend on how the query is run. */
  lemma {:induction false} SortedOrderIsUnique(contacts: Table, s: set<Id>, xs: seq<Id>)
    requires s <= contacts.Keys
    requires |xs| == |s| && forall k :: k in xs <==> k in s
    requires forall i :: 0 <= i < |xs| ==> xs[i] in contacts
    requires SortedByAge(contacts, xs)
    ensures OrderByAge(contacts, s) == xs
    decreases s
  {
    if s != {} {
      var m := Oldest(contacts, s);
      assert IsOldest(contacts, xs[0], s) by {
        forall k | k in s && k != xs[0] ensures Older(contacts, xs[0], k) {
          var j :| 0 <= j < |xs| && xs[j] == k;
        }
      }
      assert m == xs[0];
      var rest := xs[1..];
      forall k ensures k in rest <==> k in s - {m} {
        if k in rest {
          var j :| 0 <= j < |rest| && rest[j] == k;
          assert Older(contacts, xs[0], xs[j + 1]);
        }
        if k in s - {m} {
          var j :| 0 <= j < |xs| && xs[j] == k;
          assert j != 0;
          assert rest[j - 1] == k;
        }
      }
      SortedOrderIsUnique(contacts, s - {m}, rest);
    }
  }
}
