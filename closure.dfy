/** The connected-component search of the identify handler: starting from
    the directly matched ids, repeatedly fetch every record whose `id` or
    `linkedId` is in the set and add its `id` and `linkedId`, until the set
    stops growing. Shared email or phone values of records found on the way
    are not followed; only the links are. */
module Closure {
  import opened Contacts

  predicate LinksInto(c: Contact, ids: set<Id>)
  {
    c.linkedId.Some? && c.linkedId.value in ids
  }

  /** The records the query `id IN ids OR linkedId IN ids` returns. */
  function Related(contacts: Table, ids: set<Id>): set<Id>
  {
    set k | k in contacts && (k in ids || LinksInto(contacts[k], ids))
  }

  /** The non-null `linkedId`s of the stored records among `ks`. */
  function Targets(contacts: Table, ks: set<Id>): set<Id>
  {
    set k | k in ks && k in contacts && contacts[k].linkedId.Some? :: contacts[k].linkedId.value
  }

  /** One pass of the loop body: the set with every related record's id and
      linkedId added. */
  function Step(contacts: Table, ids: set<Id>): set<Id>
  {
    var related := Related(contacts, ids);
    ids + related + Targets(contacts, related)
  }

  /** No stored record reaches outside the set: a record whose id or
      linkedId is in the set has its id and its linkedId in the set. */
  predicate Closed(contacts: Table, ids: set<Id>)
  {
    forall k :: k in contacts && (k in ids || LinksInto(contacts[k], ids)) ==>
      k in ids && (contacts[k].linkedId.Some? ==> contacts[k].linkedId.value in ids)
  }

  /** Every id the search can ever add: the stored ids and the ids they link to. */
  function Universe(contacts: Table): set<Id>
  {
    contacts.Keys + Targets(contacts, contacts.Keys)
  }

  lemma StepWithinUniverse(contacts: Table, ids: set<Id>)
    ensures ids <= Step(contacts, ids) <= ids + Universe(contacts)
  {
  }

  /** A pass that adds nothing leaves a closed set, and only then. */
  lemma ClosedIffStepAddsNothing(contacts: Table, ids: set<Id>)
    ensures Closed(contacts, ids) <==> Step(contacts, ids) == ids
  {
    var related := Related(contacts, ids);
    if Closed(contacts, ids) {
      assert related <= ids;
      assert Targets(contacts, related) <= ids;
    }
    if Step(contacts, ids) == ids {
      forall k | k in contacts && (k in ids || LinksInto(contacts[k], ids))
        ensures k in ids && (contacts[k].linkedId.Some? ==> contacts[k].linkedId.value in ids)
      {
        assert k in related;
        if contacts[k].linkedId.Some? {
          assert contacts[k].linkedId.value in Targets(contacts, related);
        }
      }
    }
  }

  /** A pass never leaves a closed superset of its input. */
  lemma StepStaysInClosed(contacts: Table, ids: set<Id>, bound: set<Id>)
    requires ids <= bound && Closed(contacts, bound)
    ensures Step(contacts, ids) <= bound
  {
    var related := Related(contacts, ids);
    forall k | k in related ensures k in bound && (contacts[k].linkedId.Some? ==> contacts[k].linkedId.value in bound)
    {
      assert k in ids || LinksInto(contacts[k], bound);
    }
  }

  lemma GrowthShrinksRemainder(contacts: Table, ids: set<Id>)
    requires Step(contacts, ids) != ids
    ensures |Universe(contacts) - Step(contacts, ids)| < |Universe(contacts) - ids|
  {
    var next := Step(contacts, ids);
    StepWithinUniverse(contacts, ids);
    var x :| x in next && x !in ids;
    var smaller, larger := Universe(contacts) - next, Universe(contacts) - ids;
    assert x in larger && x !in smaller;
    SubsetSize(smaller + {x}, larger);
  }

  lemma SubsetSize(a: set<Id>, b: set<Id>)
    requires a <= b
    ensures |a| <= |b|
  {
    assert b == a + (b - a);
  }

  /** The fixed point the loop reaches from `ids`. */
  function Expand(contacts: Table, ids: set<Id>): set<Id>
    decreases |Universe(contacts) - ids|
  {
    var next := Step(contacts, ids);
    if next == ids then ids
    else
      GrowthShrinksRemainder(contacts, ids);
      Expand(contacts, next)
  }

  /** The fixed point contains the start set, is closed and adds only ids
      that exist somewhere in the store. */
  lemma {:induction false} ExpandIsClosedSuperset(contacts: Table, ids: set<Id>)
    ensures ids <= Expand(contacts, ids) <= ids + Universe(contacts)
    ensures Closed(contacts, Expand(contacts, ids))
    decreases |Universe(contacts) - ids|
  {
    var next := Step(contacts, ids);
    StepWithinUniverse(contacts, ids);
    if next == ids {
      ClosedIffStepAddsNothing(contacts, ids);
    } else {
      GrowthShrinksRemainder(contacts, ids);
      ExpandIsClosedSuperset(contacts, next);
    }
  }

  /** The fixed point is the least closed superset of the start set: it lies
      inside every closed set that contains the start set. */
  lemma {:induction false} ExpandIsLeast(contacts: Table, ids: set<Id>, bound: set<Id>)
    requires ids <= bound && Closed(contacts, bound)
    ensures Expand(contacts, ids) <= bound
    decreases |Universe(contacts) - ids|
  {
    var next := Step(contacts, ids);
    StepStaysInClosed(contacts, ids, bound);
    if next != ids {
      GrowthShrinksRemainder(contacts, ids);
      ExpandIsLeast(contacts, next, bound);
    }
  }

  lemma SubsetOfEqualSize(a: set<Id>, b: set<Id>)
    requires a <= b && |a| == |b|
    ensures a == b
  {
    assert |b - a| == |b| - |a|;
  }

  lemma TargetsAddOne(contacts: Table, done: set<Id>, r: Id)
    requires r in contacts
    ensures Targets(contacts, done + {r}) ==
              Targets(contacts, done) + (if contacts[r].linkedId.Some? then {contacts[r].linkedId.value} else {})
  {
  }

  /** One pass of the search loop: `for (const r of related)` adds `r.id`
      and, when it is set, `r.linkedId`. */
  method AddRelated(contacts: Table, ids: set<Id>) returns (grown: set<Id>)
    ensures grown == Step(contacts, ids)
  {
    grown := ids;
    var related := Related(contacts, ids);
    var pending := related;
    while pending != {}
      invariant pending <= related
      invariant grown == ids + (related - pending) + Targets(contacts, related - pending)
      decreases pending
    {
      var r :| r in pending;
      TargetsAddOne(contacts, related - pending, r);
      assert related - (pending - {r}) == (related - pending) + {r};
      grown := grown + {r};
      if contacts[r].linkedId.Some? {
        grown := grown + {contacts[r].linkedId.value};
      }
      pending := pending - {r};
    }
  }

  /** The search loop as the handler writes it: `previousSize` remembers the
      size before a pass and the loop stops when a pass adds nothing. Each
      pass walks the related records and adds their ids and linkedIds. */
  method ExpandIds(contacts: Table, seeds: set<Id>) returns (ids: set<Id>)
    ensures ids == Expand(contacts, seeds)
    ensures seeds <= ids && Closed(contacts, ids)
    ensures forall bound :: seeds <= bound && Closed(contacts, bound) ==> ids <= bound
  {
    ids := seeds;
    var previousSize := 0;
    SubsetSize(ids, seeds + Universe(contacts));
    while |ids| > previousSize
      invariant seeds <= ids <= seeds + Universe(contacts)
      invariant previousSize <= |ids| <= |seeds + Universe(contacts)|
      invariant previousSize == |ids| ==> Step(contacts, ids) == ids
      invariant Expand(contacts, ids) == Expand(contacts, seeds)
      decreases |seeds + Universe(contacts)| - previousSize
    {
      previousSize := |ids|;
      ghost var before := ids;
      ids := AddRelated(contacts, ids);
      StepWithinUniverse(contacts, before);
      assert Expand(contacts, ids) == Expand(contacts, before);
      SubsetSize(ids, seeds + Universe(contacts));
      SubsetSize(before, ids);
      if |ids| == previousSize {
        SubsetOfEqualSize(before, ids);
      }
    }
    ExpandIsClosedSuperset(contacts, seeds);
    forall bound | seeds <= bound && Closed(contacts, bound) ensures ids <= bound {
      ExpandIsLeast(contacts, seeds, bound);
    }
  }
}
