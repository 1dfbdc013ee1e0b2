/**
  The retention store of the newer browser: the Redis set
  `{prefix}_posted` and the hash `{prefix}_post_time` (id -> time posted),
  held as a set and a map.  `_do_post_storage_cleanup` sweeps out ids older
  than the cleanup delay; a swept id may be reposted later.
*/
module Retention {
  import opened Maybe

  datatype Store = Store(posted: set<string>, postTime: map<string, int>)

  const EmptyStore := Store({}, map[])

  /** Every posted id has a time entry; the sweep's `float(hget(...))` relies on it. */
  predicate Consistent(s: Store) {
    s.posted <= s.postTime.Keys
  }

  /** `time.time() - posted_time > cleanup_delay` */
  predicate Expired(s: Store, id: string, now: int, cleanupDelay: int) {
    id in s.postTime && now - s.postTime[id] > cleanupDelay
  }

  /** `sadd` into the posted set and `hset` of the post time, for one id. */
  function MarkPosted(s: Store, id: string, now: int): (r: Store)
    ensures r.posted == s.posted + {id}
    ensures r.postTime.Keys == s.postTime.Keys + {id} && r.postTime[id] == now
    ensures forall other :: other != id && other in s.postTime ==> r.postTime[other] == s.postTime[other]
    ensures Consistent(s) ==> Consistent(r)
  {
    Store(s.posted + {id}, s.postTime[id := now])
  }

  /**
    `_do_post_storage_cleanup`: `None` when the first loop's
    `float(hget(...))` meets a posted id without a time (a `TypeError`),
    otherwise the store without the expired ids.  Exactly the expired
    posted ids leave the set, each together with its time entry; younger
    ids, and time entries of ids not in the set, are untouched.
  */
  function Sweep(s: Store, now: int, cleanupDelay: int): (r: Option<Store>)
    ensures r.None? <==> !Consistent(s)
    ensures r.Some? ==> Consistent(r.value)
    ensures r.Some? ==> forall id :: id in r.value.posted <==> id in s.posted && !Expired(s, id, now, cleanupDelay)
    ensures r.Some? ==> forall id :: id in r.value.postTime <==>
                                     id in s.postTime && !(id in s.posted && Expired(s, id, now, cleanupDelay))
    ensures r.Some? ==> forall id :: id in r.value.postTime ==> r.value.postTime[id] == s.postTime[id]
  {
    if !(s.posted <= s.postTime.Keys) then None
    else
      var expired := set id | id in s.posted && Expired(s, id, now, cleanupDelay);
      Some(Store(s.posted - expired, s.postTime - expired))
  }

  /** After a sweep at `now`, nothing left in the set is expired at `now`. */
  lemma SweepLeavesNoExpired(s: Store, now: int, cleanupDelay: int)
    requires Consistent(s)
    ensures var r := Sweep(s, now, cleanupDelay).value;
            forall id :: id in r.posted ==> !Expired(r, id, now, cleanupDelay)
  {
  }

  /** Sweeping twice at the same moment removes nothing more. */
  lemma SweepIdempotent(s: Store, now: int, cleanupDelay: int)
    requires Consistent(s)
    ensures var r := Sweep(s, now, cleanupDelay).value;
            Sweep(r, now, cleanupDelay) == Some(r)
  {
    var r := Sweep(s, now, cleanupDelay).value;
    var again := set id | id in r.posted && Expired(r, id, now, cleanupDelay);
    assert again == {};
    assert r.posted - again == r.posted;
    assert r.postTime - again == r.postTime;
  }

  /**
    `_do_post_storage_cleanup` as written: one loop collects the ids to
    delete (and fails on a missing time), a second removes them from the
    set and the hash.
  */
  method SweepStore(s: Store, now: int, cleanupDelay: int) returns (r: Option<Store>)
    ensures r == Sweep(s, now, cleanupDelay)
  {
    var toDel: set<string> := {};
    var pending := s.posted;
    while pending != {}
      invariant pending <= s.posted
      invariant forall id :: id in s.posted - pending ==> id in s.postTime
      invariant toDel == set id | id in s.posted - pending && Expired(s, id, now, cleanupDelay)
      decreases pending
    {
      var id :| id in pending;
      if id !in s.postTime {
        return None;
      }
      if now - s.postTime[id] > cleanupDelay {
        toDel := toDel + {id};
      }
      pending := pending - {id};
    }
    assert s.posted - pending == s.posted;
    assert s.posted <= s.postTime.Keys;
    var posted := s.posted;
    var times := s.postTime;
    var rest := toDel;
    while rest != {}
      invariant rest <= toDel
      invariant posted == s.posted - (toDel - rest)
      invariant times == s.postTime - (toDel - rest)
      decreases rest
    {
      var id :| id in rest;
      posted := posted - {id};
      times := times - {id};
      rest := rest - {id};
    }
    assert toDel - rest == toDel;
    r := Some(Store(posted, times));
  }
}
