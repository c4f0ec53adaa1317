/** The front end (KVServiceImpl): it tracks the current primary and a FIFO
    queue of backups, routes client puts and gets to the primary, promotes
    the head of the queue when the primary cannot be reached, and scans the
    registry for replicas that joined. Handles are registry names. */
module FrontEnd {
  import opened Naming
  import opened Net
  import opened Replicas

  datatype PutReply = PutReply(ok: bool)
  datatype GetReply = GetReply(found: bool, value: string)

  /** A reply sent with onNext, or the UNAVAILABLE status sent with onError. */
  datatype Response<T> = Reply(reply: T) | Unavailable

  /** Where the primary pointer and the backup queue end up. */
  datatype Routing = Routing(primary: Option<string>, queue: seq<string>)

  /** The retry loop of put and get, iteration by iteration: a live primary
      serves the request; with a dead primary and an empty queue the pointer
      is cleared; otherwise the head of the queue is promoted if it answers
      (and then serves) or dropped if it does not. */
  function Failover(primary: Option<string>, queue: seq<string>, live: set<string>): (r: Routing)
    ensures r.primary.Some? ==> r.primary.value in live
    decreases |queue|
  {
    match primary
    case None => Routing(None, queue)
    case Some(p) =>
      if p in live then Routing(primary, queue)
      else if queue == [] then Routing(None, [])
      else if queue[0] in live then Failover(Some(queue[0]), RemoveFirst(queue, queue[0]), live)
      else Failover(primary, RemoveFirst(queue, queue[0]), live)
  }

  /** Index of the first live name in `s`, or |s| when none is live. */
  function FirstLive(s: seq<string>, live: set<string>): (k: nat)
    ensures k <= |s|
    ensures k < |s| ==> s[k] in live
    ensures forall j :: 0 <= j < k ==> s[j] !in live
  {
    if s == [] then 0
    else if s[0] in live then 0
    else 1 + FirstLive(s[1..], live)
  }

  /** The retry loop in closed form: a live primary keeps serving and the
      queue is untouched; a dead one is replaced by the first live backup in
      queue order, and every backup ahead of it, all dead, is gone from the
      queue for good; with no live backup the pointer is cleared and the
      queue emptied. A missing primary is left missing. */
  lemma {:induction false} FailoverPromotesFirstLiveBackup(primary: Option<string>, queue: seq<string>, live: set<string>)
    ensures Failover(primary, queue, live) ==
      match primary
      case None => Routing(None, queue)
      case Some(p) =>
        if p in live then Routing(primary, queue)
        else
          var k := FirstLive(queue, live);
          if k == |queue| then Routing(None, []) else Routing(Some(queue[k]), queue[k + 1..])
    decreases |queue|
  {
    if primary.Some? && primary.value !in live && queue != [] {
      if queue[0] !in live {
        FailoverPromotesFirstLiveBackup(primary, queue[1..], live);
        var k := FirstLive(queue[1..], live);
        if k < |queue[1..]| {
          assert queue[1..][k + 1..] == queue[k + 2..];
        }
      }
    }
  }

  /** A request ends UNAVAILABLE exactly when there was no primary to begin
      with, or neither the primary nor any queued backup answers. */
  lemma UnavailableIffNoLiveReplica(primary: Option<string>, queue: seq<string>, live: set<string>)
    ensures Failover(primary, queue, live).primary.None? <==>
      primary.None? || (primary.value !in live && forall x :: x in queue ==> x !in live)
  {
    FailoverPromotesFirstLiveBackup(primary, queue, live);
    if primary.Some? && primary.value !in live {
      var k := FirstLive(queue, live);
      if k < |queue| {
        assert queue[k] in queue;
      } else {
        forall x | x in queue ensures x !in live {
          var j :| 0 <= j < |queue| && queue[j] == x;
        }
      }
    }
  }

  /** The queue and the ignored names as the discovery scan changes them. */
  datatype Known = Known(queue: seq<string>, ignored: seq<string>)

  /** One name of discoverNewReplicas' scan while `p` is the primary:
      skipped when it does not match the pattern or is ignored; ignored when
      its lookup fails; skipped when it is the primary or already queued;
      appended after seeding when it answers, the primary hands out its state
      and the push of that state succeeds; ignored otherwise. */
  function SeedStep(st: Known, n: string, p: string, net: Network, bound: set<string>): Known {
    if !IsReplicaName(n) || n in st.ignored then st
    else if n in bound && (n == p || n in st.queue) then st
    else if n in net.Deliverable(bound) && p in net.Live(bound) then Known(st.queue + [n], st.ignored)
    else Known(st.queue, st.ignored + [n])
  }

  /** The scan over a listing, from the front. */
  function Sweep(names: seq<string>, p: string, st: Known, net: Network, bound: set<string>): Known
    decreases |names|
  {
    if names == [] then st
    else SeedStep(Sweep(names[..|names| - 1], p, st, net, bound), names[|names| - 1], p, net, bound)
  }

  /** `st'` is `st` with names appended to the queue and to the ignored list. */
  predicate Extends(st': Known, st: Known) {
    && |st.queue| <= |st'.queue| && st'.queue == st.queue + st'.queue[|st.queue|..]
    && |st.ignored| <= |st'.ignored| && st'.ignored == st.ignored + st'.ignored[|st.ignored|..]
  }

  /** A name the scan leaves alone: not a replica name, ignored, or bound
      and either the primary or already queued. */
  predicate Settled(n: string, p: string, st: Known, bound: set<string>) {
    !IsReplicaName(n) || n in st.ignored || (n in bound && (n == p || n in st.queue))
  }

  /** What a scan does to the queue and the ignored names:
      - both only grow, at their tail;
      - each backup it appends matches the pattern, was neither ignored,
        nor the primary, nor queued before, answers ping and took the
        seeding push, and the primary answered getState;
      - it creates no duplicate in either list, and never queues the primary. */
  lemma {:induction false} SweepAppends(names: seq<string>, p: string, st: Known, net: Network, bound: set<string>)
    ensures var st' := Sweep(names, p, st, net, bound);
      && Extends(st', st)
      && (forall n :: n in st'.queue[|st.queue|..] ==>
            IsReplicaName(n) && n !in st.ignored && n != p && n !in st.queue
            && n in net.Deliverable(bound) && p in net.Live(bound))
      && (NoDup(st.queue) ==> NoDup(st'.queue))
      && (NoDup(st.ignored) ==> NoDup(st'.ignored))
      && (p !in st.queue ==> p !in st'.queue)
    decreases |names|
  {
    if names != [] {
      var init := names[..|names| - 1];
      SweepAppends(init, p, st, net, bound);
      var s := Sweep(init, p, st, net, bound);
      var n := names[|names| - 1];
      assert s.queue == st.queue + s.queue[|st.queue|..];
      assert s.ignored == st.ignored + s.ignored[|st.ignored|..];
      var s' := SeedStep(s, n, p, net, bound);
      if s'.queue != s.queue {
        assert s'.queue[|st.queue|..] == s.queue[|st.queue|..] + [n];
      }
      if s'.ignored != s.ignored {
        assert s'.ignored[|st.ignored|..] == s.ignored[|st.ignored|..] + [n];
      }
    }
  }

  /** After a scan, every listed name is settled. */
  lemma {:induction false} SweepSettles(names: seq<string>, p: string, st: Known, net: Network, bound: set<string>)
    ensures forall n :: n in names ==> Settled(n, p, Sweep(names, p, st, net, bound), bound)
    decreases |names|
  {
    if names != [] {
      var init := names[..|names| - 1];
      SweepSettles(init, p, st, net, bound);
      var s := Sweep(init, p, st, net, bound);
      var last := names[|names| - 1];
      var s' := SeedStep(s, last, p, net, bound);
      assert Extends(s', s);
      assert forall n :: n in names ==> n in init || n == last;
    }
  }

  /** A scan over names that are all settled changes nothing. */
  lemma {:induction false} SweepOfSettledIsIdentity(names: seq<string>, p: string, st: Known, net: Network, bound: set<string>)
    requires forall n :: n in names ==> Settled(n, p, st, bound)
    ensures Sweep(names, p, st, net, bound) == st
    decreases |names|
  {
    if names != [] {
      var init := names[..|names| - 1];
      assert forall n :: n in init ==> n in names;
      SweepOfSettledIsIdentity(init, p, st, net, bound);
      assert names[|names| - 1] in names;
    }
  }

  /** A second scan over an unchanged registry, with the same primary,
      adds nothing: no duplicate backups, no duplicate ignored names. */
  lemma ScanIsIdempotent(names: seq<string>, p: string, st: Known, net: Network, bound: set<string>)
    ensures var once := Sweep(names, p, st, net, bound);
      Sweep(names, p, once, net, bound) == once
  {
    SweepSettles(names, p, st, net, bound);
    SweepOfSettledIsIdentity(names, p, Sweep(names, p, st, net, bound), net, bound);
  }

  /** While the primary cannot be reached, getState fails for every new
      replica, so a scan queues nothing and marks every such replica dead:
      each listed replica name that is bound and neither the primary nor
      queued ends up ignored. */
  lemma {:induction false} ScanWithDeadPrimaryQueuesNothing(names: seq<string>, p: string, st: Known, net: Network, bound: set<string>)
    requires p !in net.Live(bound)
    ensures var st' := Sweep(names, p, st, net, bound);
      && st'.queue == st.queue
      && forall n :: n in names && IsReplicaName(n) && n != p && n !in st.queue ==> n in st'.ignored
    decreases |names|
  {
    if names != [] {
      var init := names[..|names| - 1];
      ScanWithDeadPrimaryQueuesNothing(init, p, st, net, bound);
      SweepAppends(init, p, st, net, bound);
      assert forall n :: n in names ==> n in init || n == names[|names| - 1];
    }
  }

  class KVService {
    var primary: Option<string>
    var remainingBackups: seq<string>
    var ignored: seq<string>

    constructor (initialPrimary: Option<string>, backupsInOrder: seq<string>)
      ensures primary == initialPrimary && remainingBackups == backupsInOrder && ignored == []
    {
      primary := initialPrimary;
      remainingBackups := backupsInOrder;
      ignored := [];
    }

    /** failoverToBackup: fails without any change when there is no
        candidate or its promotion fails; otherwise the candidate is promoted,
        becomes the primary and leaves the queue. */
    method FailoverToBackup(candidate: Option<string>, net: Network, peers: map<string, Replica>) returns (promoted: bool)
      modifies this`primary, this`remainingBackups, peers.Values`isPrimary, peers.Values`backups, peers.Values`ignored
      ensures promoted <==> candidate.Some? && candidate.value in net.Live(peers.Keys)
      ensures !promoted ==> primary == old(primary) && remainingBackups == old(remainingBackups)
      ensures promoted ==> primary == candidate && remainingBackups == RemoveFirst(old(remainingBackups), candidate.value)
      ensures promoted ==> peers[candidate.value].isPrimary
      ensures promoted ==> var c := peers[candidate.value];
        PromotionResult(old(c.isPrimary), old(c.backups), old(c.ignored), c.backups, c.ignored, net, peers.Keys, c.MyName())
      ensures forall o :: o in peers.Values && (!promoted || o != peers[candidate.value]) ==>
        o.isPrimary == old(o.isPrimary) && o.backups == old(o.backups) && o.ignored == old(o.ignored)
    {
      if candidate.None? {
        return false;
      }
      var c := candidate.value;
      if c !in peers || c in net.crashed {
        // promoteToPrimary fails in transport
        return false;
      }
      peers[c].PromoteToPrimary(net, peers);
      primary := candidate;
      remainingBackups := RemoveFirst(remainingBackups, c);
      return true;
    }

    /** The catch block of the put and get loops, after the primary failed
        in transport: with an empty queue the primary pointer is cleared
        (exhausted); otherwise the head of the queue is promoted, or removed
        for good when its promotion fails. Either way the loop's Failover
        outcome is unchanged and, unless exhausted, the queue is shorter. */
    method AfterPrimaryFailure(net: Network, peers: map<string, Replica>) returns (exhausted: bool)
      requires primary.Some? && primary.value !in net.Live(peers.Keys)
      modifies this`primary, this`remainingBackups, peers.Values`isPrimary, peers.Values`backups, peers.Values`ignored
      ensures var live := net.Live(peers.Keys);
        Failover(primary, remainingBackups, live) == Failover(old(primary), old(remainingBackups), live)
      ensures exhausted <==> primary.None?
      ensures exhausted ==> old(remainingBackups) == [] && remainingBackups == []
      ensures !exhausted ==> old(remainingBackups) != [] && remainingBackups == old(remainingBackups)[1..]
      ensures !exhausted && primary != old(primary) ==> primary == Some(old(remainingBackups)[0])
      ensures forall o :: o in peers.Values && (primary == old(primary) || primary.None? || primary.value !in peers || o != peers[primary.value]) ==>
        unchanged(o)
      ensures primary.Some? && primary != old(primary) ==>
        primary.value in net.Live(peers.Keys) && peers[primary.value].isPrimary
      ensures primary.Some? && primary != old(primary) ==> var c := peers[primary.value];
        PromotionResult(old(c.isPrimary), old(c.backups), old(c.ignored), c.backups, c.ignored, net, peers.Keys, c.MyName())
    {
      var candidate := if |remainingBackups| > 0 then Some(remainingBackups[0]) else None;
      if candidate.None? {
        primary := None;
        return true;
      }
      var promoted := FailoverToBackup(candidate, net, peers);
      if !promoted {
        remainingBackups := RemoveFirst(remainingBackups, candidate.value);
      }
      return false;
    }

    /** put: route the write to the primary, failing over through the queue
        as needed. The pointer and queue end as Failover says; the request
        is UNAVAILABLE exactly when no primary is left; otherwise the reply
        is the serving replica's own answer, true for a freshly promoted one,
        and an acknowledged write is in its store and in every backup it kept. */
    method Put(key: string, value: string, net: Network, peers: map<string, Replica>) returns (response: Response<PutReply>)
      modifies this`primary, this`remainingBackups, peers.Values
      ensures var r := Failover(old(primary), old(remainingBackups), net.Live(peers.Keys));
        primary == r.primary && remainingBackups == r.queue
      ensures response.Unavailable? <==> primary.None?
      ensures old(primary).None? ==> forall o :: o in peers.Values ==> unchanged(o)
      ensures primary.Some? ==> var n := primary.value;
        n in peers && response == Reply(PutReply(primary != old(primary) || old(peers[n].isPrimary)))
      ensures primary.Some? && primary != old(primary) ==> peers[primary.value].isPrimary
      ensures response.Reply? && !response.reply.ok ==> forall o :: o in peers.Values ==> unchanged(o)
      ensures primary.Some? && response.reply.ok ==> var s := peers[primary.value];
        && s.store == old(s.store)[key := value]
        && forall b :: b in s.backups ==> b in peers && peers[b].store == s.store
    {
      ghost var live := net.Live(peers.Keys);
      ghost var r := Failover(primary, remainingBackups, live);
      var ok := false;
      while true
        invariant Failover(primary, remainingBackups, live) == r
        invariant forall o :: o in peers.Values ==> o.store == old(o.store)
        invariant primary == old(primary) ==> forall o :: o in peers.Values ==> unchanged(o)
        invariant primary != old(primary) ==> primary.Some? && primary.value in live && peers[primary.value].isPrimary
        decreases |remainingBackups|
      {
        var current := primary;
        if current.None? {
          break;
        }
        var n := current.value;
        if n in peers && n !in net.crashed {
          ok := peers[n].HandleClientPut(key, value, net, peers);
          break;
        }
        // handleClientPut failed in transport
        var exhausted := AfterPrimaryFailure(net, peers);
        if exhausted {
          break;
        }
      }
      if primary.None? && !ok {
        response := Unavailable;
      } else {
        response := Reply(PutReply(ok));
      }
    }

    /** get: route the read like put. The request is UNAVAILABLE exactly
        when no primary is left; otherwise `found` holds exactly when the
        serving replica stores the key, and the value is its stored value,
        or "" when it is not found. The replica that serves is the first
        live one, so after a failover the read sees the promoted backup's
        store as it was before the request. */
    method Get(key: string, net: Network, peers: map<string, Replica>) returns (response: Response<GetReply>)
      modifies this`primary, this`remainingBackups, peers.Values`isPrimary, peers.Values`backups, peers.Values`ignored
      ensures var r := Failover(old(primary), old(remainingBackups), net.Live(peers.Keys));
        primary == r.primary && remainingBackups == r.queue
      ensures response.Unavailable? <==> primary.None?
      ensures old(primary).None? ==> forall o :: o in peers.Values ==> unchanged(o)
      ensures primary.Some? && primary != old(primary) ==> peers[primary.value].isPrimary
      ensures primary.Some? && primary != old(primary) ==> var c := peers[primary.value];
        PromotionResult(old(c.isPrimary), old(c.backups), old(c.ignored), c.backups, c.ignored, net, peers.Keys, c.MyName())
      ensures forall o :: o in peers.Values && (primary == old(primary) || primary.None? || primary.value !in peers || o != peers[primary.value]) ==>
        unchanged(o)
      ensures primary.Some? ==> var n := primary.value;
        n in peers && response.Reply? &&
        var s := old(peers[n].store);
        && (response.reply.found <==> key in s)
        && response.reply.value == (if key in s then s[key] else "")
    {
      ghost var live := net.Live(peers.Keys);
      ghost var r := Failover(primary, remainingBackups, live);
      var value: Option<string> := None;
      var found := false;
      while true
        invariant Failover(primary, remainingBackups, live) == r
        invariant !found
        invariant forall o :: o in peers.Values && (primary == old(primary) || primary.None? || primary.value !in peers || o != peers[primary.value]) ==>
          unchanged(o)
        invariant primary.Some? && primary != old(primary) ==> primary.value in live && peers[primary.value].isPrimary
        invariant primary.Some? && primary != old(primary) ==> var c := peers[primary.value];
          PromotionResult(old(c.isPrimary), old(c.backups), old(c.ignored), c.backups, c.ignored, net, peers.Keys, c.MyName())
        decreases |remainingBackups|
      {
        var current := primary;
        if current.None? {
          break;
        }
        var n := current.value;
        if n in peers && n !in net.crashed {
          value := peers[n].HandleClientGet(key);
          found := value.Some?;
          break;
        }
        // handleClientGet failed in transport
        var exhausted := AfterPrimaryFailure(net, peers);
        if exhausted {
          break;
        }
      }
      if primary.None? && !found {
        response := Unavailable;
      } else {
        response := Reply(GetReply(found, if found then value.value else ""));
      }
    }

    /** discoverNewReplicas: one scan of the registry. Nothing happens
        without a primary; otherwise the queue and ignored names end as
        Sweep says, and every backup appended holds the primary's state. */
    method DiscoverNewReplicas(net: Network, peers: map<string, Replica>)
      modifies this`remainingBackups, this`ignored, peers.Values`store
      ensures primary == old(primary)
      ensures primary.None? || !net.registryUp ==>
        remainingBackups == old(remainingBackups) && ignored == old(ignored)
        && forall o :: o in peers.Values ==> o.store == old(o.store)
      ensures primary.Some? && net.registryUp ==>
        Known(remainingBackups, ignored) ==
          Sweep(net.listing, primary.value, Known(old(remainingBackups), old(ignored)), net, peers.Keys)
      ensures primary.Some? && |remainingBackups| > |old(remainingBackups)| ==>
        && primary.value in peers
        && forall k :: |old(remainingBackups)| <= k < |remainingBackups| ==>
             remainingBackups[k] in peers && peers[remainingBackups[k]].store == peers[primary.value].store
      ensures primary.Some? && primary.value in peers ==> peers[primary.value].store == old(peers[primary.value].store)
      ensures forall o :: o in peers.Values ==>
        || o.store == old(o.store)
        || exists k :: |old(remainingBackups)| <= k < |remainingBackups| && remainingBackups[k] in peers && o == peers[remainingBackups[k]]
    {
      var currentPrimary := primary;
      if currentPrimary.None? || !net.registryUp {
        return;
      }
      var p := currentPrimary.value;
      var names := net.listing;
      ghost var st0 := Known(remainingBackups, ignored);
      ghost var bound := peers.Keys;
      ghost var seed := if p in peers then peers[p].store else map[];
      var i := 0;
      while i < |names|
        invariant 0 <= i <= |names|
        invariant Known(remainingBackups, ignored) == Sweep(names[..i], p, st0, net, bound)
        invariant |st0.queue| <= |remainingBackups|
        invariant p in peers ==> peers[p].store == seed && seed == old(peers[p].store)
        invariant forall o :: o in peers.Values ==>
          || o.store == old(o.store)
          || exists k :: |st0.queue| <= k < |remainingBackups| && remainingBackups[k] in peers && o == peers[remainingBackups[k]]
        invariant |st0.queue| < |remainingBackups| ==> p in peers
        invariant forall k :: |st0.queue| <= k < |remainingBackups| ==>
          remainingBackups[k] in peers && peers[remainingBackups[k]].store == seed
      {
        var name := names[i];
        assert names[..i + 1][..i] == names[..i];
        assert Sweep(names[..i + 1], p, st0, net, bound) == SeedStep(Sweep(names[..i], p, st0, net, bound), name, p, net, bound);
        ghost var before := remainingBackups;
        label Visit:
        HandleListedName(name, p, net, peers);
        assert remainingBackups == before || remainingBackups == before + [name];
        forall o | o in peers.Values
          ensures
            || o.store == old(o.store)
            || exists k :: |st0.queue| <= k < |remainingBackups| && remainingBackups[k] in peers && o == peers[remainingBackups[k]]
        {
          if o.store != old(o.store) {
            if remainingBackups != before && o == peers[name] {
              assert remainingBackups[|before|] == name;
            } else {
              assert o.store == old@Visit(o.store);
              var k :| |st0.queue| <= k < |before| && before[k] in peers && o == peers[before[k]];
              assert remainingBackups[k] == before[k];
            }
          }
        }
        forall k | |st0.queue| <= k < |remainingBackups|
          ensures remainingBackups[k] in peers && peers[remainingBackups[k]].store == seed
        {
          if k < |before| {
            assert remainingBackups[k] == before[k];
            assert peers[before[k]] in peers.Values;
          }
        }
        i := i + 1;
      }
      assert names[..i] == names;
      assert p == primary.value && |st0.queue| == |old(remainingBackups)|;
    }

    /** The body of discoverNewReplicas' loop for one listed name, while
        `p` is the primary. */
    method HandleListedName(name: string, p: string, net: Network, peers: map<string, Replica>)
      modifies this`remainingBackups, this`ignored, peers.Values`store
      ensures Known(remainingBackups, ignored) == SeedStep(Known(old(remainingBackups), old(ignored)), name, p, net, peers.Keys)
      ensures remainingBackups != old(remainingBackups) ==> name in peers && p in peers && peers[name].store == peers[p].store
      ensures forall o :: o in peers.Values && (remainingBackups == old(remainingBackups) || o != peers[name]) ==> o.store == old(o.store)
      ensures forall o :: o in peers.Values ==> o.store == old(o.store) || (p in peers && o.store == old(peers[p].store))
      ensures p in peers ==> peers[p].store == old(peers[p].store)
    {
      if !IsReplicaName(name) || name in ignored {
        return;
      }
      if name !in peers {
        // lookup failed
        if name !in ignored {
          ignored := ignored + [name];
        }
      } else if name == p || name in remainingBackups {
        // the current primary, or a backup already known
      } else if name in net.crashed {
        // ping failed
        ignored := ignored + [name];
      } else if p !in peers || p in net.crashed || name in net.pushFails {
        // getState on the primary, or the seeding push, failed
        if name !in ignored {
          ignored := ignored + [name];
        }
      } else {
        var state := peers[p].GetState();
        peers[name].PushFullState(state);
        remainingBackups := remainingBackups + [name];
      }
    }
  }
}
