/** One replica of the store (ReplicaImpl): its key-value store, its role,
    the backups it pushes to and the registry names it has found dead.
    Remote peers are named by their registry binding; `peers` maps each bound
    name to the replica object behind it. */
module Replicas {
  import opened Naming
  import opened Net

  /** The outcome of one discovery pass: the backups found, in registry
      order, and the ignored-name list after the pass. */
  datatype Scan = Scan(found: seq<string>, ignored: seq<string>)

  /** A listed name that discovery probes: it follows the naming
      convention, is not the replica's own name and is not ignored yet. */
  predicate IsCandidate(name: string, myName: string, ignored: seq<string>) {
    IsReplicaName(name) && name != myName && name !in ignored
  }

  /** discoverBackups over a listing, name by name from the front: a live
      candidate joins the result, a candidate whose lookup or ping fails is
      added to the ignored names, anything else is skipped. */
  function Discovery(names: seq<string>, myName: string, ignored: seq<string>, live: set<string>): Scan
    decreases |names|
  {
    if names == [] then Scan([], ignored)
    else
      var s := Discovery(names[..|names| - 1], myName, ignored, live);
      var n := names[|names| - 1];
      if !IsCandidate(n, myName, s.ignored) then s
      else if n in live then Scan(s.found + [n], s.ignored)
      else Scan(s.found, s.ignored + [n])
  }

  /** discoverBackups as a whole: a registry that cannot be listed yields
      no backups and leaves the ignored names as they were. */
  function DiscoverBackupsSpec(net: Network, bound: set<string>, myName: string, ignored: seq<string>): Scan {
    if net.registryUp then Discovery(net.listing, myName, ignored, net.Live(bound))
    else Scan([], ignored)
  }

  /** Reference definition: the listed candidates (judged against the
      ignored names before the pass) that answer, in listing order. */
  function LiveCandidates(names: seq<string>, myName: string, ignored: seq<string>, live: set<string>): (r: seq<string>)
    ensures forall x :: x in r <==> x in names && IsCandidate(x, myName, ignored) && x in live
    decreases |names|
  {
    if names == [] then []
    else
      var r' := LiveCandidates(names[..|names| - 1], myName, ignored, live);
      var n := names[|names| - 1];
      assert forall y :: y in names <==> y in names[..|names| - 1] || y == n;
      if IsCandidate(n, myName, ignored) && n in live then r' + [n] else r'
  }

  /** What a discovery pass finds and what it marks dead:
      - the backups found are exactly the live candidates, in listing order
        (so each matches the pattern, is not the own name, was not ignored
        and answered ping);
      - the ignored list only grows, at its end;
      - it gains exactly the candidates whose lookup or ping failed;
      - it never acquires a duplicate. */
  lemma {:induction false} DiscoveryIsFilter(names: seq<string>, myName: string, ignored: seq<string>, live: set<string>)
    ensures var s := Discovery(names, myName, ignored, live);
      && s.found == LiveCandidates(names, myName, ignored, live)
      && |ignored| <= |s.ignored| && s.ignored[..|ignored|] == ignored
      && (forall x :: x in s.ignored[|ignored|..] <==> x in names && IsCandidate(x, myName, ignored) && x !in live)
      && (NoDup(ignored) ==> NoDup(s.ignored))
    decreases |names|
  {
    if names != [] {
      var init := names[..|names| - 1];
      var n := names[|names| - 1];
      DiscoveryIsFilter(init, myName, ignored, live);
      var s := Discovery(init, myName, ignored, live);
      assert forall y :: y in names <==> y in init || y == n;
      assert s.ignored == ignored + s.ignored[|ignored|..];
      assert n in s.ignored <==> n in ignored || n in s.ignored[|ignored|..];
      if IsCandidate(n, myName, s.ignored) && n !in live {
        var t := s.ignored + [n];
        assert t[..|ignored|] == ignored;
        assert t[|ignored|..] == s.ignored[|ignored|..] + [n];
      }
    }
  }

  /** Every backup a pass returns satisfies all four admission conditions. */
  lemma DiscoveredBackupsQualify(net: Network, bound: set<string>, myName: string, ignored: seq<string>)
    ensures forall b :: b in DiscoverBackupsSpec(net, bound, myName, ignored).found ==>
      IsReplicaName(b) && b != myName && b !in ignored && b in bound && b !in net.crashed
  {
    if net.registryUp {
      DiscoveryIsFilter(net.listing, myName, ignored, net.Live(bound));
    }
  }

  /** The backups and ignored names promoteToPrimary leaves on a replica
      that had the role `wasPrimary`, the backups `backups0` and the ignored
      names `ignored0`: a primary keeps both, a backup gets the discovery
      result. */
  predicate PromotionResult(wasPrimary: bool, backups0: seq<string>, ignored0: seq<string>,
                            backups: seq<string>, ignored: seq<string>,
                            net: Network, bound: set<string>, myName: string) {
    if wasPrimary then backups == backups0 && ignored == ignored0
    else Scan(backups, ignored) == DiscoverBackupsSpec(net, bound, myName, ignored0)
  }

  /** The push loop walks the backup list with an iterator and removes
      failed entries in place. After visiting `j` entries of the list `orig`
      it started from, the first `i` entries of `list` are the survivors so
      far and the rest are the entries not yet visited. */
  predicate ListSoFar(orig: seq<string>, ok: set<string>, list: seq<string>, i: nat, j: nat) {
    i <= |list| && j <= |orig| && list[..i] == Keep(orig[..j], ok) && list[i..] == orig[j..]
  }

  /** Keeping entry `i` when it takes the push, or removing it in place
      when it does not, preserves `ListSoFar`. */
  lemma ListTurn(orig: seq<string>, ok: set<string>, list: seq<string>, i: nat, j: nat)
    requires ListSoFar(orig, ok, list, i, j) && i < |list|
    ensures j < |orig| && list[i] == orig[j]
    ensures list[i] in ok ==> ListSoFar(orig, ok, list, i + 1, j + 1)
    ensures list[i] !in ok ==> ListSoFar(orig, ok, list[..i] + list[i + 1..], i, j + 1)
  {
    assert list[i] == list[i..][0] == orig[j..][0];
    assert orig[..j + 1][..j] == orig[..j];
    assert list[..i + 1] == list[..i] + [list[i]];
    assert list[i + 1..] == list[i..][1..];
    assert orig[j + 1..] == orig[j..][1..];
    var rest := list[..i] + list[i + 1..];
    assert rest[..i] == list[..i] && rest[i..] == list[i + 1..];
  }

  class Replica {
    var store: Store
    var isPrimary: bool
    const myId: string
    var backups: seq<string>
    var ignored: seq<string>

    /** The name this replica is bound under and skips in discovery. */
    function MyName(): string {
      NameOf(myId)
    }

    constructor (myId: string, startAsPrimary: bool, backupsList: seq<string>)
      ensures this.myId == myId && isPrimary == startAsPrimary && backups == backupsList
      ensures store == map[] && ignored == []
    {
      this.myId := myId;
      isPrimary := startAsPrimary;
      backups := backupsList;
      store := map[];
      ignored := [];
    }

    /** handleClientPut: refused (false, nothing changes) unless primary;
        otherwise writes the pair, rediscovers the backups, pushes the
        post-write snapshot to each, drops those whose push fails, and
        acknowledges. After it, every backup kept holds exactly the
        primary's store. */
    method HandleClientPut(key: string, value: string, net: Network, peers: map<string, Replica>) returns (ok: bool)
      modifies this`store, this`backups, this`ignored, peers.Values`store
      ensures ok == isPrimary
      ensures !ok ==> store == old(store) && backups == old(backups) && ignored == old(ignored)
      ensures !ok ==> forall o :: o in peers.Values ==> o.store == old(o.store)
      ensures ok ==> store == old(store)[key := value]
      ensures ok ==> var d := DiscoverBackupsSpec(net, peers.Keys, MyName(), old(ignored));
        ignored == d.ignored && backups == Keep(d.found, net.Deliverable(peers.Keys))
      ensures ok ==> forall b :: b in backups ==> b in peers && peers[b].store == store
      ensures forall o :: o in peers.Values && o != this && o !in Receivers(backups, peers) ==> o.store == old(o.store)
    {
      if !isPrimary {
        return false;
      }
      store := store[key := value];
      var snapshot := store;
      var current := DiscoverBackups(net, peers);
      SetBackups(current);
      PushToBackups(snapshot, net, peers);
      return true;
    }

    /** The push loop of handleClientPut: send `snapshot` to each backup in
        turn; a backup whose push fails is removed from the list in place. */
    method PushToBackups(snapshot: Store, net: Network, peers: map<string, Replica>)
      requires store == snapshot
      modifies this`backups, peers.Values`store
      ensures backups == Keep(old(backups), net.Deliverable(peers.Keys))
      ensures store == snapshot
      ensures forall b :: b in backups ==> b in peers && peers[b].store == snapshot
      ensures forall o :: o in peers.Values && o != this && o !in Receivers(backups, peers) ==> o.store == old(o.store)
    {
      // the iterator walks a list that nothing else sees until the method returns
      var list := backups;
      ghost var before := map o | o in peers.Values :: o.store;
      var i: nat := 0;
      ghost var j: nat := 0;
      while i < |list|
        invariant ListSoFar(old(backups), net.Deliverable(peers.Keys), list, i, j)
        invariant StoresSoFar(snapshot, net, peers, old(backups), before, j)
        decreases |list| - i
      {
        list, i, j := PushTurn(snapshot, net, peers, old(backups), before, list, i, j);
      }
      assert list[..i] == list && old(backups)[..j] == old(backups);
      backups := list;
      ReceiversOfKept(old(backups), net.Deliverable(peers.Keys), peers);
    }

    /** The stores after the push loop has visited `j` entries of `orig`:
        this replica still holds the snapshot, every entry that took the push
        holds it too, and no store outside the reached replicas differs from
        `before`. */
    ghost predicate StoresSoFar(snapshot: Store, net: Network, peers: map<string, Replica>,
                                orig: seq<string>, before: map<Replica, Store>, j: nat)
      reads this, peers.Values
    {
      var ok := net.Deliverable(peers.Keys);
      && j <= |orig| && before.Keys == peers.Values
      && store == snapshot
      && (forall b :: b in orig[..j] && b in ok ==> peers[b].store == snapshot)
      && (forall o :: o in peers.Values && o != this && o !in PushedTo(orig[..j], ok, peers) ==> o.store == before[o])
    }

    /** One turn of the push loop: push to entry `i`; keep it and move on
        when the push succeeds, otherwise remove it in place (the iterator's
        remove()). */
    method PushTurn(snapshot: Store, net: Network, peers: map<string, Replica>,
                    ghost orig: seq<string>, ghost before: map<Replica, Store>,
                    list: seq<string>, i: nat, ghost j: nat)
      returns (list': seq<string>, i': nat, ghost j': nat)
      requires i < |list| && ListSoFar(orig, net.Deliverable(peers.Keys), list, i, j)
      requires StoresSoFar(snapshot, net, peers, orig, before, j)
      modifies peers.Values`store
      ensures ListSoFar(orig, net.Deliverable(peers.Keys), list', i', j')
      ensures StoresSoFar(snapshot, net, peers, orig, before, j')
      ensures |list'| - i' < |list| - i
    {
      var b := list[i];
      ListTurn(orig, net.Deliverable(peers.Keys), list, i, j);
      PushedToStep(orig, j, net.Deliverable(peers.Keys), peers);
      var delivered := TryPush(b, snapshot, net, peers);
      if delivered {
        list', i' := list, i + 1;
      } else {
        list', i' := list[..i] + list[i + 1..], i;
      }
      j' := j + 1;
    }

    /** The replica objects that the names in `names` are bound to. */
    static ghost function Receivers(names: seq<string>, peers: map<string, Replica>): set<Replica> {
      set b | b in names && b in peers :: peers[b]
    }

    /** The replica objects a push round over `names` reaches, when exactly
        the names in `ok` take the push. */
    static ghost function PushedTo(names: seq<string>, ok: set<string>, peers: map<string, Replica>): set<Replica> {
      set b | b in names && b in ok && b in peers :: peers[b]
    }

    static lemma PushedToStep(s: seq<string>, j: nat, ok: set<string>, peers: map<string, Replica>)
      requires j < |s|
      ensures s[..j + 1] == s[..j] + [s[j]]
      ensures PushedTo(s[..j + 1], ok, peers)
        == PushedTo(s[..j], ok, peers) + (if s[j] in ok && s[j] in peers then {peers[s[j]]} else {})
    {
      assert s[..j + 1] == s[..j] + [s[j]];
    }

    /** The survivors of a round are bound to exactly the objects it reached. */
    static lemma ReceiversOfKept(s: seq<string>, ok: set<string>, peers: map<string, Replica>)
      ensures Receivers(Keep(s, ok), peers) == PushedTo(s, ok, peers)
    {
    }

    /** One `backup.pushFullState(snapshot)` inside its try block: it
        succeeds exactly on a deliverable name, and then only that peer's
        store changes, to the snapshot. */
    static method TryPush(b: string, snapshot: Store, net: Network, peers: map<string, Replica>) returns (delivered: bool)
      modifies peers.Values`store
      ensures delivered <==> b in net.Deliverable(peers.Keys)
      ensures delivered ==> peers[b].store == snapshot
      ensures forall o :: o in peers.Values && (!delivered || o != peers[b]) ==> o.store == old(o.store)
    {
      if b in peers && b !in net.crashed && b !in net.pushFails {
        peers[b].PushFullState(snapshot);
        return true;
      }
      return false;
    }

    /** handleClientGet: the stored value, or nothing when the key is absent. */
    method HandleClientGet(key: string) returns (v: Option<string>)
      ensures v.Some? <==> key in store
      ensures v.Some? ==> v.value == store[key]
    {
      v := if key in store then Some(store[key]) else None;
    }

    /** getState: a copy of the whole store. */
    method GetState() returns (s: Store)
      ensures s == store
    {
      s := store;
    }

    /** pushFullState: the store becomes exactly `newState`, whatever it held. */
    method PushFullState(newState: Store)
      modifies this`store
      ensures store == newState
    {
      store := newState;
    }

    /** promoteToPrimary: nothing changes on a primary; a backup becomes
        primary and replaces its backups with a fresh discovery. The store
        is never touched. */
    method PromoteToPrimary(net: Network, peers: map<string, Replica>)
      modifies this`isPrimary, this`backups, this`ignored
      ensures isPrimary
      ensures old(isPrimary) ==> backups == old(backups) && ignored == old(ignored)
      ensures !old(isPrimary) ==> Scan(backups, ignored) == DiscoverBackupsSpec(net, peers.Keys, MyName(), old(ignored))
    {
      if isPrimary {
        return;
      }
      isPrimary := true;
      var discovered := DiscoverBackups(net, peers);
      SetBackups(discovered);
    }

    /** setBackups: the backup list becomes `newBackups`. */
    method SetBackups(newBackups: seq<string>)
      modifies this`backups
      ensures backups == newBackups
    {
      backups := newBackups;
    }

    /** discoverBackups: one pass over the registry listing. */
    method DiscoverBackups(net: Network, peers: map<string, Replica>) returns (found: seq<string>)
      modifies this`ignored
      ensures Scan(found, ignored) == DiscoverBackupsSpec(net, peers.Keys, MyName(), old(ignored))
    {
      found := [];
      if !net.registryUp {
        return;
      }
      var names := net.listing;
      var myName := MyName();
      var i := 0;
      while i < |names|
        invariant 0 <= i <= |names|
        invariant Scan(found, ignored) == Discovery(names[..i], myName, old(ignored), net.Live(peers.Keys))
      {
        var name := names[i];
        assert names[..i + 1][..i] == names[..i];
        if IsReplicaName(name) && name != myName && name !in ignored {
          if name in peers && name !in net.crashed {
            // lookup succeeded and ping answered
            found := found + [name];
          } else if name !in ignored {
            // lookup or ping failed: mark the name dead
            ignored := ignored + [name];
          }
        }
        i := i + 1;
      }
      assert names[..i] == names;
    }
  }
}
