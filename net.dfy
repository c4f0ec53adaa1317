/** The world outside one process, as explicit inputs: the registry, which
    bindings answer remote calls, and which pushes of a full state fail. */
module Net {

  /** The replicated key-value data: string keys to string values. */
  type Store = map<string, string>

  datatype Option<+T> = None | Some(value: T)

  /** What remote calls observe during one atomic operation.
      - `registryUp`: whether listing the registry succeeds at all;
      - `listing`: the names the registry lists, in its order;
      - `crashed`: bound names whose process is gone: every call on them
        (ping, promote, put, get, getState, push) fails in transport;
      - `pushFails`: names whose pushFullState call fails in transport
        although they answered ping (a peer lost between discovery and push).
      Whether a name is bound at all is given by the keys of the peer map
      that goes with a Network. */
  datatype Network = Network(
    registryUp: bool,
    listing: seq<string>,
    crashed: set<string>,
    pushFails: set<string>)
  {
    /** Names whose lookup succeeds and whose remote calls return normally. */
    function Live(bound: set<string>): (live: set<string>)
      ensures live <= bound && live !! crashed
    {
      bound - crashed
    }

    /** Names to which a pushFullState call returns normally. */
    function Deliverable(bound: set<string>): (ok: set<string>)
      ensures ok <= Live(bound) && ok !! pushFails
    {
      Live(bound) - pushFails
    }
  }

  predicate NoDup(s: seq<string>) {
    forall i, j :: 0 <= i < j < |s| ==> s[i] != s[j]
  }

  /** The elements of `s` that are in `keep`, in their order in `s`. */
  function Keep(s: seq<string>, keep: set<string>): (r: seq<string>)
    ensures |r| <= |s|
    ensures forall x :: x in r <==> x in s && x in keep
    ensures NoDup(s) ==> NoDup(r)
  {
    if s == [] then []
    else
      var r' := Keep(s[..|s| - 1], keep);
      var x := s[|s| - 1];
      assert forall y :: y in s <==> y in s[..|s| - 1] || y == x;
      if x in keep then r' + [x] else r'
  }

  /** Java's List.remove(Object): drop the first element equal to `x`. */
  function RemoveFirst(s: seq<string>, x: string): (r: seq<string>)
    ensures x in s ==> |r| == |s| - 1 && multiset(r) == multiset(s) - multiset{x}
    ensures x !in s ==> r == s
    ensures |s| > 0 && s[0] == x ==> r == s[1..]
  {
    if s == [] then []
    else if s[0] == x then
      assert s == [s[0]] + s[1..];
      assert multiset(s) == multiset{x} + multiset(s[1..]);
      s[1..]
    else
      var rest := RemoveFirst(s[1..], x);
      assert s == [s[0]] + s[1..];
      assert multiset(s) == multiset{s[0]} + multiset(s[1..]);
      assert multiset([s[0]] + rest) == multiset{s[0]} + multiset(rest);
      assert x in s ==> x in s[1..];
      [s[0]] + rest
  }
}
