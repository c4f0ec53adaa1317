/** The registry naming convention shared by replicas and the front end:
    a replica is bound as "replica" followed by one or more ASCII digits
    (the pattern ^replica\d+$, matched against the whole name). */
module Naming {

  const Prefix: string := "replica"

  /** `\d` in a Java pattern without the Unicode flag is exactly '0'..'9'. */
  predicate IsDigit(c: char) {
    '0' <= c <= '9'
  }

  predicate AllDigits(s: string) {
    forall i :: 0 <= i < |s| ==> IsDigit(s[i])
  }

  /** The name a replica with identifier `id` is bound under. */
  function NameOf(id: string): (name: string)
    ensures |name| == |Prefix| + |id| && name[..|Prefix|] == Prefix && name[|Prefix|..] == id
  {
    Prefix + id
  }

  /** The REPLICA_NAME pattern: a match of the whole name, not a search. */
  predicate IsReplicaName(name: string) {
    |name| > |Prefix| && name[..|Prefix|] == Prefix && AllDigits(name[|Prefix|..])
  }

  /** The pattern accepts exactly the names "replica" + id for a non-empty
      all-digit id. */
  lemma ReplicaNamePattern(name: string)
    ensures IsReplicaName(name) <==> exists id :: name == NameOf(id) && |id| >= 1 && AllDigits(id)
  {
    if IsReplicaName(name) {
      assert name == NameOf(name[|Prefix|..]);
    }
  }

  /** A replica whose identifier is a positive decimal number is bound
      under a name that the pattern accepts; one whose identifier is empty
      or holds any other character is not. */
  lemma NumericIdsMatch(id: string)
    ensures IsReplicaName(NameOf(id)) <==> |id| >= 1 && AllDigits(id)
  {
    assert NameOf(id)[..|Prefix|] == Prefix;
  }
}
