/**
 * Small facts about sequence slices and concatenation, stated once for any
 * element type so that the proofs that use them do not have to rediscover
 * them about rows of rendered cells.
 */
module SeqFacts {

  lemma TakeSnoc<T>(s: seq<T>, i: nat)
    requires i < |s|
    ensures s[..i + 1] == s[..i] + [s[i]]
  {
  }

  lemma TakeTake<T>(s: seq<T>, i: nat, j: nat)
    requires i <= j <= |s|
    ensures s[..j][..i] == s[..i]
  {
  }

  lemma TakeAll<T>(s: seq<T>)
    ensures s[..|s|] == s
  {
  }

  lemma AppendAssoc<T>(a: seq<T>, b: seq<T>, c: seq<T>)
    ensures (a + b) + c == a + (b + c)
  {
  }
}
