/** Sequences of sequences laid end to end. */
module Sequences {
  ghost function Flat<T>(chains: seq<seq<T>>): seq<T> {
    if chains == [] then [] else chains[0] + Flat(chains[1..])
  }

  lemma {:induction false} FlatAppend<T>(a: seq<seq<T>>, b: seq<seq<T>>)
    ensures Flat(a + b) == Flat(a) + Flat(b)
    decreases a
  {
    if a == [] {
      assert a + b == b;
    } else {
      assert (a + b)[1..] == a[1..] + b;
      FlatAppend(a[1..], b);
    }
  }

  /** The nodes before, in and after chain `i`. */
  lemma FlatAt<T>(chains: seq<seq<T>>, i: nat)
    requires i < |chains|
    ensures Flat(chains) == Flat(chains[..i]) + chains[i] + Flat(chains[i + 1..])
  {
    assert chains == chains[..i] + chains[i..] && chains[i..][1..] == chains[i + 1..];
    FlatAppend(chains[..i], chains[i..]);
  }

  /** Replacing one chain. */
  lemma FlatReplace<T>(chains: seq<seq<T>>, i: nat, chain: seq<T>)
    requires i < |chains|
    ensures Flat(chains[i := chain]) == Flat(chains[..i]) + chain + Flat(chains[i + 1..])
  {
    FlatAt(chains[i := chain], i);
    assert chains[i := chain][..i] == chains[..i] && chains[i := chain][i + 1..] == chains[i + 1..];
  }

  lemma {:induction false} FlatMembers<T>(chains: seq<seq<T>>, x: T)
    ensures x in Flat(chains) <==> exists i :: 0 <= i < |chains| && x in chains[i]
    decreases chains
  {
    if chains != [] {
      FlatMembers(chains[1..], x);
      if i :| 0 <= i < |chains| && x in chains[i] {
        assert i > 0 ==> chains[i] == chains[1..][i - 1];
      }
    }
  }

  lemma {:induction false} AllEmpty<T>(chains: seq<seq<T>>)
    requires forall i :: 0 <= i < |chains| ==> chains[i] == []
    ensures Flat(chains) == []
    decreases chains
  {
    if chains != [] {
      AllEmpty(chains[1..]);
    }
  }
}
