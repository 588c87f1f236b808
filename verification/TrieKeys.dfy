/** The keys of the tries of triev2.c and trie.c, as sequences of base-4 digits, and the prefixes of their nodes. */
module TrieKeys {

  type Digit = d: nat | d < 4

  type Key = seq<Digit>

  const MAX_PREFIX: nat := 10

  /** The key has the digits of `prefix` from place `at` on. */
  predicate Agrees(prefix: Key, key: Key, at: nat)
    requires at + |prefix| <= |key|
  {
    forall i :: 0 <= i < |prefix| ==> prefix[i] == key[at + i]
  }

  /** A prefix matches if its front, its digit at `j` and what is behind it match. */
  lemma AgreesInParts(prefix: Key, q: Key, at: nat, j: nat)
    requires j < |prefix| && at + |prefix| <= |q|
    ensures Agrees(prefix, q, at) <==>
              Agrees(prefix[..j], q, at) && prefix[j] == q[at + j] && Agrees(prefix[j + 1..], q, at + j + 1)
  {
    if Agrees(prefix[..j], q, at) && prefix[j] == q[at + j] && Agrees(prefix[j + 1..], q, at + j + 1) {
      forall i | 0 <= i < |prefix| ensures prefix[i] == q[at + i] {
        if i < j {
          assert prefix[..j][i] == prefix[i];
        } else if i > j {
          assert prefix[j + 1..][i - j - 1] == prefix[i];
        }
      }
    }
  }

  /** The first place, from `from` on, where the prefix and the key part. */
  function Parting(prefix: Key, key: Key, at: nat, from: nat): (j: nat)
    requires at + |prefix| <= |key| && from <= |prefix| && !Agrees(prefix, key, at)
    requires forall i :: 0 <= i < from ==> prefix[i] == key[at + i]
    ensures j < |prefix| && prefix[j] != key[at + j] && forall i :: 0 <= i < j ==> prefix[i] == key[at + i]
    decreases |prefix| - from
  {
    if prefix[from] != key[at + from] then from else Parting(prefix, key, at, from + 1)
  }

  /** The digits that the first node of a new chain takes as its prefix. */
  function ChainPrefix(n: nat): (m: nat)
    requires n > 0
    ensures m < n && m <= MAX_PREFIX
  {
    if n < MAX_PREFIX + 1 then n - 1 else MAX_PREFIX
  }

  /** Two keys of one length have the same digits from place `at` on. */
  predicate SameFrom(q: Key, key: Key, at: nat)
    requires |q| == |key|
  {
    forall i :: at <= i < |key| ==> q[i] == key[i]
  }

  lemma SameFromStart(q: Key, key: Key)
    requires |q| == |key|
    ensures SameFrom(q, key, 0) <==> q == key
  {
  }

  lemma SameFromBehind(q: Key, key: Key, prefix: Key, at: nat)
    requires |q| == |key| && at + |prefix| < |key| && Agrees(prefix, key, at)
    ensures SameFrom(q, key, at) <==>
              Agrees(prefix, q, at) && q[at + |prefix|] == key[at + |prefix|] && SameFrom(q, key, at + |prefix| + 1)
  {
    if Agrees(prefix, q, at) && q[at + |prefix|] == key[at + |prefix|] && SameFrom(q, key, at + |prefix| + 1) {
      forall i | at <= i < |key| ensures q[i] == key[i] {
        if i < at + |prefix| {
          assert prefix[i - at] == key[i];
        }
      }
    }
  }
}
