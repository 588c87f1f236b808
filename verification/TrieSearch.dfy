/** `triev2_find_max` and `triev2_find_at_most`: the greatest key of a trie, and the greatest one
    that is not above a given key. */
module TrieSearch {

  import opened Wrappers
  import opened TrieKeys
  import opened TrieTables
  import opened Trie
  import opened TrieInsert

  // ---------- the order of keys ----------

  /** From place `at` on, `q` is not above `k`: digit by digit, the first that differs decides. */
  predicate Leq(q: Key, k: Key, at: nat)
    requires at <= |k| == |q|
    decreases |k| - at
  {
    at == |k| || q[at] < k[at] || (q[at] == k[at] && Leq(q, k, at + 1))
  }

  function Power4(n: nat): nat {
    if n == 0 then 1 else 4 * Power4(n - 1)
  }

  /** The digits from place `at` on as a number. */
  function Value(k: Key, at: nat): nat
    requires at <= |k|
    decreases |k| - at
  {
    if at == |k| then 0 else k[at] * Power4(|k| - at - 1) + Value(k, at + 1)
  }

  lemma {:induction false} ValueBound(k: Key, at: nat)
    requires at <= |k|
    ensures Value(k, at) < Power4(|k| - at)
    decreases |k| - at
  {
    if at < |k| {
      ValueBound(k, at + 1);
      var w := Power4(|k| - at - 1);
      assert k[at] * w <= 3 * w;
    }
  }

  /** Comparing digit by digit is comparing numbers. */
  lemma {:induction false} LeqIsNumeric(q: Key, k: Key, at: nat)
    requires at <= |k| == |q|
    ensures Leq(q, k, at) <==> Value(q, at) <= Value(k, at)
    decreases |k| - at
  {
    if at < |k| {
      LeqIsNumeric(q, k, at + 1);
      ValueBound(q, at + 1);
      ValueBound(k, at + 1);
      FirstDigitDecides(q[at], k[at], Power4(|k| - at - 1), Value(q, at + 1), Value(k, at + 1));
    }
  }

  lemma FirstDigitDecides(a: nat, b: nat, w: nat, x: nat, y: nat)
    requires x < w && y < w
    ensures a * w + x <= b * w + y <==> a < b || (a == b && x <= y)
  {
    if a < b {
      assert (a + 1) * w <= b * w;
    } else if a > b {
      assert (b + 1) * w <= a * w;
    }
  }

  /** Keys that agree from `at` up to `to` compare as they do from `to` on. */
  lemma {:induction false} LeqBehind(q: Key, k: Key, at: nat, to: nat)
    requires at <= to <= |k| == |q|
    requires forall i :: at <= i < to ==> q[i] == k[i]
    ensures Leq(q, k, at) <==> Leq(q, k, to)
    decreases |k| - at
  {
    if at < to {
      LeqBehind(q, k, at + 1, to);
    }
  }

  lemma AgreeingKeys(prefix: Key, q: Key, k: Key, at: nat)
    requires at + |prefix| <= |k| == |q| && Agrees(prefix, q, at) && Agrees(prefix, k, at)
    ensures Leq(q, k, at) <==> Leq(q, k, at + |prefix|)
  {
    forall i | at <= i < at + |prefix| ensures q[i] == k[i] {
      assert prefix[i - at] == q[i] && prefix[i - at] == k[i];
    }
    LeqBehind(q, k, at, at + |prefix|);
  }

  // ---------- the greatest key ----------

  datatype Entry<D> = Entry(key: Key, data: D)

  /** The digit of the last son, and the last son. */
  function LastDigit(ct: nat): (d: Digit)
    requires ct < 15
    ensures Has(ct, d) && forall c: Digit :: Has(ct, c) ==> c <= d
  {
    LastIsGreatest(ct);
    DEOFFSET[ct][GREATEST_NON_NULL[ct][4] - 1]
  }

  /** The greatest key of the trie, behind the digits of `front`, and its datum. */
  function Greatest<D>(t: Trie<D>, front: Key, n: nat): Entry<D>
    requires WellFormed(t, n)
    decreases n
  {
    if n == 0 then Entry(front, t.value)
    else
      var d := LastDigit(t.ct);
      SonValid(t, n, d);
      Greatest(Son(t, d), front + t.prefix + [d], n - |t.prefix| - 1)
  }

  lemma {:induction false} GreatestIsThere<D>(t: Trie<D>, front: Key, n: nat)
    requires WellFormed(t, n)
    ensures var e := Greatest(t, front, n);
            |e.key| == |front| + n && e.key[..|front|] == front && Lookup(t, e.key, |front|) == Some(e.data)
    decreases n
  {
    hide Son, OFFSET, Has, LastDigit;
    if n > 0 {
      var d := LastDigit(t.ct);
      SonValid(t, n, d);
      var further := front + t.prefix + [d];
      GreatestIsThere(Son(t, d), further, n - |t.prefix| - 1);
      var k := Greatest(t, front, n).key;
      assert k[..|further|] == further;
      assert k[..|front|] == further[..|front|];
      FrontAgrees(front, t.prefix, d, k);
      LookupAt(t, k, |front|);
    }
  }

  lemma FrontAgrees(front: Key, prefix: Key, d: Digit, k: Key)
    requires |k| > |front| + |prefix| && k[..|front| + |prefix| + 1] == front + prefix + [d]
    ensures Agrees(prefix, k, |front|) && k[|front| + |prefix|] == d && k[..|front|] == front
  {
    var further := front + prefix + [d];
    assert forall i :: 0 <= i < |further| ==> k[i] == further[i];
  }

  lemma {:induction false} GreatestIsGreatest<D>(t: Trie<D>, front: Key, n: nat, q: Key)
    requires WellFormed(t, n) && |q| == |front| + n && Lookup(t, q, |front|).Some?
    requires |Greatest(t, front, n).key| == |front| + n
    ensures Leq(q, Greatest(t, front, n).key, |front|)
    decreases n
  {
    hide Son, OFFSET, Has, LastDigit, Lookup, Agrees;
    if n > 0 {
      var d := LastDigit(t.ct);
      var next := |front| + |t.prefix|;
      SonValid(t, n, d);
      SonValid(t, n, q[next]);
      LookupAt(t, q, |front|);
      NullLookup<D>(q, next + 1);
      var further := front + t.prefix + [d];
      GreatestIsThere(Son(t, d), further, n - |t.prefix| - 1);
      var k := Greatest(t, front, n).key;
      FrontAgrees(front, t.prefix, d, k);
      AgreeingKeys(t.prefix, q, k, |front|);
      if q[next] == d {
        GreatestIsGreatest(Son(t, d), further, n - |t.prefix| - 1, q);
      }
    }
  }

  // ---------- the greatest key not above another ----------

  /** The greatest key below a node by a digit smaller than that of `key` at `next`. */
  function Smaller<D>(t: Trie<D>, key: Key, at: nat): Option<Entry<D>>
    requires at < |key| && WellFormed(t, |key| - at) && at + |t.prefix| < |key|
  {
    var next := at + |t.prefix|;
    var i := GREATEST_NON_NULL[t.ct][key[next]];
    if i == 0 then None
    else
      var c := SmallerDigit(t.ct, key[next]);
      SonValid(t, |key| - at, c);
      Some(Greatest(Son(t, c), key[..next] + [c], |key| - next - 1))
  }

  /** The greatest digit below `b` that the shape has a son for. */
  function SmallerDigit(ct: nat, b: Digit): (c: Digit)
    requires ct < 15 && GREATEST_NON_NULL[ct][b] != 0
    ensures c < b && Has(ct, c) && OFFSET[ct][c] == GREATEST_NON_NULL[ct][b]
    ensures forall a: Digit :: Has(ct, a) && a < b ==> a <= c
  {
    SmallerSlot(ct, b);
    DEOFFSET[ct][GREATEST_NON_NULL[ct][b] - 1]
  }

  /** `triev2_find_at_most` by recursion. */
  function AtMost<D>(t: Trie<D>, key: Key, at: nat): Option<Entry<D>>
    requires at <= |key| && WellFormed(t, |key| - at)
    decreases |key| - at
  {
    if at == |key| then Some(Entry(key, t.value))
    else if !Agrees(t.prefix, key, at) then
      var j := Parting(t.prefix, key, at, 0);
      if t.prefix[j] < key[at + j] then Some(Greatest(t, key[..at], |key| - at)) else None
    else
      var next := at + |t.prefix|;
      SonValid(t, |key| - at, key[next]);
      var son := Son(t, key[next]);
      var r := if son.Null? then None else AtMost(son, key, next + 1);
      if r.Some? then r else Smaller(t, key, at)
  }

  lemma SmallerIsBelow<D>(t: Trie<D>, key: Key, at: nat)
    requires at < |key| && WellFormed(t, |key| - at) && Agrees(t.prefix, key, at)
    ensures var r := Smaller(t, key, at);
            r.Some? ==>
              && |r.value.key| == |key| && r.value.key[..at] == key[..at]
              && Lookup(t, r.value.key, at) == Some(r.value.data) && Leq(r.value.key, key, at)
  {
    hide Son, OFFSET, Has, Lookup, Greatest, SmallerDigit;
    var r := Smaller(t, key, at);
    var next := at + |t.prefix|;
    if r.Some? {
      var c := SmallerDigit(t.ct, key[next]);
      SonValid(t, |key| - at, c);
      GreatestIsThere(Son(t, c), key[..next] + [c], |key| - next - 1);
      var k := r.value.key;
      SameFront(t.prefix, key, k, at, c);
      LookupAt(t, k, at);
      AgreeingKeys(t.prefix, k, key, at);
    }
  }

  lemma SameFront(prefix: Key, key: Key, k: Key, at: nat, c: Digit)
    requires at + |prefix| < |key| == |k| && Agrees(prefix, key, at)
    requires k[..at + |prefix| + 1] == key[..at + |prefix|] + [c]
    ensures k[..at] == key[..at] && Agrees(prefix, k, at) && k[at + |prefix|] == c
  {
    var front := key[..at + |prefix|] + [c];
    assert forall i :: 0 <= i < |front| ==> k[i] == front[i];
  }

  /** Of the keys by a smaller digit it is the greatest. */
  lemma SmallerIsGreatest<D>(t: Trie<D>, key: Key, at: nat, q: Key)
    requires at < |key| == |q| && WellFormed(t, |key| - at) && Agrees(t.prefix, key, at)
    requires Lookup(t, q, at).Some? && q[at + |t.prefix|] < key[at + |t.prefix|]
    ensures var r := Smaller(t, key, at); r.Some? && |r.value.key| == |key| && Leq(q, r.value.key, at)
  {
    hide Son, OFFSET, Lookup, Greatest, SmallerDigit, GREATEST_NON_NULL;
    var next := at + |t.prefix|;
    SonValid(t, |key| - at, q[next]);
    LookupAt(t, q, at);
    NullLookup<D>(q, next + 1);
    HasSmaller(t.ct, q[next], key[next]);
    SmallerIsBelow(t, key, at);
    var c := SmallerDigit(t.ct, key[next]);
    SonValid(t, |key| - at, c);
    GreatestIsThere(Son(t, c), key[..next] + [c], |key| - next - 1);
    var k := Smaller(t, key, at).value.key;
    SameFront(t.prefix, key, k, at, c);
    AgreeingKeys(t.prefix, q, k, at);
    if q[next] == c {
      GreatestIsGreatest(Son(t, c), key[..next] + [c], |key| - next - 1, q);
    }
  }

  /** What is found is in the trie and not above the key. */
  lemma {:induction false} AtMostIsBelow<D>(t: Trie<D>, key: Key, at: nat)
    requires at <= |key| && WellFormed(t, |key| - at)
    ensures var r := AtMost(t, key, at);
            r.Some? ==>
              && |r.value.key| == |key| && r.value.key[..at] == key[..at]
              && Lookup(t, r.value.key, at) == Some(r.value.data) && Leq(r.value.key, key, at)
    decreases |key| - at
  {
    hide Son, OFFSET, Smaller, Greatest, Lookup, Parting;
    if at == |key| {
      LookupAtEnd(t, key);
    } else if !Agrees(t.prefix, key, at) {
      var j := Parting(t.prefix, key, at, 0);
      if t.prefix[j] < key[at + j] {
        var k := Greatest(t, key[..at], |key| - at).key;
        GreatestIsThere(t, key[..at], |key| - at);
        LookupAt(t, k, at);
        PartedKeys(t.prefix, k, key, at, j);
      }
    } else {
      var next := at + |t.prefix|;
      SonValid(t, |key| - at, key[next]);
      var son := Son(t, key[next]);
      SmallerIsBelow(t, key, at);
      if !son.Null? && AtMost(son, key, next + 1).Some? {
        AtMostIsBelow(son, key, next + 1);
        var k := AtMost(son, key, next + 1).value.key;
        SameFront(t.prefix, key, k, at, key[next]);
        LookupAt(t, k, at);
        AgreeingKeys(t.prefix, k, key, at);
      }
    }
  }

  /** A key that has the prefix compares as the prefix does. */
  lemma PartedKeys(prefix: Key, q: Key, key: Key, at: nat, j: nat)
    requires at + |prefix| <= |key| == |q| && j < |prefix| && Agrees(prefix, q, at)
    requires prefix[j] != key[at + j] && forall i :: 0 <= i < j ==> prefix[i] == key[at + i]
    ensures Leq(q, key, at) <==> prefix[j] < key[at + j]
  {
    forall i | at <= i < at + j ensures q[i] == key[i] {
      assert prefix[i - at] == q[i];
    }
    LeqBehind(q, key, at, at + j);
  }

  /** The cases of the search, one step deep. */
  lemma AtMostCases<D>(t: Trie<D>, key: Key, at: nat)
    requires at < |key| && WellFormed(t, |key| - at)
    ensures !Agrees(t.prefix, key, at) ==>
              var j := Parting(t.prefix, key, at, 0);
              AtMost(t, key, at) == if t.prefix[j] < key[at + j] then Some(Greatest(t, key[..at], |key| - at)) else None
    ensures Agrees(t.prefix, key, at) ==>
              var next := at + |t.prefix|;
              var son := Son(t, key[next]);
              && Valid(son, |key| - next - 1)
              && AtMost(t, key, at) ==
                 if son.Null? || AtMost(son, key, next + 1).None? then Smaller(t, key, at) else AtMost(son, key, next + 1)
  {
    hide OFFSET, Smaller, Greatest, Parting, Agrees;
    SonValid(t, |key| - at, key[at + |t.prefix|]);
  }

  /** No key in the trie that is not above the given one is above what is found. */
  lemma {:induction false} AtMostIsGreatest<D>(t: Trie<D>, key: Key, at: nat, q: Key)
    requires at <= |key| == |q| && WellFormed(t, |key| - at)
    requires Lookup(t, q, at).Some? && Leq(q, key, at)
    ensures var r := AtMost(t, key, at); r.Some? && |r.value.key| == |key| && Leq(q, r.value.key, at)
    decreases |key| - at
  {
    hide Son, OFFSET, Smaller, Greatest, Lookup, Parting, AtMost;
    AtMostIsBelow(t, key, at);
    if at == |key| {
      AtMostAtEnd(t, key);
      return;
    }
    AtMostCases(t, key, at);
    LookupAt(t, q, at);
    if !Agrees(t.prefix, key, at) {
      var j := Parting(t.prefix, key, at, 0);
      PartedKeys(t.prefix, q, key, at, j);
      GreatestIsGreatest(t, key[..at], |key| - at, q);
      return;
    }
    var next := at + |t.prefix|;
    var son := Son(t, key[next]);
    AgreeingKeys(t.prefix, q, key, at);
    if q[next] < key[next] {
      SmallerIsGreatest(t, key, at, q);
    } else {
      NullLookup<D>(q, next + 1);
      AtMostIsGreatest(son, key, next + 1, q);
    }
    if !son.Null? && AtMost(son, key, next + 1).Some? {
      AtMostIsBelow(son, key, next + 1);
      var k := AtMost(son, key, next + 1).value.key;
      SameFront(t.prefix, key, k, at, key[next]);
      AgreeingKeys(t.prefix, q, k, at);
    }
  }

  lemma AtMostAtEnd<D>(t: Trie<D>, key: Key)
    requires WellFormed(t, 0)
    ensures AtMost(t, key, |key|) == Some(Entry(key, t.value))
  {
  }

  /** The search finds the greatest stored key whose number is not above that of the query,
      and nothing exactly when there is none. */
  lemma FindsGreatestAtMost<D>(root: Trie<D>, key: Key, q: Key)
    requires WellFormed(root, |key|) && |q| == |key|
    ensures var r := AtMost(root, key, 0);
            && (r.Some? ==>
                  var k := r.value.key;
                  && |k| == |key| && Lookup(root, k, 0) == Some(r.value.data) && Value(k, 0) <= Value(key, 0)
                  && (Lookup(root, q, 0).Some? && Value(q, 0) <= Value(key, 0) ==> Value(q, 0) <= Value(k, 0)))
            && (r.None? && Lookup(root, q, 0).Some? ==> Value(q, 0) > Value(key, 0))
  {
    hide AtMost, Lookup, Value, WellFormed;
    AtMostIsBelow(root, key, 0);
    LeqIsNumeric(q, key, 0);
    if Lookup(root, q, 0).Some? && Leq(q, key, 0) {
      AtMostIsGreatest(root, key, 0, q);
    }
    if AtMost(root, key, 0).Some? {
      var k := AtMost(root, key, 0).value.key;
      LeqIsNumeric(k, key, 0);
      LeqIsNumeric(q, k, 0);
    }
  }
}
