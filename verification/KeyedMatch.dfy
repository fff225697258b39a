/** Keyed matching (core/src/match.c:171-228). A row's key is the sequence of its normalised key
  * values; its hash is the key digest, of which only one thing is used: equal keys hash equal. */
module KeyedMatch {
  import opened Bytes
  import opened Pairing
  import opened Probing

  ghost predicate Respects<K>(ka: seq<K>, ha: seq<nat>, kb: seq<K>, hb: seq<nat>) {
    |ka| == |ha| && |kb| == |hb| && forall i, j :: 0 <= i < |ka| && 0 <= j < |kb| && ka[i] == kb[j] ==> ha[i] == hb[j]
  }

  ghost predicate Distinct<K>(keys: seq<K>) {
    forall i, j :: 0 <= i < j < |keys| ==> keys[i] != keys[j]
  }

  /** No row among the first d slots of the path has this hash and key. */
  ghost predicate NotOnPath<K>(slots: seq<nat>, keys: seq<K>, hashes: seq<nat>, home: nat, d: nat, h: nat, key: K)
    requires home < |slots| && d <= |slots| && |keys| == |hashes|
  {
    forall k :: 0 <= k < d ==>
      var x := slots[Step(home, k, |slots|)];
      0 < x <= |keys| && !(hashes[x - 1] == h && keys[x - 1] == key)
  }

  /** A path that ends in an empty slot without showing the key proves the key is absent. */
  lemma NotOnPathIsAbsent<K>(slots: seq<nat>, pos: seq<nat>, keys: seq<K>, hashes: seq<nat>, d: nat, h: nat, key: K)
    requires Table(slots, pos, hashes) && |keys| == |hashes| && d < |slots|
    requires NotOnPath(slots, keys, hashes, Home(h, |slots|), d, h, key)
    requires slots[Step(Home(h, |slots|), d, |slots|)] == 0
    ensures forall r :: 0 <= r < |pos| && hashes[r] == h ==> keys[r] != key
  {
    hide Home;
    var home := Home(h, |slots|);
    forall r | 0 <= r < |pos| && hashes[r] == h ensures keys[r] != key {
      EmptyEndsPath(slots, pos, hashes, home, d, r);
      var e := Dist(home, pos[r], |slots|);
      assert slots[Step(home, e, |slots|)] == r + 1;
    }
  }

  lemma NotOnPathPush<K>(slots: seq<nat>, keys: seq<K>, hashes: seq<nat>, home: nat, d: nat, h: nat, key: K)
    requires home < |slots| && d < |slots| && |keys| == |hashes| && NotOnPath(slots, keys, hashes, home, d, h, key)
    requires var x := slots[Step(home, d, |slots|)]; 0 < x <= |keys| && !(hashes[x - 1] == h && keys[x - 1] == key)
    ensures NotOnPath(slots, keys, hashes, home, d + 1, h, key)
  {
  }

  /** One probe: the row with this hash and key, or the empty slot that ends the path. */
  method Probe<K(==)>(slots: array<nat>, ghost pos: seq<nat>, keys: seq<K>, hashes: seq<nat>, h: nat, key: K)
    returns (row: Option<nat>, idx: nat, ghost d: nat)
    requires Table(slots[..], pos, hashes) && |keys| == |hashes| && |pos| < slots.Length
    ensures d < slots.Length && idx == Step(Home(h, slots.Length), d, slots.Length)
    ensures row.Some? ==> row.value < |pos| && hashes[row.value] == h && keys[row.value] == key
    ensures row.None? ==> slots[idx] == 0 && NotOnPath(slots[..], keys, hashes, Home(h, slots.Length), d, h, key)
  {
    hide Home, Table, NotOnPath;
    ghost var s: seq<nat> := slots[..];
    ghost var cap := slots.Length;
    ghost var home := Home(h, cap);
    ghost var e := SomeEmpty(s, pos, hashes);
    idx, d := Home(h, slots.Length), 0;
    NothingOnPath(s, keys, hashes, home, h, key);
    while true
      invariant d < cap && idx == Step(home, d, cap) && d <= Dist(home, e, cap)
      invariant NotOnPath(s, keys, hashes, home, d, h, key)
      decreases cap - d
    {
      var cur := slots[idx];
      if cur == 0 { return None, idx, d; }
      SlotInTable(s, pos, hashes, idx);
      if hashes[cur - 1] == h && keys[cur - 1] == key { return Some(cur - 1), idx, d; }
      NotOnPathPush(s, keys, hashes, home, d, h, key);
      idx := if idx + 1 == slots.Length then 0 else idx + 1;
      d := d + 1;
    }
  }

  lemma NothingOnPath<K>(slots: seq<nat>, keys: seq<K>, hashes: seq<nat>, home: nat, h: nat, key: K)
    requires home < |slots| && |keys| == |hashes|
    ensures NotOnPath(slots, keys, hashes, home, 0, h, key)
  {
  }

  lemma SlotInTable(slots: seq<nat>, pos: seq<nat>, hashes: seq<nat>, j: nat)
    requires Table(slots, pos, hashes) && j < |slots| && slots[j] != 0
    ensures slots[j] <= |pos| <= |hashes|
  {
  }

  lemma PathIsFull<K>(slots: seq<nat>, keys: seq<K>, hashes: seq<nat>, home: nat, d: nat, h: nat, key: K)
    requires home < |slots| && d <= |slots| && |keys| == |hashes| && NotOnPath(slots, keys, hashes, home, d, h, key)
    ensures FullTo(slots, home, d)
  {
  }

  /** `key_map_build`: indexes every row by its key, or finds the first row whose key was seen. */
  method BuildKeyMap<K(==)>(keys: seq<K>, hashes: seq<nat>) returns (dup: Option<(nat, nat)>, slots: array<nat>,
      ghost pos: seq<nat>)
    requires |keys| < MAX_ROWS && Respects(keys, hashes, keys, hashes)
    ensures fresh(slots)
    ensures dup.None? ==> Table(slots[..], pos, hashes) && |pos| == |keys| < slots.Length && Distinct(keys)
    ensures dup.Some? ==> dup.value.0 < dup.value.1 < |keys| && keys[dup.value.0] == keys[dup.value.1]
                          && Distinct(keys[..dup.value.1])
  {
    hide Home, Table, NotOnPath;
    var cap, _ := PowerAtLeast(2 * |keys| + 1);
    slots := new nat[cap](_ => 0);
    pos := [];
    EmptyTable(slots[..], hashes);
    var i: nat := 0;
    while i < |keys|
      invariant i <= |keys| && |pos| == i && slots.Length == cap && fresh(slots)
      invariant Table(slots[..], pos, hashes) && Distinct(keys[..i])
    {
      var row, idx, d := Probe(slots, pos, keys, hashes, hashes[i], keys[i]);
      if row.Some? { return Some((row.value, i)), slots, pos; }
      ghost var s: seq<nat> := slots[..];
      NotOnPathIsAbsent(s, pos, keys, hashes, d, hashes[i], keys[i]);
      PathIsFull(s, keys, hashes, Home(hashes[i], cap), d, hashes[i], keys[i]);
      InsertKeepsTable(s, pos, hashes, d);
      slots[idx] := i + 1;
      assert slots[..] == s[idx := i + 1];
      pos := pos + [idx];
      DistinctPush(keys, i);
      i := i + 1;
    }
    assert keys[..i] == keys;
    dup := None;
  }

  lemma DistinctPush<K>(keys: seq<K>, i: nat)
    requires i < |keys| && Distinct(keys[..i]) && forall r :: 0 <= r < i ==> keys[r] != keys[i]
    ensures Distinct(keys[..i + 1])
  {
    assert forall r :: 0 <= r < i ==> keys[..i + 1][r] == keys[..i][r];
  }

  // ------------------------------------------------------------------------ matching

  datatype Outcome = Matched | DuplicateKey(inSource: bool, first: nat, second: nat)

  /** The pairs among the first n target rows are exactly the equal keys. */
  ghost predicate PairsKeys<K>(t2s: seq<nat>, sKeys: seq<K>, tKeys: seq<K>, n: nat)
    requires n <= |t2s| == |tKeys|
  {
    forall t :: 0 <= t < n ==>
      if t2s[t] == NO_ROW then forall s :: 0 <= s < |sKeys| ==> sKeys[s] != tKeys[t]
      else t2s[t] < |sKeys| && sKeys[t2s[t]] == tKeys[t]
  }

  /** The target walk of `match_keyed`, over distinct keys on both sides. */
  method WalkTarget<K(==)>(slots: array<nat>, ghost pos: seq<nat>, sKeys: seq<K>, sHash: seq<nat>,
                           tKeys: seq<K>, tHash: seq<nat>, t2s: array<nat>, s2t: array<nat>)
    requires Table(slots[..], pos, sHash) && |pos| == |sKeys| < slots.Length
    requires |sKeys| < MAX_ROWS && |tKeys| < MAX_ROWS && Distinct(sKeys) && Distinct(tKeys)
    requires Respects(sKeys, sHash, tKeys, tHash)
    requires t2s.Length == |tKeys| && s2t.Length == |sKeys| && t2s != s2t && slots != t2s && slots != s2t
    requires Unmatched(t2s[..], 0) && Unmatched(s2t[..], 0)
    modifies t2s, s2t
    ensures PairsKeys(t2s[..], sKeys, tKeys, |tKeys|) && Inverse(t2s[..], s2t[..])
  {
    hide Home, Table, NotOnPath;
    var ti: nat := 0;
    while ti < |tKeys|
      invariant ti <= |tKeys|
      invariant PairsKeys(t2s[..], sKeys, tKeys, ti) && Inverse(t2s[..], s2t[..]) && Unmatched(t2s[..], ti)
    {
      var row, idx, d := Probe(slots, pos, sKeys, sHash, tHash[ti], tKeys[ti]);
      if row.None? {
        NotOnPathIsAbsent(slots[..], pos, sKeys, sHash, d, tHash[ti], tKeys[ti]);
      } else {
        FreshPair(t2s[..], s2t[..], sKeys, tKeys, ti, row.value);
        t2s[ti] := row.value;
        s2t[row.value] := ti;
      }
      ti := ti + 1;
    }
  }

  /** A source row found for a new target row was not paired before. */
  lemma FreshPair<K>(t2s: seq<nat>, s2t: seq<nat>, sKeys: seq<K>, tKeys: seq<K>, ti: nat, s: nat)
    requires ti < |tKeys| == |t2s| && s < |sKeys| == |s2t| && sKeys[s] == tKeys[ti] && Distinct(tKeys)
    requires PairsKeys(t2s, sKeys, tKeys, ti) && Inverse(t2s, s2t) && Unmatched(t2s, ti) && |sKeys| < MAX_ROWS
    ensures s2t[s] == NO_ROW && forall t :: 0 <= t < |t2s| ==> t2s[t] != s
  {
  }

  /** `match_keyed`: fails exactly when one side holds a key twice; otherwise rows are paired
    * exactly when their keys are equal. Hash collisions cost probes and change nothing. */
  method MatchKeyed<K(==)>(sKeys: seq<K>, sHash: seq<nat>, tKeys: seq<K>, tHash: seq<nat>, t2s: array<nat>,
      s2t: array<nat>)
    returns (outcome: Outcome)
    requires |sKeys| < MAX_ROWS && |tKeys| < MAX_ROWS
    requires Respects(sKeys, sHash, sKeys, sHash) && Respects(tKeys, tHash, tKeys, tHash)
    requires Respects(sKeys, sHash, tKeys, tHash)
    requires t2s.Length == |tKeys| && s2t.Length == |sKeys| && t2s != s2t
    requires Unmatched(t2s[..], 0) && Unmatched(s2t[..], 0)
    modifies t2s, s2t
    ensures outcome == Matched <==> Distinct(sKeys) && Distinct(tKeys)
    ensures outcome == Matched ==> PairsKeys(t2s[..], sKeys, tKeys, |tKeys|) && Inverse(t2s[..], s2t[..])
    ensures outcome.DuplicateKey? ==>
      var keys := if outcome.inSource then sKeys else tKeys;
      outcome.first < outcome.second < |keys| && keys[outcome.first] == keys[outcome.second]
  {
    hide Table;
    var dup, slots, pos := BuildKeyMap(sKeys, sHash);
    if dup.Some? { return DuplicateKey(true, dup.value.0, dup.value.1); }
    var tdup, tslots, tpos := BuildKeyMap(tKeys, tHash);
    if tdup.Some? { return DuplicateKey(false, tdup.value.0, tdup.value.1); }
    WalkTarget(slots, pos, sKeys, sHash, tKeys, tHash, t2s, s2t);
    outcome := Matched;
  }

  /** Read as a relation: source row s and target row t are paired if and only if their keys are
    * equal, and t2s and s2t say the same. */
  lemma PairedIffEqualKeys<K>(t2s: seq<nat>, s2t: seq<nat>, sKeys: seq<K>, tKeys: seq<K>, s: nat, t: nat)
    requires |t2s| == |tKeys| < MAX_ROWS && |s2t| == |sKeys| < MAX_ROWS && Distinct(sKeys) && Distinct(tKeys)
    requires PairsKeys(t2s, sKeys, tKeys, |tKeys|) && Inverse(t2s, s2t) && s < |sKeys| && t < |tKeys|
    ensures t2s[t] == s <==> sKeys[s] == tKeys[t]
    ensures t2s[t] == s <==> s2t[s] == t
  {
    assert t2s[t] != NO_ROW ==> sKeys[t2s[t]] == tKeys[t];
  }
}
