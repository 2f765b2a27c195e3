/** Canonical form of one map level: src/map_canonical.c, with first-match lookup from src/map.c. */
module MapCanonical {
  import opened Common
  import opened Objects

  // ----- keys

  /** Byte-wise lexicographic order, a proper prefix being smaller: the meaning of `is_key_less`. */
  ghost predicate Less(a: bytes, b: bytes) {
    exists n: nat :: CommonPrefix(a, b, n) && n < |b| && (n == |a| || a[n] < b[n])
  }

  ghost predicate CommonPrefix(a: bytes, b: bytes, n: nat) {
    n <= |a| && n <= |b| && a[..n] == b[..n]
  }

  method IsKeyLess(lhs: KV, rhs: KV) returns (less: bool)
    ensures less <==> Less(lhs.key.data, rhs.key.data)
  {
    var a, b := lhs.key.data, rhs.key.data;
    var len := if |a| > |b| then |b| else |a|;
    var i := 0;
    while i != len
      invariant 0 <= i <= len
      invariant a[..i] == b[..i]
    {
      if a[i] < b[i] {
        assert CommonPrefix(a, b, i);
        return true;
      }
      if b[i] < a[i] {
        assert CommonPrefix(b, a, i);
        LessAsymmetric(b, a);
        return false;
      }
      i := i + 1;
    }
    assert CommonPrefix(a, b, i);
    if |b| <= |a| {
      forall n: nat | n < |b|
        ensures !(n == |a| || a[n] < b[n])
      {
        assert a[..len][n] == b[..len][n];
      }
    }
    return |a| < |b|;
  }

  lemma LessAsymmetric(a: bytes, b: bytes)
    requires Less(a, b)
    ensures !Less(b, a) && a != b
  {
    var n: nat :| CommonPrefix(a, b, n) && n < |b| && (n == |a| || a[n] < b[n]);
    forall m: nat | CommonPrefix(b, a, m)
      ensures !(m < |a| && (m == |b| || b[m] < a[m]))
    {
      if m < n {
        assert a[..n][m] == b[..n][m];
      }
    }
    if n < |a| { assert a[n] != b[n]; }
  }

  lemma LessTransitive(a: bytes, b: bytes, c: bytes)
    requires Less(a, b) && Less(b, c)
    ensures Less(a, c)
  {
    var n: nat :| CommonPrefix(a, b, n) && n < |b| && (n == |a| || a[n] < b[n]);
    var m: nat :| CommonPrefix(b, c, m) && m < |c| && (m == |b| || b[m] < c[m]);
    var k := if n < m then n else m;
    assert a[..k] == a[..n][..k] && b[..k] == b[..n][..k];
    assert b[..k] == b[..m][..k] && c[..k] == c[..m][..k];
    if n < m {
      assert b[..m][n] == c[..m][n];
    } else if m < n {
      assert a[..n][m] == b[..n][m];
    }
    assert CommonPrefix(a, c, k);
  }

  lemma LessTotal(a: bytes, b: bytes)
    ensures Less(a, b) || a == b || Less(b, a)
  {
    var n := 0;
    while n < |a| && n < |b| && a[n] == b[n]
      invariant n <= |a| && n <= |b|
      invariant a[..n] == b[..n]
    {
      n := n + 1;
    }
    assert CommonPrefix(a, b, n) && CommonPrefix(b, a, n);
    if n == |a| == |b| {
      assert a == a[..n] && b == b[..n];
    }
  }

  // ----- lookup

  /** Index of the first entry with this key, or the length when there is none. */
  function FirstIndex(ps: seq<KV>, key: bytes): (i: nat)
    ensures i <= |ps|
    ensures i < |ps| ==> ps[i].key.data == key
    ensures forall j :: 0 <= j < i ==> ps[j].key.data != key
  {
    if ps == [] then 0
    else if ps[0].key.data == key then 0
    else 1 + FirstIndex(ps[1..], key)
  }

  /** The entry that `gg_map_get` finds. */
  function Lookup(ps: seq<KV>, key: bytes): Option<KV> {
    var i := FirstIndex(ps, key);
    if i < |ps| then Some(ps[i]) else None
  }

  ghost predicate SameLookup(ps: seq<KV>, qs: seq<KV>) {
    forall key :: Lookup(ps, key) == Lookup(qs, key)
  }

  lemma LookupIs(ps: seq<KV>, i: nat)
    requires i < |ps|
    requires forall j :: 0 <= j < i ==> ps[j].key.data != ps[i].key.data
    ensures FirstIndex(ps, ps[i].key.data) == i
    ensures Lookup(ps, ps[i].key.data) == Some(ps[i])
  {}

  // ----- canonical form

  /** Keys strictly increase: no duplicates, and sorted. */
  ghost predicate StrictlySorted(ps: seq<KV>) {
    forall i, j :: 0 <= i < j < |ps| ==> Less(ps[i].key.data, ps[j].key.data)
  }

  ghost predicate DistinctKeys(ps: seq<KV>) {
    forall i, j :: 0 <= i < j < |ps| ==> ps[i].key.data != ps[j].key.data
  }

  lemma SortedDistinct(ps: seq<KV>)
    requires StrictlySorted(ps)
    ensures DistinctKeys(ps)
  {
    forall i, j | 0 <= i < j < |ps|
      ensures ps[i].key.data != ps[j].key.data
    {
      LessAsymmetric(ps[i].key.data, ps[j].key.data);
    }
  }

  /** Insert an entry into a sorted sequence, replacing the entry with its key if there is one. */
  function InsertFirst(p: KV, ps: seq<KV>): seq<KV> {
    if ps == [] then [p]
    else if p.key.data == ps[0].key.data then [p] + ps[1..]
    else if LessB(p.key.data, ps[0].key.data) then [p] + ps
    else [ps[0]] + InsertFirst(p, ps[1..])
  }

  /** Executable form of `Less`. */
  predicate LessB(a: bytes, b: bytes) {
    if b == [] then false
    else if a == [] then true
    else a[0] < b[0] || (a[0] == b[0] && LessB(a[1..], b[1..]))
  }

  lemma {:induction false} LessBIsLess(a: bytes, b: bytes)
    ensures LessB(a, b) <==> Less(a, b)
  {
    if b == [] {
    } else if a == [] {
      assert CommonPrefix(a, b, 0);
    } else if a[0] != b[0] {
      assert CommonPrefix(a, b, 0) && CommonPrefix(b, a, 0);
      assert Less(a, b) || Less(b, a);
      if Less(b, a) { LessAsymmetric(b, a); }
    } else {
      LessBIsLess(a[1..], b[1..]);
      if Less(a[1..], b[1..]) {
        var n: nat :| CommonPrefix(a[1..], b[1..], n) && n < |b[1..]| && (n == |a[1..]| || a[1..][n] < b[1..][n]);
        assert a[..n + 1] == [a[0]] + a[1..][..n];
        assert b[..n + 1] == [b[0]] + b[1..][..n];
        assert CommonPrefix(a, b, n + 1);
      }
      if Less(a, b) {
        var n: nat :| CommonPrefix(a, b, n) && n < |b| && (n == |a| || a[n] < b[n]);
        assert n > 0;
        assert a[1..][..n - 1] == a[..n][1..] && b[1..][..n - 1] == b[..n][1..];
        assert CommonPrefix(a[1..], b[1..], n - 1);
      }
    }
  }

  /** The canonical form: each key once, with its first value, in increasing key order. */
  function Canon(ps: seq<KV>): seq<KV> {
    if ps == [] then [] else InsertFirst(ps[0], Canon(ps[1..]))
  }

  lemma {:induction false} InsertFirstKeeps(p: KV, ps: seq<KV>, key: bytes)
    requires StrictlySorted(ps)
    ensures var r := InsertFirst(p, ps);
      && StrictlySorted(r)
      && |r| <= |ps| + 1
      && (forall q :: q in r ==> q == p || q in ps)
      && Lookup(r, key) == (if key == p.key.data then Some(p) else Lookup(ps, key))
  {
    var r := InsertFirst(p, ps);
    if ps == [] {
      LookupCons(p, ps, key);
    } else {
      var rest := ps[1..];
      assert ps == [ps[0]] + rest;
      LookupCons(ps[0], rest, key);
      LessBIsLess(p.key.data, ps[0].key.data);
      if p.key.data == ps[0].key.data {
        LookupCons(p, rest, key);
        SortedCons(p, rest);
      } else if LessB(p.key.data, ps[0].key.data) {
        LookupCons(p, ps, key);
        SortedConsBefore(p, ps);
      } else {
        LessTotal(p.key.data, ps[0].key.data);
        InsertFirstKeeps(p, rest, key);
        LookupCons(ps[0], InsertFirst(p, rest), key);
        SortedCons(ps[0], InsertFirst(p, rest));
      }
    }
  }

  lemma LookupCons(p: KV, ps: seq<KV>, key: bytes)
    ensures Lookup([p] + ps, key) == if key == p.key.data then Some(p) else Lookup(ps, key)
  {
    assert ([p] + ps)[1..] == ps;
  }

  lemma SortedCons(p: KV, ps: seq<KV>)
    requires StrictlySorted(ps)
    requires forall q :: q in ps ==> Less(p.key.data, q.key.data)
    ensures StrictlySorted([p] + ps)
  {}

  lemma SortedConsBefore(p: KV, ps: seq<KV>)
    requires StrictlySorted(ps) && ps != []
    requires Less(p.key.data, ps[0].key.data)
    ensures StrictlySorted([p] + ps)
  {
    forall j | 0 < j < |ps|
      ensures Less(p.key.data, ps[j].key.data)
    {
      LessTransitive(p.key.data, ps[0].key.data, ps[j].key.data);
    }
  }

  lemma {:induction false} CanonKeeps(ps: seq<KV>)
    ensures StrictlySorted(Canon(ps))
    ensures SameLookup(Canon(ps), ps)
    ensures |Canon(ps)| <= |ps|
    ensures forall q :: q in Canon(ps) ==> q in ps
  {
    if ps == [] {
    } else {
      CanonKeeps(ps[1..]);
      InsertFirstKeeps(ps[0], Canon(ps[1..]), []);
      forall key
        ensures Lookup(Canon(ps), key) == Lookup(ps, key)
      {
        InsertFirstKeeps(ps[0], Canon(ps[1..]), key);
        assert Lookup(Canon(ps[1..]), key) == Lookup(ps[1..], key);
      }
    }
  }

  /** A map has one canonical form: sorted sequences with the same lookups are equal. */
  lemma {:induction false} CanonicalFormUnique(ps: seq<KV>, qs: seq<KV>)
    requires StrictlySorted(ps) && StrictlySorted(qs)
    requires SameLookup(ps, qs)
    ensures ps == qs
  {
    SortedDistinct(ps);
    SortedDistinct(qs);
    if ps == [] {
      if qs != [] {
        LookupIs(qs, 0);
      }
    } else {
      LookupIs(ps, 0);
      var k := ps[0].key.data;
      assert Lookup(qs, k) == Some(ps[0]);
      var i := FirstIndex(qs, k);
      if i != 0 {
        LookupIs(qs, 0);
        var k0 := qs[0].key.data;
        assert Lookup(ps, k0) == Some(qs[0]);
        var j := FirstIndex(ps, k0);
        assert j != 0;
        LessAsymmetric(k, k0);
      }
      assert ps[0] == qs[0];
      forall key
        ensures Lookup(ps[1..], key) == Lookup(qs[1..], key)
      {
        assert Lookup(ps, key) == Lookup(qs, key);
        if key == k {
          assert forall j :: 0 <= j < |ps[1..]| ==> ps[1..][j].key.data != k;
          assert forall j :: 0 <= j < |qs[1..]| ==> qs[1..][j].key.data != k;
        }
      }
      CanonicalFormUnique(ps[1..], qs[1..]);
    }
  }

  /** Maps with equal lookups canonicalize to the same entries. */
  lemma CanonDependsOnLookupOnly(ps: seq<KV>, qs: seq<KV>)
    requires SameLookup(ps, qs)
    ensures Canon(ps) == Canon(qs)
  {
    CanonKeeps(ps);
    CanonKeeps(qs);
    forall key
      ensures Lookup(Canon(ps), key) == Lookup(Canon(qs), key)
    {
      assert Lookup(ps, key) == Lookup(qs, key);
    }
    CanonicalFormUnique(Canon(ps), Canon(qs));
  }

  /** A sequence is its own canonical form exactly when it is strictly sorted; so the operation is idempotent. */
  lemma CanonFixesSorted(ps: seq<KV>)
    ensures Canon(ps) == ps <==> StrictlySorted(ps)
    ensures Canon(Canon(ps)) == Canon(ps)
  {
    CanonKeeps(ps);
    CanonKeeps(Canon(ps));
    if StrictlySorted(ps) {
      CanonicalFormUnique(Canon(ps), ps);
    }
    CanonicalFormUnique(Canon(Canon(ps)), Canon(ps));
  }

  // ----- the in-place algorithms

  /** `gg_map_get`, reporting the index of the entry found instead of a pointer to its value. */
  method MapGet(pairs: array<KV>, len: nat, key: bytes) returns (found: bool, at: nat)
    requires len <= pairs.Length
    ensures at == FirstIndex(pairs[..len], key)
    ensures found <==> at < len
  {
    at := 0;
    while at < len
      invariant at <= len
      invariant forall j :: 0 <= j < at ==> pairs[j].key.data != key
    {
      if key == pairs[at].key.data {
        return true, at;
      }
      at := at + 1;
    }
    found := false;
  }

  const PRUNED: KV := KV(Buffer(0, [60, 112, 114, 117, 110, 101, 100, 62]), Null)

  /** Entries from `i` on are the first with their key. */
  ghost predicate FirstFrom(ps: seq<KV>, i: nat) {
    forall j, k :: 0 <= k < j < |ps| && i <= j ==> ps[k].key.data != ps[j].key.data
  }

  /** Overwriting a repeated entry by the last one, and dropping the last, changes no lookup. */
  lemma PruneStep(ps: seq<KV>, i: nat, key: bytes)
    requires 0 < i <= |ps|
    requires FirstFrom(ps, i)
    requires FirstIndex(ps, ps[i - 1].key.data) != i - 1
    ensures var qs := ps[i - 1 := ps[|ps| - 1]][..|ps| - 1];
      Lookup(qs, key) == Lookup(ps, key) && FirstFrom(qs, i - 1)
  {
    var n := |ps|;
    var qs := ps[i - 1 := ps[n - 1]][..n - 1];
    var a, b := FirstIndex(ps, key), FirstIndex(qs, key);
    assert forall j :: 0 <= j < n - 1 && j != i - 1 ==> qs[j] == ps[j];
    assert i - 1 < n - 1 ==> qs[i - 1] == ps[n - 1];
    var f := FirstIndex(ps, ps[i - 1].key.data);
    assert f < i - 1;
    assert a != i - 1;
    if a == n - 1 {
      assert i - 1 < n - 1;
      assert qs[i - 1].key.data == key;
      assert b == i - 1 by {
        assert forall j :: 0 <= j < i - 1 ==> qs[j] == ps[j];
      }
    } else if a < n {
      assert qs[a].key.data == key;
    }
  }

  lemma PruneKeepsLookup(ps: seq<KV>, i: nat)
    requires 0 < i <= |ps| && FirstFrom(ps, i) && FirstIndex(ps, ps[i - 1].key.data) != i - 1
    ensures var qs := ps[i - 1 := ps[|ps| - 1]][..|ps| - 1]; SameLookup(qs, ps) && FirstFrom(qs, i - 1)
  {
    PruneStep(ps, i, []);
    forall key ensures Lookup(ps[i - 1 := ps[|ps| - 1]][..|ps| - 1], key) == Lookup(ps, key) { PruneStep(ps, i, key); }
  }

  lemma SameLookupTransitive(a: seq<KV>, b: seq<KV>, c: seq<KV>)
    requires SameLookup(a, b) && SameLookup(b, c)
    ensures SameLookup(a, c)
  {
    forall key ensures Lookup(a, key) == Lookup(c, key) { assert Lookup(a, key) == Lookup(b, key) == Lookup(c, key); }
  }

  lemma AllFirst(ps: seq<KV>)
    requires FirstFrom(ps, 0)
    ensures DistinctKeys(ps)
  {}

  lemma NoneYet(ps: seq<KV>)
    ensures FirstFrom(ps, |ps|) && SameLookup(ps, ps)
  {}

  /** `prune_duplicates`: on return the first `len` entries are the first occurrences, in some order. */
  method PruneDuplicates(pairs: array<KV>, oldLen: nat) returns (len: nat)
    requires oldLen <= pairs.Length
    modifies pairs
    ensures len <= oldLen
    ensures DistinctKeys(pairs[..len])
    ensures SameLookup(pairs[..len], old(pairs[..oldLen]))
    ensures pairs[oldLen..] == old(pairs[oldLen..])
  {
    hide FirstFrom, SameLookup, Lookup, FirstIndex, DistinctKeys;
    NoneYet(pairs[..oldLen]);
    len := oldLen;
    var i: nat := len;
    while i > 0
      invariant i <= len <= oldLen
      invariant FirstFrom(pairs[..len], i)
      invariant SameLookup(pairs[..len], old(pairs[..oldLen]))
      invariant pairs[oldLen..] == old(pairs[oldLen..])
      decreases i
    {
      var _, first := MapGet(pairs, len, pairs[i - 1].key.data);
      if first != i - 1 {
        ghost var ps := pairs[..len];
        PruneKeepsLookup(ps, i);
        if i != len {
          pairs[i - 1] := pairs[len - 1];
        }
        pairs[len - 1] := PRUNED;
        len := len - 1;
        assert pairs[..len] == ps[i - 1 := ps[len]][..len];
        SameLookupTransitive(pairs[..len], ps, old(pairs[..oldLen]));
      } else {
        LookupIsFirst(pairs[..len], i - 1);
      }
      i := i - 1;
    }
    AllFirst(pairs[..len]);
  }

  lemma LookupIsFirst(ps: seq<KV>, i: nat)
    requires i < |ps|
    requires FirstIndex(ps, ps[i].key.data) == i
    requires FirstFrom(ps, i + 1)
    ensures FirstFrom(ps, i)
  {}

  /** Entries up to `i` are sorted when position `j`, where an entry is being sifted down, is skipped. */
  ghost predicate SortedButAt(ps: seq<KV>, i: nat, j: nat) {
    i < |ps| && j <= i &&
    (forall a, b :: 0 <= a < b <= i && b != j && a != j ==> Less(ps[a].key.data, ps[b].key.data)) &&
    (forall b :: j < b <= i ==> Less(ps[j].key.data, ps[b].key.data))
  }

  /** Reordering entries with distinct keys changes no lookup. */
  lemma SwapKeepsLookup(ps: seq<KV>, i: nat, key: bytes)
    requires 0 < i < |ps| && DistinctKeys(ps)
    ensures Lookup(ps[i := ps[i - 1]][i - 1 := ps[i]], key) == Lookup(ps, key)
    ensures DistinctKeys(ps[i := ps[i - 1]][i - 1 := ps[i]])
  {
    var qs := ps[i := ps[i - 1]][i - 1 := ps[i]];
    var a, b := FirstIndex(ps, key), FirstIndex(qs, key);
    if a < |ps| {
      var c := if a == i then i - 1 else if a == i - 1 then i else a;
      assert qs[c] == ps[a];
      assert b <= c;
    }
  }

  /** `sort_keys`: insertion sort of entries with distinct keys. */
  method SortKeys(pairs: array<KV>, len: nat)
    requires len <= pairs.Length
    requires DistinctKeys(pairs[..len])
    modifies pairs
    ensures StrictlySorted(pairs[..len])
    ensures SameLookup(pairs[..len], old(pairs[..len]))
    ensures pairs[len..] == old(pairs[len..])
  {
    var i := 0;
    while i < len
      invariant i <= len
      invariant DistinctKeys(pairs[..len])
      invariant StrictlySorted(pairs[..i])
      invariant SameLookup(pairs[..len], old(pairs[..len]))
      invariant pairs[len..] == old(pairs[len..])
    {
      var j: nat := i;
      var sift := false;
      if j > 0 { sift := IsKeyLess(pairs[j], pairs[j - 1]); }
      assert forall a :: 0 <= a < i ==> pairs[..i][a] == pairs[..len][a];
      while j > 0 && sift
        invariant j <= i < len
        invariant DistinctKeys(pairs[..len])
        invariant SortedButAt(pairs[..len], i, j)
        invariant sift <==> j > 0 && Less(pairs[j].key.data, pairs[j - 1].key.data)
        invariant SameLookup(pairs[..len], old(pairs[..len]))
        invariant pairs[len..] == old(pairs[len..])
        decreases j
      {
        ghost var ps := pairs[..len];
        forall key
          ensures Lookup(ps[j := ps[j - 1]][j - 1 := ps[j]], key) == Lookup(ps, key)
        {
          SwapKeepsLookup(ps, j, key);
        }
        SwapKeepsLookup(ps, j, []);
        SiftStep(ps, i, j);
        pairs[j], pairs[j - 1] := pairs[j - 1], pairs[j];
        assert pairs[..len] == ps[j := ps[j - 1]][j - 1 := ps[j]];
        j := j - 1;
        sift := false;
        if j > 0 { sift := IsKeyLess(pairs[j], pairs[j - 1]); }
      }
      SiftDone(pairs[..len], i, j);
      assert pairs[..len][..i + 1] == pairs[..i + 1];
      i := i + 1;
    }
  }

  lemma SiftStep(ps: seq<KV>, i: nat, j: nat)
    requires 0 < j && SortedButAt(ps, i, j)
    requires Less(ps[j].key.data, ps[j - 1].key.data)
    ensures SortedButAt(ps[j := ps[j - 1]][j - 1 := ps[j]], i, j - 1)
  {
    var qs := ps[j := ps[j - 1]][j - 1 := ps[j]];
    forall a, b | 0 <= a < b <= i && b != j - 1 && a != j - 1
      ensures Less(qs[a].key.data, qs[b].key.data)
    {
      var a' := if a == j then j - 1 else a;
      var b' := if b == j then j - 1 else b;
      assert qs[a] == ps[a'] && qs[b] == ps[b'];
    }
  }

  lemma SiftDone(ps: seq<KV>, i: nat, j: nat)
    requires SortedButAt(ps, i, j) && DistinctKeys(ps)
    requires j > 0 ==> !Less(ps[j].key.data, ps[j - 1].key.data)
    ensures StrictlySorted(ps[..i + 1])
  {
    forall a, b | 0 <= a < b < i + 1
      ensures Less(ps[a].key.data, ps[b].key.data)
    {
      if b == j {
        LessTotal(ps[j - 1].key.data, ps[j].key.data);
        if a < j - 1 { LessTransitive(ps[a].key.data, ps[j - 1].key.data, ps[j].key.data); }
      }
    }
  }

  /** `gg_map_canonicalize_shallow`: leaves exactly the canonical form of the entries it was given. */
  method CanonicalizeShallow(pairs: array<KV>, oldLen: nat) returns (len: nat)
    requires oldLen <= pairs.Length
    modifies pairs
    ensures len <= oldLen
    ensures pairs[..len] == Canon(old(pairs[..oldLen]))
    ensures pairs[oldLen..] == old(pairs[oldLen..])
  {
    len := PruneDuplicates(pairs, oldLen);
    label sorting:
    SortKeys(pairs, len);
    assert pairs[oldLen..] == pairs[len..][oldLen - len..];
    assert old@sorting(pairs[oldLen..]) == old@sorting(pairs[len..])[oldLen - len..];
    ghost var ps := old(pairs[..oldLen]);
    CanonKeeps(ps);
    forall key
      ensures Lookup(pairs[..len], key) == Lookup(Canon(ps), key)
    {
      assert Lookup(pairs[..len], key) == Lookup(old@sorting(pairs[..len]), key) == Lookup(ps, key);
    }
    CanonicalFormUnique(pairs[..len], Canon(ps));
  }

  /** `gg_map_is_canonical` compares neighbours only, and that is enough. */
  method MapIsCanonical(pairs: seq<KV>) returns (ok: bool)
    ensures ok <==> StrictlySorted(pairs)
  {
    var i := 1;
    while i < |pairs|
      invariant 1 <= i
      invariant |pairs| > 0 ==> i <= |pairs|
      invariant i <= |pairs| ==> StrictlySorted(pairs[..i])
    {
      var less := IsKeyLess(pairs[i - 1], pairs[i]);
      if !less {
        return false;
      }
      forall a, b | 0 <= a < b < i + 1
        ensures Less(pairs[a].key.data, pairs[b].key.data)
      {
        if b < i {
          assert pairs[..i][a] == pairs[a] && pairs[..i][b] == pairs[b];
        } else if a < i - 1 {
          assert pairs[..i][a] == pairs[a] && pairs[..i][i - 1] == pairs[i - 1];
          LessTransitive(pairs[a].key.data, pairs[i - 1].key.data, pairs[i].key.data);
        }
      }
      i := i + 1;
    }
    if |pairs| > 0 { assert pairs[..i] == pairs; }
    return true;
  }
}
