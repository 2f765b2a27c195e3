/** The examples of include/gg/object.h, and the order of keys, written out. */
module ObjectAnswers {
  import opened Common
  import opened Objects
  import opened ObjectVisit
  import opened MapCanonical

  /** Depth and subobjects of `5`, `{"a":5}` and `[{"a":5}]`. */
  lemma DocumentedExamples()
    ensures var five := I64(5); var map1 := Map(0, [KV(Buffer(0, [0x61]), five)]); var list1 := List(0, [map1]);
      && Depth(five) == 1 && Depth(map1) == 2 && Depth(list1) == 3
      && Subobjects(five) == 0 && Subobjects(map1) == 2 && Subobjects(list1) == 3
  {
    var p := KV(Buffer(0, [0x61]), I64(5));
    var m := Map(0, [p]);
    assert [p][1..] == [] && [m][1..] == [];
    assert KVDepth(p) == 1 && KVSubobjects(p) == 0;
    assert PairsDepth([p]) == 1 && PairsSubobjects([p]) == 0;
    assert ItemsDepth([m]) == 2 && ItemsSubobjects([m]) == 2;
  }

  /** The limits of include/gg/object.h. */
  lemma DocumentedLimits()
    ensures MAX_DEPTH == 15 && MAX_SUBOBJECTS == 255
  {}

  lemma PrefixEnds(v: bytes, u: bytes, n: nat, k: nat)
    requires CommonPrefix(v, u, n) && k < |v| && k < |u| && v[k] != u[k]
    ensures n <= k
  {}

  /** A prefix comes first, then bytes count as unsigned numbers. */
  lemma KeyOrder(a: bytes, x: byte, y: byte, b: bytes, c: bytes)
    ensures Less(a, a + [x])
    ensures x < y ==> Less(a + [x] + b, a + [y] + c) && !Less(a + [y] + c, a + [x] + b)
    ensures !Less(a, a)
  {
    assert CommonPrefix(a, a + [x], |a|);
    if x < y {
      var u, v := a + [x] + b, a + [y] + c;
      assert u[|a|] == x && v[|a|] == y;
      assert CommonPrefix(u, v, |a|);
      if Less(v, u) {
        var n: nat :| CommonPrefix(v, u, n) && n < |u| && (n == |v| || v[n] < u[n]);
        PrefixEnds(v, u, n, |a|);
      }
    }
  }
}
