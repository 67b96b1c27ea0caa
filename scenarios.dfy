/** Two concrete runs of the simulator, worked out from the definitions: a trace over
    four direct-mapped sets that re-hits its first address, and a 2-way single-set cache
    under LRU that evicts the tag touched longest ago. */
module Scenarios {
  import opened Results
  import opened Text
  import opened Address
  import opened Cache

  /** "x" followed by one digit d is the address d. */
  lemma ParseOneDigit(d: nat)
    requires d < 16
    ensures StripMarker("x" + [UpperDigit(d)]) == [UpperDigit(d)]
    ensures ParseHex(StripMarker("x" + [UpperDigit(d)])) == Ok(d)
  {
    var s := [UpperDigit(d)];
    assert ("x" + s)[1..] == s;
    assert AllHex(s);
    assert s[..|s| - 1] == [] && s[|s| - 1] == UpperDigit(d);
    assert HexValue(s) == DigitValue(UpperDigit(d));
  }

  /** The powers of two the two geometries use. */
  lemma PowersOfTwo()
    ensures IsPowerOfTwo(1) && IsPowerOfTwo(2) && IsPowerOfTwo(4)
    ensures Log2(1) == 0 && Log2(4) == 2
    ensures Pow2(2) == 4 && Pow2(4) == 16 && Pow2(8) == 256
  {
    assert Log2(2) == 1;
    assert Pow2(3) == 8 && Pow2(6) == 64;
  }

  /** A miss into a set with room inserts the tag with the counter before the access. */
  lemma MissWithRoom(s: Snapshot, association: int, policy: string, tag: int, index: int)
    requires Inv(s, association) && 0 <= index < |s.cache|
    requires tag !in s.cache[index] && |s.cache[index]| < association
    ensures Access(s, association, policy, tag, index)
            == Step(Ok("M"), Snapshot(s.cache[index := s.cache[index][tag := s.counter]],
                                      s.tracker[index := s.tracker[index][tag := s.counter + 1]],
                                      s.counter + 1))
  {
  }

  // ------------------------------------------------------------ eviction example

  /** With 1-byte blocks and one set, address x(d) is tag d in set 0. */
  lemma ParseSingleSet(d: nat)
    requires d < 16
    ensures IsPowerOfTwo(1)
    ensures ParseAddress(8, 1, 1, "x" + [UpperDigit(d)]) == Ok(Fields(d, 0, 0))
  {
    PowersOfTwo();
    ParseOneDigit(d);
    assert Split(d, 0, 0, 8) == Fields(d, 0, 0) by {
      assert Pow2(0) == 1 && Pow2(0 + 0) == 1;
      DivModUnique(d, 1, d, 0);
      DivModUnique(d, 256, 0, d);
    }
  }

  /** In 8-bit addresses with 1-byte blocks and one set, the k-th of x1, x2, x3 is
      tag k in set 0. */
  lemma TwoWayDecode(address: string, k: nat)
    requires 1 <= k <= 3 && address == ["x1", "x2", "x3"][k - 1]
    ensures IsPowerOfTwo(1)
    ensures ParseAddress(8, 1, 1, address) == Ok(Fields(k, 0, 0))
  {
    assert address == "x" + [UpperDigit(k)];
    ParseSingleSet(k);
  }

  /** The single set after tag 1 alone. */
  function TwoWayOne(): Snapshot {
    Snapshot([map[1 := 0]], [map[1 := 1]], 1)
  }

  /** The single set after tags 1 and 2: both resident, 2 touched last. */
  function TwoWayFull(): Snapshot {
    Snapshot([map[1 := 0, 2 := 1]], [map[1 := 1, 2 := 2]], 2)
  }

  /** The single set after the eviction: tags 2 and 3. */
  function TwoWayLast(): Snapshot {
    Snapshot([map[2 := 1, 3 := 2]], [map[2 := 2, 3 := 3]], 3)
  }

  /** The first miss puts tag 1 into the empty set. */
  lemma TwoWayFirst(s: Snapshot)
    requires s == Empty(1)
    ensures Inv(s, 2) && Access(s, 2, "LRU", 1, 0) == Step(Ok("M"), TwoWayOne())
  {
    assert s == Snapshot([map[]], [map[]], 0);
    EmptyInv(1, 2);
    MissWithRoom(s, 2, "LRU", 1, 0);
    assert s.cache[0 := s.cache[0][1 := 0]] == [map[1 := 0]];
    assert s.tracker[0 := s.tracker[0][1 := 1]] == [map[1 := 1]];
  }

  /** The miss on tag 2 fills the second way. */
  lemma TwoWayFill(s: Snapshot)
    requires s == TwoWayOne() && Inv(s, 2)
    ensures Access(s, 2, "LRU", 2, 0) == Step(Ok("M"), TwoWayFull())
  {
    MissWithRoom(s, 2, "LRU", 2, 0);
    assert s.cache[0 := s.cache[0][2 := 1]] == [map[1 := 0, 2 := 1]];
    assert s.tracker[0 := s.tracker[0][2 := 2]] == [map[1 := 1, 2 := 2]];
  }

  /** Deleting tag 1 and inserting tag 3 in the maps of the full set. */
  lemma TwoWayMaps()
    ensures (map[1 := 0, 2 := 1] - {1})[3 := 2] == map[2 := 1, 3 := 2]
    ensures (map[1 := 1, 2 := 2] - {1})[3 := 3] == map[2 := 2, 3 := 3]
  {
    var c, tr := (map[1 := 0, 2 := 1] - {1})[3 := 2], (map[1 := 1, 2 := 2] - {1})[3 := 3];
    assert c.Keys == {2, 3} && c[2] == 1 && c[3] == 2;
    assert tr.Keys == {2, 3} && tr[2] == 2 && tr[3] == 3;
  }

  /** The miss on tag 3 evicts tag 1, the tag touched longest ago. */
  lemma TwoWayEvict(s: Snapshot)
    requires s == TwoWayFull() && Inv(s, 2)
    ensures Access(s, 2, "LRU", 3, 0) == Step(Ok("M"), TwoWayLast())
  {
    var m := s.tracker[0];
    assert m.Keys == {1, 2} && |s.cache[0]| == 2;
    assert Extremal(Min, m, 1);
    VictimIsDetermined(s, 2, "LRU", 0, 1);
    TwoWayMaps();
    assert s.cache[0 := map[2 := 1, 3 := 2]] == [map[2 := 1, 3 := 2]];
    assert s.tracker[0 := map[2 := 2, 3 := 3]] == [map[2 := 2, 3 := 3]];
  }

  /** Tags 1, 2, 3 into the one 2-way set under LRU: three misses; the third evicts
      tag 1, the tag touched longest ago, and leaves tags 2 and 3 resident. */
  lemma EvictionExample(s: Snapshot)
    requires s == Empty(1)
    ensures Inv(s, 2)
    ensures Access(s, 2, "LRU", 1, 0) == Step(Ok("M"), TwoWayOne())
    ensures Inv(TwoWayOne(), 2)
    ensures Access(TwoWayOne(), 2, "LRU", 2, 0) == Step(Ok("M"), TwoWayFull())
    ensures Inv(TwoWayFull(), 2)
    ensures Access(TwoWayFull(), 2, "LRU", 3, 0) == Step(Ok("M"), TwoWayLast())
    ensures TwoWayLast().cache[0].Keys == {2, 3}
  {
    TwoWayFirst(s);
    AccessKeepsInv(s, 2, "LRU", 1, 0);
    var s1 := Access(s, 2, "LRU", 1, 0).after;
    TwoWayFill(s1);
    AccessKeepsInv(s1, 2, "LRU", 2, 0);
    var s2 := Access(s1, 2, "LRU", 2, 0).after;
    TwoWayEvict(s2);
    assert TwoWayLast().cache[0].Keys == {2, 3};
  }

  // ------------------------------------------------------------ end-to-end example

  /** In 8-bit addresses with 4-byte blocks and 4 sets, the k-th of x00, x04, x08, x0C
      is offset 0 and tag 0 in set k. */
  lemma DirectDecode(address: string, k: nat)
    requires k < 4 && address == ["x00", "x04", "x08", "x0C"][k]
    ensures IsPowerOfTwo(4)
    ensures ParseAddress(8, 4, 4, address) == Ok(Fields(0, k, 0))
  {
    assert address == "x0" + [UpperDigit(4 * k)];
    DirectAddress(k);
  }

  /** x0 followed by the digit 4k is offset 0, set k, tag 0. */
  lemma DirectAddress(k: nat)
    requires k < 4
    ensures IsPowerOfTwo(4)
    ensures ParseAddress(8, 4, 4, "x0" + [UpperDigit(4 * k)]) == Ok(Fields(0, k, 0))
  {
    PowersOfTwo();
    var digits := "0" + [UpperDigit(4 * k)];
    assert StripMarker("x0" + [UpperDigit(4 * k)]) == digits;
    assert AllHex(digits);
    assert digits[..|digits| - 1] == "0" && "0"[..0] == [];
    assert HexValue(digits) == 4 * k;
    assert Split(4 * k, 2, 2, 4) == Fields(0, k, 0) by {
      DivModUnique(4 * k, 16, 0, 4 * k);
      DivModUnique(4 * k, 4, k, 0);
      DivModUnique(k, 4, 0, k);
    }
  }

  /** After the first k of x00, x04, x08, x0C: tag 0 resident in sets 0 .. k - 1, inserted
      at counter i and touched at i + 1 in set i. */
  function Direct(k: nat): Snapshot {
    Snapshot(seq(4, i => if i < k then map[0 := i] else map[]),
             seq(4, i => if i < k then map[0 := i + 1] else map[]),
             k)
  }

  /** The access for the k-th address misses and fills set k. */
  lemma DirectMiss(s: Snapshot, k: nat)
    requires k < 4 && s == Direct(k) && Inv(s, 1)
    ensures Access(s, 1, "LRU", 0, k) == Step(Ok("M"), Direct(k + 1))
  {
    assert s.cache[k] == map[];
    MissWithRoom(s, 1, "LRU", 0, k);
    assert s.cache[k := map[0 := k]] == Direct(k + 1).cache;
    assert s.tracker[k := map[0 := k + 1]] == Direct(k + 1).tracker;
  }

  /** Every state of the run satisfies the invariant, by the accesses that lead to it. */
  lemma {:induction false} DirectInv(k: nat)
    requires k <= 4
    ensures Inv(Direct(k), 1)
  {
    if k == 0 {
      EmptyInv(4, 1);
      assert Direct(0) == Empty(4);
    } else {
      DirectInv(k - 1);
      DirectMiss(Direct(k - 1), k - 1);
      AccessKeepsInv(Direct(k - 1), 1, "LRU", 0, k - 1);
    }
  }

  /** Direct mapped, LRU, trace x00, x04, x08, x0C, x00: starting empty, the access
      for set k (tag 0) misses and fills set k for k = 0, 1, 2, 3, and the repeated
      access to set 0 then hits. */
  lemma EndToEndExample()
    ensures Direct(0) == Empty(4)
    ensures forall k :: 0 <= k < 4 ==>
      Inv(Direct(k), 1) && Access(Direct(k), 1, "LRU", 0, k) == Step(Ok("M"), Direct(k + 1))
    ensures Inv(Direct(4), 1) && Access(Direct(4), 1, "LRU", 0, 0).result == Ok("H")
  {
    assert Direct(0) == Empty(4);
    forall k | 0 <= k < 4
      ensures Inv(Direct(k), 1) && Access(Direct(k), 1, "LRU", 0, k) == Step(Ok("M"), Direct(k + 1))
    {
      DirectInv(k);
      DirectMiss(Direct(k), k);
    }
    DirectInv(4);
    AccessOutcome(Direct(4), 1, "LRU", 0, 0);
  }
}
