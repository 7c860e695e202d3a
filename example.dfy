/** The demonstration client: a list backed by the vector 0, 1, ..., 9, 6,
    queried through the adapter, then asked for 42, which it does not hold. */
module Example {
  import opened ABC

  /** The client's vector: 0 through 9, then 6 again. */
  const VEC: seq<int> := [0, 1, 2, 3, 4, 5, 6, 7, 8, 9, 6]

  /** Kept apart from the client so that its proof runs in a small context. */
  lemma SixOccursTwice()
    ensures multiset(VEC)[6] == 2
  {
  }

  /** 42 is nowhere in the vector. */
  lemma FortyTwoAbsent()
    ensures 42 !in VEC && 42 !in VEC[..11] && multiset(VEC)[42] == 0
  {
  }

  method ExampleClient() returns (size: nat, has5: bool, at4: int, sixes: nat, at42: int, fortyTwos: nat)
    ensures size == 11 && has5 && at4 == 4 && sixes == 2
    ensures at42 == -1 && fortyTwos == 0
  {
    var m := new Candidate.FromVector(VEC);
    var s := new Sequence(m);
    size := m.Size();
    has5 := s.Contains(5);
    assert has5 by { assert VEC[5] == 5; }
    at4 := s.Index(4);
    assert at4 == 4 by {
      assert VEC[..11] == VEC;
      FirstIndexUnique(VEC, 4, 4);
    }
    sixes := s.Count(6);
    assert sixes == 2 by { SixOccursTwice(); }
    at42 := s.Index(42);
    fortyTwos := s.Count(42);
    assert at42 == -1 && fortyTwos == 0 by { FortyTwoAbsent(); }
  }
}
