/** Facts about sequences that the proofs cite explicitly. */
module Sequences {
  lemma AppendAssoc<T>(a: seq<T>, b: seq<T>, c: seq<T>)
    ensures (a + b) + c == a + (b + c)
  {
  }

  lemma InMiddle<T>(a: seq<T>, x: T, b: seq<T>)
    ensures x in a + [x] + b
    ensures forall y :: y in b ==> y in a + [x] + b
  {
    var s := a + [x] + b;
    assert s[|a|] == x;
    forall y | y in b ensures y in s {
      var k :| 0 <= k < |b| && b[k] == y;
      assert s[|a| + 1 + k] == y;
    }
  }
}
