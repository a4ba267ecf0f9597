/** The order in which a group's child controls are enumerated.

    The child list of a group is built from `Object.getOwnPropertyNames` over its
    `controls` object (src/app/shared/forms-util.ts:34). For an ordinary object that
    order is fixed by the language: first every key that is an array index
    (a canonical decimal numeral no larger than 2^32 - 2), in ascending numeric
    order, then every other string key in the order the properties were created. */
module PropertyOrder {

  predicate IsDigit(ch: char) { '0' <= ch <= '9' }

  predicate AllDigits(s: string) { forall i :: 0 <= i < |s| ==> IsDigit(s[i]) }

  function DigitValue(ch: char): nat
  {
    if IsDigit(ch) then ch as int - '0' as int else 0
  }

  /** The value of a decimal numeral (only read where every character is a digit). */
  function DecimalValue(s: string): nat
  {
    if s == [] then 0 else 10 * DecimalValue(s[..|s| - 1]) + DigitValue(s[|s| - 1])
  }

  /** The largest array index, 2^32 - 2. */
  const MaxArrayIndex: nat := 0xFFFF_FFFE

  /** A key that names an array index: digits only, no leading zero (except "0"
      itself), and at most MaxArrayIndex. */
  predicate IsArrayIndex(s: string)
  {
    && |s| > 0
    && AllDigits(s)
    && (s[0] != '0' || |s| == 1)
    && DecimalValue(s) <= MaxArrayIndex
  }

  predicate AllIndices(keys: seq<string>)
  {
    forall i :: 0 <= i < |keys| ==> IsArrayIndex(keys[i])
  }

  predicate Ascending(keys: seq<string>)
  {
    forall i, j :: 0 <= i < j < |keys| ==> DecimalValue(keys[i]) <= DecimalValue(keys[j])
  }

  /** Inserts an array-index key into an ascending list of array-index keys. */
  function Insert(k: string, sorted: seq<string>): (r: seq<string>)
    requires IsArrayIndex(k) && AllIndices(sorted) && Ascending(sorted)
    ensures AllIndices(r) && Ascending(r)
    ensures multiset(r) == multiset(sorted) + multiset{k}
  {
    if sorted == [] then [k]
    else if DecimalValue(k) <= DecimalValue(sorted[0]) then
      ConsSorted(k, sorted);
      [k] + sorted
    else
      var rest := Insert(k, sorted[1..]);
      assert sorted == [sorted[0]] + sorted[1..];
      InsertKeepsLowerBound(sorted[0], k, sorted[1..], rest);
      ConsSorted(sorted[0], rest);
      [sorted[0]] + rest
  }

  /** Putting an index no larger than the head in front keeps a list sorted. */
  lemma ConsSorted(x: string, s: seq<string>)
    requires IsArrayIndex(x) && AllIndices(s) && Ascending(s)
    requires s == [] || DecimalValue(x) <= DecimalValue(s[0])
    ensures AllIndices([x] + s) && Ascending([x] + s)
  {
    var r := [x] + s;
    forall i | 0 <= i < |r| ensures IsArrayIndex(r[i]) {
      if i > 0 { assert r[i] == s[i - 1]; }
    }
    forall i, j | 0 <= i < j < |r| ensures DecimalValue(r[i]) <= DecimalValue(r[j]) {
      assert r[j] == s[j - 1];
      if i > 0 {
        assert r[i] == s[i - 1];
      } else if j > 1 {
        assert DecimalValue(s[0]) <= DecimalValue(s[j - 1]);
      }
    }
  }

  lemma InsertKeepsLowerBound(low: string, k: string, tail: seq<string>, rest: seq<string>)
    requires DecimalValue(low) <= DecimalValue(k)
    requires forall i :: 0 <= i < |tail| ==> DecimalValue(low) <= DecimalValue(tail[i])
    requires multiset(rest) == multiset(tail) + multiset{k}
    ensures forall i :: 0 <= i < |rest| ==> DecimalValue(low) <= DecimalValue(rest[i])
  {
    forall i | 0 <= i < |rest|
      ensures DecimalValue(low) <= DecimalValue(rest[i])
    {
      assert rest[i] in multiset(rest);
      if rest[i] != k {
        assert rest[i] in multiset(tail);
        var j :| 0 <= j < |tail| && tail[j] == rest[i];
      }
    }
  }

  /** Sorts a list of array-index keys by numeric value. */
  function SortIndices(keys: seq<string>): (r: seq<string>)
    requires AllIndices(keys)
    ensures AllIndices(r) && Ascending(r)
    ensures multiset(r) == multiset(keys)
  {
    if keys == [] then []
    else
      assert keys == keys[..|keys| - 1] + [keys[|keys| - 1]];
      Insert(keys[|keys| - 1], SortIndices(keys[..|keys| - 1]))
  }

  /** The array-index keys, in their original relative order. */
  function IndexKeys(keys: seq<string>): (r: seq<string>)
    ensures AllIndices(r) && |r| <= |keys|
  {
    if keys == [] then []
    else if IsArrayIndex(keys[|keys| - 1]) then IndexKeys(keys[..|keys| - 1]) + [keys[|keys| - 1]]
    else IndexKeys(keys[..|keys| - 1])
  }

  /** The keys that are not array indices, in their original relative order. */
  function OtherKeys(keys: seq<string>): (r: seq<string>)
    ensures forall i :: 0 <= i < |r| ==> !IsArrayIndex(r[i])
  {
    if keys == [] then []
    else if IsArrayIndex(keys[|keys| - 1]) then OtherKeys(keys[..|keys| - 1])
    else OtherKeys(keys[..|keys| - 1]) + [keys[|keys| - 1]]
  }

  lemma {:induction false} SplitKeys(keys: seq<string>)
    ensures multiset(IndexKeys(keys)) + multiset(OtherKeys(keys)) == multiset(keys)
  {
    if keys != [] {
      var init, last := keys[..|keys| - 1], keys[|keys| - 1];
      SplitKeys(init);
      assert keys == init + [last];
    }
  }

  /** The own-property-name order of an object whose keys were created in the
      order `keys`: a permutation of `keys`. */
  function OwnPropertyNames(keys: seq<string>): (r: seq<string>)
    ensures multiset(r) == multiset(keys) && |r| == |keys|
  {
    SplitKeys(keys);
    var sorted := SortIndices(IndexKeys(keys));
    assert |sorted + OtherKeys(keys)| == |keys| by {
      assert |multiset(sorted + OtherKeys(keys))| == |multiset(keys)|;
    }
    sorted + OtherKeys(keys)
  }

  /** Every key appears in own-property-name order and nothing else does. */
  lemma OwnPropertyNamesMembers(keys: seq<string>)
    ensures forall i :: 0 <= i < |OwnPropertyNames(keys)| ==> OwnPropertyNames(keys)[i] in keys
    ensures forall j :: 0 <= j < |keys| ==> keys[j] in OwnPropertyNames(keys)
  {
    var r := OwnPropertyNames(keys);
    forall i | 0 <= i < |r| ensures r[i] in keys {
      assert r[i] in multiset(r);
    }
    forall j | 0 <= j < |keys| ensures keys[j] in r {
      assert keys[j] in multiset(keys);
    }
  }

  /** In own-property-name order the array-index keys come first, ascending by
      numeric value, and the remaining keys follow in creation order. */
  lemma OwnPropertyNamesOrder(keys: seq<string>)
    ensures var r := OwnPropertyNames(keys);
      && |IndexKeys(keys)| <= |r|
      && (forall i :: 0 <= i < |r| ==> (IsArrayIndex(r[i]) <==> i < |IndexKeys(keys)|))
      && (forall i, j :: 0 <= i < j < |IndexKeys(keys)| ==> DecimalValue(r[i]) <= DecimalValue(r[j]))
      && r[|IndexKeys(keys)|..] == OtherKeys(keys)
  {
    SplitKeys(keys);
    var sorted := SortIndices(IndexKeys(keys));
    assert |sorted| == |IndexKeys(keys)| by {
      assert |multiset(sorted)| == |multiset(IndexKeys(keys))|;
    }
    var r := OwnPropertyNames(keys);
    assert r == sorted + OtherKeys(keys);
  }

  /** When no key is an array index, own-property-name order is creation order. */
  lemma {:induction false} NoIndexKeysKeepOrder(keys: seq<string>)
    requires forall i :: 0 <= i < |keys| ==> !IsArrayIndex(keys[i])
    ensures OwnPropertyNames(keys) == keys
  {
    NoIndexKeys(keys);
    OtherKeysAll(keys);
    assert OwnPropertyNames(keys) == SortIndices([]) + keys;
  }

  lemma {:induction false} NoIndexKeys(keys: seq<string>)
    requires forall i :: 0 <= i < |keys| ==> !IsArrayIndex(keys[i])
    ensures IndexKeys(keys) == []
  {
    if keys != [] { NoIndexKeys(keys[..|keys| - 1]); }
  }

  lemma {:induction false} OtherKeysAll(keys: seq<string>)
    requires forall i :: 0 <= i < |keys| ==> !IsArrayIndex(keys[i])
    ensures OtherKeys(keys) == keys
  {
    if keys != [] {
      OtherKeysAll(keys[..|keys| - 1]);
      assert keys == keys[..|keys| - 1] + [keys[|keys| - 1]];
    }
  }
}
