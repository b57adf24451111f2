/**
 * Python's `dict` with string keys and values, as the checksum tool uses it:
 * a finite map that remembers the order in which its keys were first
 * inserted, and whose `items()` follow that order.
 */
module PyDict {

  predicate Distinct(s: seq<string>) {
    forall i, j :: 0 <= i < j < |s| ==> s[i] != s[j]
  }

  /** In a sequence without repetitions every element occurs at most once. */
  lemma {:induction false} DistinctCount(s: seq<string>, x: string)
    requires Distinct(s)
    ensures multiset(s)[x] <= 1
    decreases |s|
  {
    if s != [] {
      var init := s[..|s| - 1];
      assert s == init + [s[|s| - 1]];
      assert Distinct(init);
      DistinctCount(init, x);
      assert s[|s| - 1] !in init;
    }
  }

  /** A repeated element occurs at least twice. */
  lemma RepeatCount(s: seq<string>, i: nat, j: nat)
    requires i < j < |s| && s[i] == s[j]
    ensures multiset(s)[s[i]] >= 2
  {
    assert s == s[..j] + [s[j]] + s[j + 1..];
    assert s[i] in s[..j];
  }

  /** A rearrangement of a sequence without repetitions has none either. */
  lemma PermutationDistinct(a: seq<string>, b: seq<string>)
    requires multiset(a) == multiset(b) && Distinct(b)
    ensures Distinct(a)
  {
    forall i, j | 0 <= i < j < |a| ensures a[i] != a[j] {
      DistinctCount(b, a[i]);
      if a[i] == a[j] {
        RepeatCount(a, i, j);
      }
    }
  }

  datatype Dict = Dict(keys: seq<string>, m: map<string, string>) {

    /** The keys in insertion order are exactly the keys of the map, once each. */
    ghost predicate Valid() {
      Distinct(keys) && forall k :: k in m <==> k in keys
    }

    /** `d[k] = v`: a new key goes to the end of the order; an existing key
        keeps its place and takes the new value. */
    function Put(k: string, v: string): (d: Dict)
      requires Valid()
      ensures d.Valid()
      ensures d.m == m[k := v]
      ensures k in m ==> d.keys == keys
      ensures k !in m ==> d.keys == keys + [k]
    {
      if k in m then Dict(keys, m[k := v]) else Dict(keys + [k], m[k := v])
    }

    /** `d.items()`: the (key, value) pairs in insertion order. */
    function Items(): (r: seq<(string, string)>)
      requires Valid()
      ensures |r| == |keys|
      ensures forall i :: 0 <= i < |r| ==> r[i] == (keys[i], m[keys[i]])
    {
      seq(|keys|, i requires 0 <= i < |keys| => (keys[i], m[keys[i]]))
    }
  }

  /** `{}` */
  function Empty(): (d: Dict)
    ensures d.Valid() && d.keys == [] && d.m == map[]
  {
    Dict([], map[])
  }
}
