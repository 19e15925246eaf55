/** Vocabulary shared by the other modules. */
module Common {
  type Byte = b: int | 0 <= b < 256

  datatype Option<+T> = None | Some(value: T)

  ghost predicate NoDup<T>(s: seq<T>) {
    forall i, j :: 0 <= i < j < |s| ==> s[i] != s[j]
  }

  ghost function Elements<T(!new)>(s: seq<T>): (r: set<T>)
    ensures forall x :: x in r <==> x in s
  {
    set x | x in s
  }

  /** A duplicate-free list of slots below `n` that is `n` long lists every slot. */
  lemma {:induction false} AllSlotsListed(s: seq<nat>, n: nat)
    requires NoDup(s) && n <= |s|
    requires forall k :: k in s ==> k < n
    ensures forall k :: 0 <= k < n ==> k in s
  {
    NoDupCount(s);
    forall k | 0 <= k < n
      ensures k in s
    {
      if k !in s {
        SubsetCount(Elements(s), Below(n) - {k});
      }
    }
  }

  lemma {:induction false} NoDupCount<T(!new)>(s: seq<T>)
    requires NoDup(s)
    ensures |Elements(s)| == |s|
  {
    if s != [] {
      var rest := s[..|s| - 1];
      NoDupCount(rest);
      assert s == rest + [s[|s| - 1]];
      assert Elements(s) == Elements(rest) + {s[|s| - 1]};
    }
  }

  function Below(n: nat): (r: set<nat>)
    ensures |r| == n
    ensures forall k: nat :: k in r <==> k < n
  {
    if n == 0 then {} else Below(n - 1) + {n - 1}
  }

  lemma {:induction false} SubsetCount<T>(a: set<T>, b: set<T>)
    requires a <= b
    ensures |a| <= |b|
  {
    if a != {} {
      var x :| x in a;
      SubsetCount(a - {x}, b - {x});
    }
  }

  /** What is left of a map is as it was. */
  ghost predicate Shrunk<V>(before: map<string, V>, after: map<string, V>) {
    after.Keys <= before.Keys && forall p :: p in after ==> after[p] == before[p]
  }

  /** Sum of the values of a map. */
  ghost function Total<K>(m: map<K, int>): int
    decreases |m|
  {
    if m == map[] then 0
    else
      var k :| k in m;
      m[k] + Total(m - {k})
  }

  lemma {:induction false} TotalRemove<K>(m: map<K, int>, k: K)
    requires k in m
    ensures Total(m) == m[k] + Total(m - {k})
    decreases |m|
  {
    var first :| first in m && Total(m) == m[first] + Total(m - {first});
    if first != k {
      TotalRemove(m - {first}, k);
      TotalRemove(m - {k}, first);
      assert m - {first} - {k} == m - {k} - {first};
    }
  }

  lemma TotalInsert<K>(m: map<K, int>, k: K, v: int)
    ensures Total(m[k := v]) == Total(m - {k}) + v
  {
    TotalRemove(m[k := v], k);
    assert m[k := v] - {k} == m - {k};
  }
}
