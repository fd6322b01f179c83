/**
  Insertion-ordered dictionaries, as Python 3.7+ `dict`s behave: a sequence of
  (key, value) pairs with distinct keys. Assigning to a present key replaces
  its value in place; assigning to a new key appends it at the end.
 */
module OrderedDict {
  import opened Wrappers

  /** No element occurs twice. */
  predicate Distinct<T(==)>(s: seq<T>) {
    forall i, j :: 0 <= i < j < |s| ==> s[i] != s[j]
  }

  /** The keys of an association list, in order. */
  function Keys<K, V>(a: seq<(K, V)>): (ks: seq<K>)
    ensures |ks| == |a|
    ensures forall i :: 0 <= i < |a| ==> ks[i] == a[i].0
  {
    seq(|a|, i requires 0 <= i < |a| => a[i].0)
  }

  /** The values of an association list, in order (`list(d.values())`). */
  function Values<K, V>(a: seq<(K, V)>): (vs: seq<V>)
    ensures |vs| == |a|
    ensures forall i :: 0 <= i < |a| ==> vs[i] == a[i].1
  {
    seq(|a|, i requires 0 <= i < |a| => a[i].1)
  }

  /** A dictionary: an association list whose keys are distinct. */
  type Dict<K(==), V> = a: seq<(K, V)> | Distinct(Keys(a)) witness []

  /** The position of the first occurrence of `x` in `s`. */
  function IndexOf<T(==)>(s: seq<T>, x: T): (i: nat)
    requires x in s
    ensures i < |s| && s[i] == x
    ensures x !in s[..i]
  {
    if s[0] == x then 0 else 1 + IndexOf(s[1..], x)
  }

  /** `d[k]` if present, otherwise None (`k in d`). */
  function Lookup<K(==,!new), V>(d: Dict<K, V>, k: K): (r: Option<V>)
    ensures r.Some? <==> k in Keys(d)
    ensures forall i :: 0 <= i < |d| && d[i].0 == k ==> r == Some(d[i].1)
  {
    if k in Keys(d) then Some(d[IndexOf(Keys(d), k)].1) else None
  }

  /** `d[k] = v`. */
  function Put<K(==,!new), V>(d: Dict<K, V>, k: K, v: V): (r: Dict<K, V>)
    ensures Keys(r) == if k in Keys(d) then Keys(d) else Keys(d) + [k]
    ensures Lookup(r, k) == Some(v)
    ensures forall k' :: k' != k ==> Lookup(r, k') == Lookup(d, k')
    ensures forall i :: 0 <= i < |r| ==> if r[i].0 == k then r[i] == (k, v) else i < |d| && r[i] == d[i]
  {
    if k in Keys(d) then
      var i := IndexOf(Keys(d), k);
      var r := d[i := (k, v)];
      assert Keys(r) == Keys(d);
      r
    else
      var r := d + [(k, v)];
      assert Keys(r) == Keys(d) + [k];
      r
  }

  /** The values after `d[k] = v` for a present key: that one value replaced. */
  lemma PutValuesPresent<K(!new), V>(d: Dict<K, V>, k: K, v: V)
    requires k in Keys(d)
    ensures Values(Put(d, k, v)) == Values(d)[IndexOf(Keys(d), k) := v]
  {
  }

  /** The values after `d[k] = v` for a new key: `v` appended. */
  lemma PutValuesAbsent<K(!new), V>(d: Dict<K, V>, k: K, v: V)
    requires k !in Keys(d)
    ensures Values(Put(d, k, v)) == Values(d) + [v]
  {
  }

  /** A prefix of a dictionary is a dictionary. */
  lemma PrefixIsDict<K, V>(d: Dict<K, V>, n: nat)
    requires n <= |d|
    ensures Distinct(Keys(d[..n]))
  {
    assert forall i :: 0 <= i < n ==> Keys(d[..n])[i] == Keys(d)[i];
  }

  /** Looking a key up in a non-empty dictionary: the last entry, or the ones before it. */
  lemma LookupLast<K(!new), V>(d: Dict<K, V>, k: K)
    requires |d| > 0
    ensures Distinct(Keys(d[..|d| - 1]))
    ensures Lookup(d, k) == if k == d[|d| - 1].0 then Some(d[|d| - 1].1) else Lookup(d[..|d| - 1], k)
    ensures Lookup(d[..|d| - 1], d[|d| - 1].0) == None
  {
    PrefixIsDict(d, |d| - 1);
    var p: Dict<K, V> := d[..|d| - 1];
    if k in Keys(p) {
      var j := IndexOf(Keys(p), k);
      assert p[j] == d[j];
    }
    assert d[|d| - 1].0 !in Keys(p) by {
      assert forall i :: 0 <= i < |p| ==> Keys(p)[i] == Keys(d)[i];
    }
  }

  /**
    The distinct elements of `s` in order of first occurrence; this is the key
    order of a dict filled by assigning every element of `s` in turn.
   */
  function Dedup<T(==,!new)>(s: seq<T>): (r: seq<T>)
    ensures Distinct(r)
    ensures forall x :: x in r <==> x in s
  {
    if |s| == 0 then []
    else
      var d := Dedup(s[..|s| - 1]);
      if s[|s| - 1] in d then d else d + [s[|s| - 1]]
  }

  /** One more element: appended to the distinct elements unless already among them. */
  lemma DedupLast<T(!new)>(s: seq<T>)
    requires |s| > 0
    ensures Dedup(s) == if s[|s| - 1] in Dedup(s[..|s| - 1]) then Dedup(s[..|s| - 1])
      else Dedup(s[..|s| - 1]) + [s[|s| - 1]]
  {
  }

  /** Dedup keeps the first element in front. */
  lemma {:induction false} DedupHead<T(!new)>(x: T, s: seq<T>)
    ensures |Dedup([x] + s)| > 0 && Dedup([x] + s)[0] == x
  {
    if |s| > 0 {
      var t := [x] + s;
      assert t[..|t| - 1] == [x] + s[..|s| - 1];
      DedupHead(x, s[..|s| - 1]);
    } else {
      assert [x] + s == [x];
      assert [x][..0] == [];
    }
  }

  /** Dedup lists elements in order of their first occurrence. */
  lemma {:induction false} DedupFirstOccurrenceOrder<T(!new)>(s: seq<T>, i: nat, j: nat)
    requires i < j < |Dedup(s)|
    ensures IndexOf(s, Dedup(s)[i]) < IndexOf(s, Dedup(s)[j])
  {
    var p := s[..|s| - 1];
    var d := Dedup(p);
    var last := s[|s| - 1];
    assert forall k :: 0 <= k < |p| ==> s[k] == p[k];
    IndexOfPrefix(s, p, Dedup(s)[i]);
    if last in d {
      DedupFirstOccurrenceOrder(p, i, j);
      IndexOfPrefix(s, p, Dedup(s)[j]);
    } else if j < |d| {
      DedupFirstOccurrenceOrder(p, i, j);
      IndexOfPrefix(s, p, Dedup(s)[j]);
    } else {
      assert Dedup(s)[j] == last && last !in p;
      assert Dedup(s)[i] in p;
      IndexOfLast(s, p);
    }
  }

  /** The first occurrence in a prefix is the first occurrence overall. */
  lemma IndexOfPrefix<T>(s: seq<T>, p: seq<T>, x: T)
    requires p <= s && x in p
    ensures x in s && IndexOf(s, x) == IndexOf(p, x)
  {
    var k := IndexOf(p, x);
    assert s[..k] == p[..k];
  }

  /** An element missing from a prefix first occurs after it. */
  lemma IndexOfLast<T>(s: seq<T>, p: seq<T>)
    requires |s| > 0 && p == s[..|s| - 1] && s[|s| - 1] !in p
    ensures IndexOf(s, s[|s| - 1]) == |s| - 1
  {
    var m := IndexOf(s, s[|s| - 1]);
  }

  /** Elements already present do not change the order of first occurrence. */
  lemma {:induction false} DedupAppendPresent<T(!new)>(s: seq<T>, t: seq<T>)
    requires forall x :: x in t ==> x in s
    ensures Dedup(s + t) == Dedup(s)
  {
    if |t| > 0 {
      var u := s + t;
      assert u[..|u| - 1] == s + t[..|t| - 1];
      DedupAppendPresent(s, t[..|t| - 1]);
      DedupLast(u);
    } else {
      assert s + t == s;
    }
  }
}
