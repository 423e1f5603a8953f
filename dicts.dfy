/** Python dicts keyed by user id, as the split engine uses them: the items in
    insertion order, each key at most once. Also the `sum(...)` of their values. */
module Dicts {

  type UserId = string

  datatype Option<T> = None | Some(value: T)

  /** One `key: value` item of a dict. */
  datatype Entry<V> = Entry(key: UserId, value: V)

  /** The keys in insertion order, as `list(d)` gives them. */
  function Keys<V>(d: seq<Entry<V>>): seq<UserId>
  {
    seq(|d|, i requires 0 <= i < |d| => d[i].key)
  }

  predicate DistinctKeys<V>(d: seq<Entry<V>>)
  {
    forall i, j :: 0 <= i < j < |d| ==> d[i].key != d[j].key
  }

  /** A dict: its items in insertion order, no key twice. */
  type Dict<V> = d: seq<Entry<V>> | DistinctKeys(d) witness []

  predicate Distinct(s: seq<UserId>)
  {
    forall i, j :: 0 <= i < j < |s| ==> s[i] != s[j]
  }

  /** `set(s)` */
  function Elements(s: seq<UserId>): set<UserId>
  {
    set x | x in s
  }

  /** `d[k] = v`: a key already present keeps its place and takes the new value;
      a new key goes last. */
  function Put<V>(d: Dict<V>, k: UserId, v: V): (r: Dict<V>)
    ensures k !in Keys(d) ==> r == d + [Entry(k, v)]
  {
    if k in Keys(d) then
      seq(|d|, i requires 0 <= i < |d| => if d[i].key == k then Entry(k, v) else d[i])
    else
      assert forall i :: 0 <= i < |d| ==> d[i].key == Keys(d)[i] != k;
      d + [Entry(k, v)]
  }

  /** Assignment to a key already present overwrites its item in place; to a new
      key it appends an item; the keys keep their order either way. */
  lemma PutItems<V>(d: Dict<V>, k: UserId, v: V)
    ensures var r := Put(d, k, v);
            && Keys(r) == (if k in Keys(d) then Keys(d) else Keys(d) + [k])
            && |r| == (if k in Keys(d) then |d| else |d| + 1)
            && (forall i :: 0 <= i < |d| ==> r[i] == if d[i].key == k then Entry(k, v) else d[i])
  {
    if k !in Keys(d) {
      assert forall i :: 0 <= i < |d| ==> d[i].key == Keys(d)[i];
    }
  }

  /** `d.get(k, default)` */
  function Get<V>(d: Dict<V>, k: UserId, default: V): (r: V)
    ensures k !in Keys(d) ==> r == default
    ensures forall i :: 0 <= i < |d| && d[i].key == k ==> r == d[i].value
  {
    if d == [] then default
    else if d[|d| - 1].key == k then assert Keys(d)[|d| - 1] == k; d[|d| - 1].value
    else
      assert Keys(d[..|d| - 1]) == Keys(d)[..|d| - 1];
      Get(d[..|d| - 1], k, default)
  }

  /** `sum(d.values())` for money in cents. */
  function Sum(d: seq<Entry<int>>): int
  {
    if d == [] then 0 else Sum(d[..|d| - 1]) + d[|d| - 1].value
  }

  /** `sum(d.values())` for percentages. */
  function SumReal(d: seq<Entry<real>>): real
  {
    if d == [] then 0.0 else SumReal(d[..|d| - 1]) + d[|d| - 1].value
  }

  lemma SumSnoc(d: seq<Entry<int>>, e: Entry<int>)
    ensures Sum(d + [e]) == Sum(d) + e.value
  {
    assert (d + [e])[..|d|] == d;
  }

  /** Dict assignment and lookup agree: after `d[k] = v`, `k` maps to `v` and every
      other key to what it mapped to before. */
  lemma {:induction false} GetPut<V>(d: Dict<V>, k: UserId, v: V, k': UserId, default: V)
    ensures Get(Put(d, k, v), k', default) == if k' == k then v else Get(d, k', default)
  {
    var r := Put(d, k, v);
    PutItems(d, k, v);
    if k' == k {
      assert k in Keys(r);
      var i :| 0 <= i < |r| && r[i].key == k;
    } else if k' in Keys(d) {
      var i :| 0 <= i < |d| && d[i].key == k';
      assert r[i] == d[i];
    } else {
      assert k' !in Keys(r);
    }
  }

  /** `len(s) == len(set(s))` holds exactly when no element occurs twice. */
  lemma {:induction false} DistinctIffCardinality(s: seq<UserId>)
    ensures Distinct(s) <==> |Elements(s)| == |s|
  {
    if s != [] {
      var t := s[1..];
      DistinctIffCardinality(t);
      ElementsBound(t);
      assert Elements(s) == {s[0]} + Elements(t);
      if s[0] in t {
        assert Elements(s) == Elements(t);
        var j :| 0 <= j < |t| && t[j] == s[0];
        assert s[0] == s[j + 1];
      } else {
        assert |Elements(s)| == 1 + |Elements(t)|;
        assert Distinct(s) <==> Distinct(t) by {
          if Distinct(t) {
            forall i, j | 0 <= i < j < |s| ensures s[i] != s[j] {
              if i > 0 { assert s[i] == t[i - 1] && s[j] == t[j - 1]; }
              else { assert s[j] in t; }
            }
          }
          if Distinct(s) {
            forall i, j | 0 <= i < j < |t| ensures t[i] != t[j] {
              assert t[i] == s[i + 1] && t[j] == s[j + 1];
            }
          }
        }
      }
    }
  }

  lemma {:induction false} ElementsBound(s: seq<UserId>)
    ensures |Elements(s)| <= |s|
  {
    if s != [] {
      ElementsBound(s[1..]);
      assert Elements(s) == {s[0]} + Elements(s[1..]);
    }
  }

  /** Two duplicate-free lists with the same elements have the same length. */
  lemma SameElementsSameLength(a: seq<UserId>, b: seq<UserId>)
    requires Distinct(a) && Distinct(b) && Elements(a) == Elements(b)
    ensures |a| == |b|
  {
    DistinctIffCardinality(a);
    DistinctIffCardinality(b);
  }

  lemma DictKeysDistinct<V>(d: Dict<V>)
    ensures Distinct(Keys(d))
  {
  }
}
