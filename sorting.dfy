/** `sorted(d.items(), key=lambda x: x[1], reverse=True)` over a dict of percentages:
    a stable sort, largest percentage first, that keeps entries with equal
    percentages in dict order. */
module Sorting {
  import opened Dicts

  predicate Descending(s: seq<Entry<real>>)
  {
    forall i, j :: 0 <= i < j < |s| ==> s[i].value >= s[j].value
  }

  /** The entries of `s` whose percentage is `v`, in order. */
  function WithPercentage(s: seq<Entry<real>>, v: real): seq<Entry<real>>
  {
    if s == [] then []
    else (if s[0].value == v then [s[0]] else []) + WithPercentage(s[1..], v)
  }

  /** Puts `x` in front of the first entry whose percentage is not above its own. */
  function InsertDescending(x: Entry<real>, s: seq<Entry<real>>): seq<Entry<real>>
  {
    if s == [] || s[0].value <= x.value then [x] + s
    else [s[0]] + InsertDescending(x, s[1..])
  }

  function SortByPercentage(s: seq<Entry<real>>): seq<Entry<real>>
  {
    if s == [] then []
    else InsertDescending(s[0], SortByPercentage(s[1..]))
  }

  lemma {:induction false} InsertIsPermutation(x: Entry<real>, s: seq<Entry<real>>)
    ensures multiset(InsertDescending(x, s)) == multiset{x} + multiset(s)
  {
    if s != [] && s[0].value > x.value {
      InsertIsPermutation(x, s[1..]);
      assert s == [s[0]] + s[1..];
    }
  }

  /** The sort is a permutation of the dict's items. */
  lemma {:induction false} SortIsPermutation(s: seq<Entry<real>>)
    ensures multiset(SortByPercentage(s)) == multiset(s)
  {
    if s != [] {
      SortIsPermutation(s[1..]);
      InsertIsPermutation(s[0], SortByPercentage(s[1..]));
      assert s == [s[0]] + s[1..];
    }
  }

  lemma {:induction false} InsertMembers(x: Entry<real>, s: seq<Entry<real>>)
    ensures forall e :: e in InsertDescending(x, s) ==> e == x || e in s
  {
    if s != [] && s[0].value > x.value {
      InsertMembers(x, s[1..]);
    }
  }

  /** Sorting only rearranges: every sorted entry is an entry of the dict. */
  lemma {:induction false} SortMembers(s: seq<Entry<real>>)
    ensures forall e :: e in SortByPercentage(s) ==> e in s
  {
    if s != [] {
      SortMembers(s[1..]);
      InsertMembers(s[0], SortByPercentage(s[1..]));
    }
  }

  lemma {:induction false} InsertKeepsDescending(x: Entry<real>, s: seq<Entry<real>>)
    requires Descending(s)
    ensures Descending(InsertDescending(x, s))
  {
    if s != [] && s[0].value > x.value {
      var t := InsertDescending(x, s[1..]);
      InsertKeepsDescending(x, s[1..]);
      InsertMembers(x, s[1..]);
      forall e | e in t ensures e.value <= s[0].value {
        if e != x {
          var k :| 0 <= k < |s[1..]| && s[1..][k] == e;
          assert s[k + 1] == e;
        }
      }
      var r := [s[0]] + t;
      forall i, j | 0 <= i < j < |r| ensures r[i].value >= r[j].value {
        if i == 0 { assert r[j] == t[j - 1]; assert r[j] in t; }
        else { assert r[i] == t[i - 1] && r[j] == t[j - 1]; }
      }
    }
  }

  /** The sort puts the entries in descending order of percentage. */
  lemma {:induction false} SortIsDescending(s: seq<Entry<real>>)
    ensures Descending(SortByPercentage(s))
  {
    if s != [] {
      SortIsDescending(s[1..]);
      InsertKeepsDescending(s[0], SortByPercentage(s[1..]));
    }
  }

  lemma {:induction false} WithPercentageAppend(a: seq<Entry<real>>, b: seq<Entry<real>>, v: real)
    ensures WithPercentage(a + b, v) == WithPercentage(a, v) + WithPercentage(b, v)
  {
    if a != [] {
      assert (a + b)[1..] == a[1..] + b;
      WithPercentageAppend(a[1..], b, v);
    } else {
      assert a + b == b;
    }
  }

  lemma WithPercentageSingle(e: Entry<real>, v: real)
    ensures WithPercentage([e], v) == if e.value == v then [e] else []
  {
    assert [e][1..] == [];
  }

  lemma {:induction false} InsertWithPercentage(x: Entry<real>, s: seq<Entry<real>>, v: real)
    ensures WithPercentage(InsertDescending(x, s), v)
         == (if x.value == v then [x] else []) + WithPercentage(s, v)
  {
    WithPercentageSingle(x, v);
    if s == [] || s[0].value <= x.value {
      WithPercentageAppend([x], s, v);
    } else {
      InsertWithPercentage(x, s[1..], v);
      InsertWithPercentageStep(x, s, v);
    }
  }

  lemma InsertWithPercentageStep(x: Entry<real>, s: seq<Entry<real>>, v: real)
    requires s != [] && s[0].value > x.value
    requires WithPercentage(InsertDescending(x, s[1..]), v)
          == (if x.value == v then [x] else []) + WithPercentage(s[1..], v)
    ensures WithPercentage(InsertDescending(x, s), v)
         == (if x.value == v then [x] else []) + WithPercentage(s, v)
  {
    var t := InsertDescending(x, s[1..]);
    assert InsertDescending(x, s) == [s[0]] + t;
    assert s == [s[0]] + s[1..];
    WithPercentageAppend([s[0]], t, v);
    WithPercentageAppend([s[0]], s[1..], v);
    WithPercentageSingle(s[0], v);
    if x.value == v {
      assert WithPercentage([s[0]], v) == [];
    } else {
      assert WithPercentage(t, v) == WithPercentage(s[1..], v);
    }
  }

  /** Stability: for every percentage, the entries carrying it keep their dict order. */
  lemma {:induction false} SortIsStable(s: seq<Entry<real>>, v: real)
    ensures WithPercentage(SortByPercentage(s), v) == WithPercentage(s, v)
  {
    if s != [] {
      SortIsStable(s[1..], v);
      InsertWithPercentage(s[0], SortByPercentage(s[1..]), v);
    }
  }

  /** Sorting neither adds nor drops keys. */
  lemma SortKeepsKeys(s: seq<Entry<real>>)
    ensures Elements(Keys(SortByPercentage(s))) == Elements(Keys(s))
  {
    SortIsPermutation(s);
    PermutationKeepsKeys(SortByPercentage(s), s);
  }

  /** So the sorted items of a dict still have distinct keys. */
  lemma {:induction false} SortKeepsDistinctKeys(s: seq<Entry<real>>)
    requires DistinctKeys(s)
    ensures DistinctKeys(SortByPercentage(s))
  {
    if s != [] {
      var t := SortByPercentage(s[1..]);
      SortKeepsDistinctKeys(s[1..]);
      SortKeepsKeys(s[1..]);
      assert s[0].key !in Keys(s[1..]) by {
        forall k | 0 <= k < |s[1..]| ensures Keys(s[1..])[k] != s[0].key {
          assert s[1..][k] == s[k + 1];
        }
      }
      assert s[0].key !in Elements(Keys(t));
      InsertKeepsDistinctKeys(s[0], t);
    }
  }

  lemma {:induction false} InsertKeepsDistinctKeys(x: Entry<real>, s: seq<Entry<real>>)
    requires DistinctKeys(s) && x.key !in Keys(s)
    ensures DistinctKeys(InsertDescending(x, s))
  {
    if s == [] || s[0].value <= x.value {
      ConsKeepsDistinctKeys(x, s);
    } else {
      assert s[0].key !in Keys(s[1..]) && x.key !in Keys(s[1..]) by {
        forall k | 0 <= k < |s[1..]| ensures s[1..][k].key != s[0].key && s[1..][k].key != x.key {
          assert s[1..][k] == s[k + 1];
          assert Keys(s)[k + 1] == s[k + 1].key;
        }
      }
      var t := InsertDescending(x, s[1..]);
      InsertKeepsDistinctKeys(x, s[1..]);
      InsertMembers(x, s[1..]);
      assert s[0].key != x.key by { assert Keys(s)[0] == s[0].key; }
      assert s[0].key !in Keys(t) by {
        forall j | 0 <= j < |t| ensures Keys(t)[j] != s[0].key {
          assert t[j] in t;
          if t[j] != x {
            var k :| 0 <= k < |s[1..]| && s[1..][k] == t[j];
            assert s[k + 1] == t[j];
          }
        }
      }
      ConsKeepsDistinctKeys(s[0], t);
    }
  }

  lemma ConsKeepsDistinctKeys(x: Entry<real>, s: seq<Entry<real>>)
    requires DistinctKeys(s) && x.key !in Keys(s)
    ensures DistinctKeys([x] + s)
  {
    var r := [x] + s;
    forall i, j | 0 <= i < j < |r| ensures r[i].key != r[j].key {
      if i == 0 { assert r[j] == s[j - 1]; assert Keys(s)[j - 1] == s[j - 1].key; }
      else { assert r[i] == s[i - 1] && r[j] == s[j - 1]; }
    }
  }

  lemma PermutationKeepsKeys(r: seq<Entry<real>>, s: seq<Entry<real>>)
    requires multiset(r) == multiset(s)
    ensures Elements(Keys(r)) == Elements(Keys(s))
  {
    forall k | k in Keys(r) ensures k in Keys(s) {
      var i :| 0 <= i < |r| && Keys(r)[i] == k;
      assert r[i] in multiset(s);
      var j :| 0 <= j < |s| && s[j] == r[i];
      assert Keys(s)[j] == k;
    }
    forall k | k in Keys(s) ensures k in Keys(r) {
      var i :| 0 <= i < |s| && Keys(s)[i] == k;
      assert s[i] in multiset(r);
      var j :| 0 <= j < |r| && r[j] == s[i];
      assert Keys(r)[j] == k;
    }
  }

  /** The last entry after sorting holds the smallest percentage, and among the
      entries holding it, it is the last one in dict order. */
  lemma LastHoldsSmallestPercentage(s: seq<Entry<real>>)
    requires s != []
    ensures var r := SortByPercentage(s);
            && |r| == |s|
            && r[|r| - 1] in s
            && (forall e :: e in s ==> r[|r| - 1].value <= e.value)
            && var ties := WithPercentage(s, r[|r| - 1].value);
               ties != [] && ties[|ties| - 1] == r[|r| - 1]
  {
    var r := SortByPercentage(s);
    SortLength(s);
    var last := r[|r| - 1];
    LastIsSmallest(s);
    SortIsStable(s, last.value);
    assert r == r[..|r| - 1] + [last];
    WithPercentageAppend(r[..|r| - 1], [last], last.value);
    WithPercentageSingle(last, last.value);
  }

  lemma SortLength(s: seq<Entry<real>>)
    ensures |SortByPercentage(s)| == |s|
  {
    var r := SortByPercentage(s);
    SortIsPermutation(s);
    assert |r| == |multiset(r)| == |multiset(s)| == |s|;
  }

  lemma LastIsSmallest(s: seq<Entry<real>>)
    requires s != []
    ensures var r := SortByPercentage(s);
            |r| == |s| && r[|r| - 1] in s && forall e :: e in s ==> r[|r| - 1].value <= e.value
  {
    var r := SortByPercentage(s);
    SortLength(s);
    SortIsPermutation(s);
    var last := r[|r| - 1];
    assert last in multiset(r);
    assert last in multiset(s);
    SortIsDescending(s);
    forall e | e in s ensures last.value <= e.value {
      assert e in multiset(s);
      assert e in multiset(r);
      var j :| 0 <= j < |r| && r[j] == e;
    }
  }
}
