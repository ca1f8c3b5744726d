/**
 * The choices an admin list filter offers (one record per choice, keyed by its
 * `query_string`) and Python's stable `sorted` by that key, which the
 * `clean_admin_list_filter` tag applies before it removes duplicates.
 */
module FilterChoices {
  import opened Wrappers
  import StringOrder

  /** One entry of `spec.choices(cl)`: whether it is the active one, the query string it links to, its label. */
  datatype Choice = Choice(selected: bool, queryString: string, display: string)

  /** The query strings that occur in `s`. */
  function Keys(s: seq<Choice>): set<string>
  {
    set c | c in s :: c.queryString
  }

  /** `s` is ordered non-decreasingly by query string. */
  predicate SortedByKey(s: seq<Choice>)
  {
    forall i, j :: 0 <= i < j < |s| ==> StringOrder.Le(s[i].queryString, s[j].queryString)
  }

  /** No two entries of `s` share a query string. */
  predicate DistinctKeys(s: seq<Choice>)
  {
    forall i, j :: 0 <= i < j < |s| ==> s[i].queryString != s[j].queryString
  }

  /** The entries of `s` whose query string is `k`, in the order of `s`. */
  function WithKey(s: seq<Choice>, k: string): seq<Choice>
  {
    if s == [] then []
    else (if s[0].queryString == k then [s[0]] else []) + WithKey(s[1..], k)
  }

  /** The first entry of `s` whose query string is `k`, if any. */
  function First(s: seq<Choice>, k: string): Option<Choice>
  {
    var w := WithKey(s, k);
    if w == [] then None else Some(w[0])
  }

  lemma {:induction false} WithKeyAppend(a: seq<Choice>, b: seq<Choice>, k: string)
    ensures WithKey(a + b, k) == WithKey(a, k) + WithKey(b, k)
  {
    if a == [] {
      assert a + b == b;
    } else {
      assert (a + b)[1..] == a[1..] + b;
      WithKeyAppend(a[1..], b, k);
    }
  }

  lemma {:induction false} WithKeyNone(s: seq<Choice>, k: string)
    requires forall j :: 0 <= j < |s| ==> s[j].queryString != k
    ensures WithKey(s, k) == []
  {
    if s != [] {
      WithKeyNone(s[1..], k);
    }
  }

  /** `First` finds an entry with the key it was asked for, and finds one exactly when the key occurs. */
  lemma {:induction false} FirstFinds(s: seq<Choice>, k: string)
    ensures First(s, k).Some? <==> k in Keys(s)
    ensures First(s, k).Some? ==> First(s, k).value in s && First(s, k).value.queryString == k
  {
    if s != [] {
      FirstFinds(s[1..], k);
      assert s == [s[0]] + s[1..];
      assert Keys(s) == {s[0].queryString} + Keys(s[1..]);
    }
  }

  /**
   * Stable insertion of `x`: it goes before the first entry whose key is not smaller,
   * so it stays ahead of every entry with an equal key.
   */
  function Insert(x: Choice, s: seq<Choice>): seq<Choice>
  {
    if s == [] then [x]
    else if StringOrder.Le(x.queryString, s[0].queryString) then [x] + s
    else [s[0]] + Insert(x, s[1..])
  }

  lemma {:induction false} InsertSorted(x: Choice, s: seq<Choice>)
    requires SortedByKey(s)
    ensures SortedByKey(Insert(x, s))
  {
    if s != [] && !StringOrder.Le(x.queryString, s[0].queryString) {
      InsertSorted(x, s[1..]);
      StringOrder.NotLeIsLt(s[0].queryString, x.queryString);
      var r := Insert(x, s);
      InsertPermutes(x, s[1..]);
      forall j | 0 < j < |r|
        ensures StringOrder.Le(r[0].queryString, r[j].queryString)
      {
        assert r[j] in multiset(Insert(x, s[1..]));
        assert r[j] == x || r[j] in s[1..];
      }
    } else if s != [] {
      forall j | 0 < j < |s| + 1
        ensures StringOrder.Le(x.queryString, ([x] + s)[j].queryString)
      {
        if j > 1 {
          StringOrder.LeTransitive(x.queryString, s[0].queryString, s[j - 1].queryString);
        }
      }
    }
  }

  lemma {:induction false} InsertPermutes(x: Choice, s: seq<Choice>)
    ensures multiset(Insert(x, s)) == multiset(s) + multiset{x}
  {
    if s != [] && !StringOrder.Le(x.queryString, s[0].queryString) {
      InsertPermutes(x, s[1..]);
      assert s == [s[0]] + s[1..];
    }
  }

  /** Insertion puts `x` at the head of its key's run and leaves every run in order. */
  lemma {:induction false} InsertWithKey(x: Choice, s: seq<Choice>, k: string)
    ensures WithKey(Insert(x, s), k) == (if x.queryString == k then [x] else []) + WithKey(s, k)
  {
    if s == [] {
      assert Insert(x, s) == [x] + [];
    } else if StringOrder.Le(x.queryString, s[0].queryString) {
      assert ([x] + s)[1..] == s;
    } else {
      InsertWithKey(x, s[1..], k);
      assert ([s[0]] + Insert(x, s[1..]))[1..] == Insert(x, s[1..]);
      if x.queryString == k {
        StringOrder.LeReflexive(k);
      }
    }
  }

  /**
   * Python's `sorted(choices, key=lambda k: k['query_string'])`: ordered by key, a
   * permutation of its input, and stable (the entries of each key keep their order).
   */
  function SortByKey(s: seq<Choice>): (r: seq<Choice>)
    ensures SortedByKey(r)
    ensures multiset(r) == multiset(s)
    ensures forall k :: WithKey(r, k) == WithKey(s, k)
  {
    if s == [] then []
    else
      var t := SortByKey(s[1..]);
      InsertSorted(s[0], t);
      InsertPermutes(s[0], t);
      assert s == [s[0]] + s[1..];
      assert forall k :: WithKey(Insert(s[0], t), k) == WithKey(s, k) by {
        forall k ensures WithKey(Insert(s[0], t), k) == WithKey(s, k) {
          InsertWithKey(s[0], t, k);
        }
      }
      Insert(s[0], t)
  }

  /** In a sorted sequence, an entry whose predecessor has a different key is the first with its key. */
  lemma FirstOfRun(t: seq<Choice>, i: int)
    requires SortedByKey(t)
    requires 0 <= i < |t|
    requires i == 0 || t[i - 1].queryString != t[i].queryString
    ensures First(t, t[i].queryString) == Some(t[i])
  {
    var k := t[i].queryString;
    forall j | 0 <= j < i
      ensures t[..i][j].queryString != k
    {
      RunBoundary(t, j, i);
    }
    WithKeyNone(t[..i], k);
    assert t == t[..i] + t[i..];
    WithKeyAppend(t[..i], t[i..], k);
  }

  /** In a sorted sequence, every entry before a change of key has a strictly smaller key than the entry after it. */
  lemma RunBoundary(t: seq<Choice>, j: int, i: int)
    requires SortedByKey(t)
    requires 0 <= j < i < |t|
    requires t[i - 1].queryString != t[i].queryString
    ensures StringOrder.Lt(t[j].queryString, t[i].queryString)
  {
    if t[j].queryString == t[i].queryString {
      StringOrder.LeAntisymmetric(t[i - 1].queryString, t[i].queryString);
    }
  }

  /** Reordering entries does not change which query strings occur. */
  lemma KeysOfPermutation(s: seq<Choice>, t: seq<Choice>)
    requires multiset(s) == multiset(t)
    ensures Keys(s) == Keys(t)
  {
    forall k | k in Keys(s) ensures k in Keys(t) {
      var c :| c in s && c.queryString == k;
      assert c in multiset(t);
    }
    forall k | k in Keys(t) ensures k in Keys(s) {
      var c :| c in t && c.queryString == k;
      assert c in multiset(s);
    }
  }

  lemma KeysAppend(s: seq<Choice>, x: Choice)
    ensures Keys(s + [x]) == Keys(s) + {x.queryString}
  {
    assert forall c :: c in s + [x] <==> c in s || c == x;
  }

  lemma KeysEmpty(s: seq<Choice>)
    ensures Keys(s) == {} <==> s == []
  {
    if s != [] {
      assert s[0].queryString in Keys(s);
    }
  }

  /** Because the sort is stable, the first entry with a given key is the same before and after sorting. */
  lemma SortByKeyKeepsFirst(s: seq<Choice>, k: string)
    ensures First(SortByKey(s), k) == First(s, k)
  {
    assert WithKey(SortByKey(s), k) == WithKey(s, k);
  }

  /** `First` picks the entry at the least index that carries the key. */
  lemma {:induction false} FirstIsLeastIndex(s: seq<Choice>, k: string, i: int)
    requires 0 <= i < |s| && s[i].queryString == k
    requires forall j :: 0 <= j < i ==> s[j].queryString != k
    ensures First(s, k) == Some(s[i])
  {
    if i > 0 {
      FirstIsLeastIndex(s[1..], k, i - 1);
    }
  }
}
