/** `sorted` as insertion into what is sorted already, for values compared by a real key. */
module Sorting {
  type Key<!T> = T -> real

  predicate IsAscending<T>(key: Key<T>, s: seq<T>) {
    forall i, j :: 0 <= i <= j < |s| ==> key(s[i]) <= key(s[j])
  }

  predicate IsStrictlyAscending<T>(key: Key<T>, s: seq<T>) {
    forall i, j :: 0 <= i < j < |s| ==> key(s[i]) < key(s[j])
  }

  predicate HasDistinctKeys<T>(key: Key<T>, s: seq<T>) {
    forall i, j :: 0 <= i < j < |s| ==> key(s[i]) != key(s[j])
  }

  function Insert<T>(key: Key<T>, x: T, s: seq<T>): seq<T> {
    if s == [] || key(x) <= key(s[0]) then [x] + s else [s[0]] + Insert(key, x, s[1..])
  }

  function Sort<T>(key: Key<T>, s: seq<T>): seq<T> {
    if s == [] then [] else Insert(key, s[0], Sort(key, s[1..]))
  }

  lemma {:induction false} InsertMembers<T>(key: Key<T>, x: T, s: seq<T>)
    ensures |Insert(key, x, s)| == |s| + 1
    ensures forall i :: 0 <= i < |Insert(key, x, s)| ==> Insert(key, x, s)[i] == x || Insert(key, x, s)[i] in s
  {
    if s != [] && key(s[0]) < key(x) {
      InsertMembers(key, x, s[1..]);
    }
  }

  lemma {:induction false} InsertAscends<T>(key: Key<T>, x: T, s: seq<T>)
    requires IsAscending(key, s)
    ensures IsAscending(key, Insert(key, x, s))
  {
    if s != [] && key(s[0]) < key(x) {
      var rest := Insert(key, x, s[1..]);
      InsertAscends(key, x, s[1..]);
      InsertMembers(key, x, s[1..]);
      forall i | 0 <= i < |rest| ensures key(s[0]) <= key(rest[i]) {
        if rest[i] in s[1..] {
          var k :| 1 <= k < |s| && s[k] == rest[i];
        }
      }
    }
  }

  lemma {:induction false} SortAscends<T>(key: Key<T>, s: seq<T>)
    ensures IsAscending(key, Sort(key, s)) && |Sort(key, s)| == |s|
    ensures forall i :: 0 <= i < |Sort(key, s)| ==> Sort(key, s)[i] in s
  {
    if s != [] {
      SortAscends(key, s[1..]);
      InsertAscends(key, s[0], Sort(key, s[1..]));
      InsertMembers(key, s[0], Sort(key, s[1..]));
    }
  }

  lemma {:induction false} InsertStrictly<T>(key: Key<T>, x: T, s: seq<T>)
    requires IsStrictlyAscending(key, s) && forall i :: 0 <= i < |s| ==> key(s[i]) != key(x)
    ensures IsStrictlyAscending(key, Insert(key, x, s))
  {
    if s != [] {
      if key(s[0]) < key(x) {
        var rest := Insert(key, x, s[1..]);
        InsertStrictly(key, x, s[1..]);
        InsertMembers(key, x, s[1..]);
        forall i | 0 <= i < |rest| ensures key(s[0]) < key(rest[i]) {
          if rest[i] in s[1..] {
            var k :| 1 <= k < |s| && s[k] == rest[i];
          }
        }
      }
    }
  }

  lemma {:induction false} SortStrictly<T>(key: Key<T>, s: seq<T>)
    requires HasDistinctKeys(key, s)
    ensures IsStrictlyAscending(key, Sort(key, s))
  {
    if s != [] {
      SortStrictly(key, s[1..]);
      SortAscends(key, s[1..]);
      var rest := Sort(key, s[1..]);
      forall i | 0 <= i < |rest| ensures key(rest[i]) != key(s[0]) {
        assert rest[i] in s[1..];
        var k :| 1 <= k < |s| && s[k] == rest[i];
      }
      InsertStrictly(key, s[0], Sort(key, s[1..]));
    }
  }

  lemma {:induction false} InsertPermutes<T>(key: Key<T>, x: T, s: seq<T>)
    ensures multiset(Insert(key, x, s)) == multiset(s) + multiset{x}
  {
    if s != [] && key(s[0]) < key(x) {
      InsertPermutes(key, x, s[1..]);
      assert s == [s[0]] + s[1..];
    }
  }

  lemma {:induction false} SortPermutes<T>(key: Key<T>, s: seq<T>)
    ensures multiset(Sort(key, s)) == multiset(s)
  {
    if s != [] {
      SortPermutes(key, s[1..]);
      InsertPermutes(key, s[0], Sort(key, s[1..]));
      assert s == [s[0]] + s[1..];
    }
  }

  /* ---------- Sorting ignores the order ---------- */

  /** Values with one key are one value. */
  ghost predicate IsExact<T(!new)>(key: Key<T>) {
    forall x, y :: key(x) == key(y) ==> x == y
  }

  lemma {:induction false} InsertsCommute<T(!new)>(key: Key<T>, x: T, y: T, s: seq<T>)
    requires IsExact(key)
    ensures Insert(key, x, Insert(key, y, s)) == Insert(key, y, Insert(key, x, s))
  {
    if s != [] && key(s[0]) < key(x) && key(s[0]) < key(y) {
      InsertsCommute(key, x, y, s[1..]);
    }
  }

  /** It does not matter where in the list a value stands. */
  lemma {:induction false} SortAnywhere<T(!new)>(key: Key<T>, a: seq<T>, x: T, b: seq<T>)
    requires IsExact(key)
    ensures Sort(key, a + [x] + b) == Insert(key, x, Sort(key, a + b))
  {
    if a == [] {
      assert ([] + [x] + b)[1..] == b && [] + b == b;
    } else {
      assert (a + [x] + b)[1..] == a[1..] + [x] + b;
      assert (a + b)[1..] == a[1..] + b;
      SortAnywhere(key, a[1..], x, b);
      InsertsCommute(key, x, a[0], Sort(key, a[1..] + b));
    }
  }

  lemma WithoutOne<T>(b: seq<T>, k: nat)
    requires k < |b|
    ensures multiset(b[..k] + b[k + 1..]) == multiset(b) - multiset{b[k]}
    ensures b == b[..k] + [b[k]] + b[k + 1..]
  {
    assert b == b[..k] + [b[k]] + b[k + 1..];
  }

  lemma WithoutFirst<T>(a: seq<T>)
    requires a != []
    ensures multiset(a[1..]) == multiset(a) - multiset{a[0]}
  {
    WithoutOne(a, 0);
    assert a[..0] + a[1..] == a[1..];
  }

  /** Sorting depends only on which values there are, and how often. */
  lemma {:induction false} SortIgnoresOrder<T(!new)>(key: Key<T>, a: seq<T>, b: seq<T>)
    requires IsExact(key) && multiset(a) == multiset(b)
    ensures Sort(key, a) == Sort(key, b)
  {
    if a == [] {
      assert |multiset(b)| == |b|;
    } else {
      assert a[0] in multiset(b);
      var k :| 0 <= k < |b| && b[k] == a[0];
      WithoutFirst(a);
      WithoutOne(b, k);
      SortIgnoresOrder(key, a[1..], b[..k] + b[k + 1..]);
      SortAnywhere(key, b[..k], a[0], b[k + 1..]);
    }
  }
}
