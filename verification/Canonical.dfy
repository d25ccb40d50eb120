/** `sort`, `sort_by`, `dedup` and `dedup_by` on a string key, as src/proxy_image.rs uses them. */
module Canonical {
  import opened Wrappers
  import opened Utf8

  /** Rust compares strings by their bytes. */
  predicate LexLe(a: seq<byte>, b: seq<byte>) {
    a == [] || (b != [] && (a[0] < b[0] || (a[0] == b[0] && LexLe(a[1..], b[1..]))))
  }

  predicate StrLe(a: string, b: string) { LexLe(Encode(a), Encode(b)) }

  predicate StrLt(a: string, b: string) { StrLe(a, b) && a != b }

  /** Position i is the first at which b has a higher byte than a or goes on after a. */
  ghost predicate FirstRise(a: seq<byte>, b: seq<byte>, i: nat) {
    i < |b| && i <= |a| && (forall j | 0 <= j < i :: a[j] == b[j]) && (i == |a| || a[i] < b[i])
  }

  /** One text is before another exactly when at the first difference of their UTF-8 it has the lower byte, or ends. */
  lemma StrLtExactly(a: string, b: string)
    ensures StrLt(a, b) <==> exists i: nat :: FirstRise(Encode(a), Encode(b), i)
  {
    LexExactly(Encode(a), Encode(b));
    if Encode(a) == Encode(b) { EncodeInjective(a, b); }
    if i: nat :| FirstRise(Encode(a), Encode(b), i) {
      assert Encode(a) != Encode(b);
    }
  }

  lemma {:induction false} LexExactly(a: seq<byte>, b: seq<byte>)
    ensures LexLe(a, b) <==> a == b || exists i: nat :: FirstRise(a, b, i)
  {
    if a == [] {
      if b != [] { assert FirstRise(a, b, 0); }
    } else if b != [] && a[0] < b[0] {
      assert FirstRise(a, b, 0);
    } else if b != [] && a[0] == b[0] {
      LexExactly(a[1..], b[1..]);
      assert a == [a[0]] + a[1..] && b == [b[0]] + b[1..];
      if i: nat :| FirstRise(a[1..], b[1..], i) {
        assert FirstRise(a, b, i + 1);
      }
      if i: nat :| FirstRise(a, b, i) {
        assert FirstRise(a[1..], b[1..], i - 1);
      }
    }
  }

  lemma {:induction false} LexTotal(a: seq<byte>, b: seq<byte>)
    ensures LexLe(a, b) || LexLe(b, a)
    ensures LexLe(a, b) && LexLe(b, a) ==> a == b
  {
    if a != [] && b != [] {
      LexTotal(a[1..], b[1..]);
      assert a == [a[0]] + a[1..] && b == [b[0]] + b[1..];
    }
  }

  lemma {:induction false} LexTransitive(a: seq<byte>, b: seq<byte>, c: seq<byte>)
    requires LexLe(a, b) && LexLe(b, c)
    ensures LexLe(a, c)
  {
    if a != [] && a[0] == b[0] == c[0] {
      LexTransitive(a[1..], b[1..], c[1..]);
    }
  }

  lemma StrOrder(a: string, b: string)
    ensures StrLe(a, b) || StrLe(b, a)
    ensures StrLe(a, b) && StrLe(b, a) ==> a == b
  {
    LexTotal(Encode(a), Encode(b));
    if StrLe(a, b) && StrLe(b, a) { EncodeInjective(a, b); }
  }

  /** A stable sort by key: an element goes after every one not above it. */
  function Insert<T>(key: T -> string, sorted: seq<T>, m: T): seq<T> {
    if sorted == [] || StrLe(key(sorted[|sorted| - 1]), key(m)) then sorted + [m]
    else Insert(key, sorted[..|sorted| - 1], m) + [sorted[|sorted| - 1]]
  }

  function StableSort<T>(key: T -> string, ms: seq<T>): seq<T> {
    if ms == [] then [] else Insert(key, StableSort(key, ms[..|ms| - 1]), ms[|ms| - 1])
  }

  /** `dedup_by` on equal keys keeps the first of each run. */
  function Dedup<T>(key: T -> string, ms: seq<T>): seq<T> {
    if |ms| < 2 then ms
    else
      var front := Dedup(key, ms[..|ms| - 1]);
      if key(ms[|ms| - 2]) == key(ms[|ms| - 1]) then front else front + [ms[|ms| - 1]]
  }

  ghost predicate Sorted<T(!new)>(key: T -> string, ms: seq<T>) {
    forall i, j | 0 <= i < j < |ms| :: StrLe(key(ms[i]), key(ms[j]))
  }

  ghost predicate StrictlySorted<T(!new)>(key: T -> string, ms: seq<T>) {
    forall i, j | 0 <= i < j < |ms| :: StrLt(key(ms[i]), key(ms[j]))
  }

  ghost function Keys<T(!new)>(key: T -> string, ms: seq<T>): set<string> { set m | m in ms :: key(m) }

  /** The first element pushed under a key. */
  function FirstAt<T>(key: T -> string, ms: seq<T>, k: string): Option<T> {
    if ms == [] then None
    else
      match FirstAt(key, ms[..|ms| - 1], k)
      case Some(m) => Some(m)
      case None => if key(ms[|ms| - 1]) == k then Some(ms[|ms| - 1]) else None
  }

  lemma {:induction false} FirstAtFound<T(!new)>(key: T -> string, ms: seq<T>, d: string)
    ensures FirstAt(key, ms, d).Some? <==> d in Keys(key, ms)
    ensures FirstAt(key, ms, d).Some? ==> FirstAt(key, ms, d).value in ms && key(FirstAt(key, ms, d).value) == d
  {
    if ms != [] {
      var n := |ms| - 1;
      FirstAtFound(key, ms[..n], d);
      assert ms == ms[..n] + [ms[n]];
      assert Keys(key, ms) == Keys(key, ms[..n]) + {key(ms[n])};
    }
  }

  ghost predicate AllLe<T(!new)>(key: T -> string, ms: seq<T>, d: string) { forall m | m in ms :: StrLe(key(m), d) }

  lemma SortedSnoc<T(!new)>(key: T -> string, front: seq<T>, last: T)
    ensures Sorted(key, front + [last]) <==> Sorted(key, front) && AllLe(key, front, key(last))
  {
    var s := front + [last];
    assert s[|front|] == last;
    if Sorted(key, s) {
      forall i, j | 0 <= i < j < |front| ensures StrLe(key(front[i]), key(front[j])) {
        assert s[i] == front[i] && s[j] == front[j];
      }
      forall m | m in front ensures StrLe(key(m), key(last)) {
        var i :| 0 <= i < |front| && front[i] == m;
        assert s[i] == m;
      }
    }
  }

  lemma {:induction false} InsertMultiset<T(!new)>(key: T -> string, sorted: seq<T>, m: T)
    ensures multiset(Insert(key, sorted, m)) == multiset(sorted) + multiset{m}
  {
    if sorted != [] {
      assert sorted == sorted[..|sorted| - 1] + [sorted[|sorted| - 1]];
      InsertMultiset(key, sorted[..|sorted| - 1], m);
    }
  }

  lemma AllLeMonotone<T(!new)>(key: T -> string, ms: seq<T>, d: string, e: string)
    requires AllLe(key, ms, d) && StrLe(d, e)
    ensures AllLe(key, ms, e)
  {
    forall m | m in ms ensures StrLe(key(m), e) {
      LexTransitive(Encode(key(m)), Encode(d), Encode(e));
    }
  }

  lemma {:induction false} InsertSorted<T(!new)>(key: T -> string, sorted: seq<T>, m: T)
    requires Sorted(key, sorted)
    ensures Sorted(key, Insert(key, sorted, m))
  {
    if sorted == [] {
      assert Insert(key, sorted, m) == [m];
    } else {
      var front, last := sorted[..|sorted| - 1], sorted[|sorted| - 1];
      assert sorted == front + [last];
      SortedSnoc(key, front, last);
      StrOrder(key(last), key(m));
      if StrLe(key(last), key(m)) {
        AllLeMonotone(key, front, key(last), key(m));
        SortedSnoc(key, sorted, m);
      } else {
        InsertSorted(key, front, m);
        InsertMultiset(key, front, m);
        var r := Insert(key, front, m);
        forall x | x in r ensures StrLe(key(x), key(last)) {
          assert x in multiset(r);
          assert x in front || x == m;
        }
        SortedSnoc(key, r, last);
      }
    }
  }

  lemma {:induction false} InsertFirst<T(!new)>(key: T -> string, sorted: seq<T>, m: T, d: string)
    ensures FirstAt(key, Insert(key, sorted, m), d) == FirstAt(key, sorted + [m], d)
  {
    assert (sorted + [m])[..|sorted|] == sorted;
    if sorted != [] {
      var front, last := sorted[..|sorted| - 1], sorted[|sorted| - 1];
      if !StrLe(key(last), key(m)) {
        StrOrder(key(last), key(m));
        StrReflexive(key(m));
        InsertFirst(key, front, m, d);
        var r := Insert(key, front, m);
        assert (r + [last])[..|r|] == r;
        assert (front + [m])[..|front|] == front;
      }
    }
  }

  lemma StrReflexive(d: string)
    ensures StrLe(d, d)
  {
    LexTotal(Encode(d), Encode(d));
  }

  /** Sorting orders the material, loses and invents nothing, and is stable: the first
      pushed under each key is still the first. */
  lemma {:induction false} SortKeeps<T(!new)>(key: T -> string, ms: seq<T>, d: string)
    ensures Sorted(key, StableSort(key, ms)) && multiset(StableSort(key, ms)) == multiset(ms)
    ensures FirstAt(key, StableSort(key, ms), d) == FirstAt(key, ms, d)
  {
    if ms != [] {
      var front, last := ms[..|ms| - 1], ms[|ms| - 1];
      assert ms == front + [last];
      SortKeeps(key, front, d);
      var s := StableSort(key, front);
      InsertSorted(key, s, last);
      InsertMultiset(key, s, last);
      InsertFirst(key, s, last, d);
      assert (s + [last])[..|s|] == s;
    }
  }

  ghost predicate AllLt<T(!new)>(key: T -> string, ms: seq<T>, d: string) { forall m | m in ms :: StrLt(key(m), d) }

  lemma StrictSnoc<T(!new)>(key: T -> string, front: seq<T>, last: T)
    requires StrictlySorted(key, front) && AllLt(key, front, key(last))
    ensures StrictlySorted(key, front + [last])
  {
  }

  lemma StrictLast<T(!new)>(key: T -> string, ms: seq<T>, d: string)
    requires StrictlySorted(key, ms) && (ms != [] ==> StrLt(key(ms[|ms| - 1]), d))
    ensures AllLt(key, ms, d)
  {
    forall m | m in ms ensures StrLt(key(m), d) {
      var i :| 0 <= i < |ms| && ms[i] == m;
      if i < |ms| - 1 {
        var e := key(ms[|ms| - 1]);
        LexTransitive(Encode(key(m)), Encode(e), Encode(d));
        if key(m) == d { StrOrder(d, e); }
      }
    }
  }

  lemma {:induction false} DedupStrict<T(!new)>(key: T -> string, ms: seq<T>)
    requires Sorted(key, ms)
    ensures StrictlySorted(key, Dedup(key, ms))
    ensures ms != [] ==> Dedup(key, ms) != [] && key(Dedup(key, ms)[|Dedup(key, ms)| - 1]) == key(ms[|ms| - 1])
  {
    if |ms| >= 2 {
      var n := |ms| - 1;
      var front, last := ms[..n], ms[n];
      assert Sorted(key, front) && StrLe(key(ms[n - 1]), key(last));
      hide Sorted, StrictlySorted, StrLe;
      DedupStrict(key, front);
      if key(ms[n - 1]) != key(last) {
        StrictLast(key, Dedup(key, front), key(last));
        StrictSnoc(key, Dedup(key, front), last);
      }
    }
  }

  lemma KeysSnoc<T(!new)>(key: T -> string, front: seq<T>, last: T)
    ensures Keys(key, front + [last]) == Keys(key, front) + {key(last)}
  {
  }

  lemma {:induction false} DedupKeys<T(!new)>(key: T -> string, ms: seq<T>)
    ensures Keys(key, Dedup(key, ms)) == Keys(key, ms)
  {
    if |ms| >= 2 {
      var n := |ms| - 1;
      var front, last := ms[..n], ms[n];
      DedupKeys(key, front);
      assert ms == front + [last];
      KeysSnoc(key, front, last);
      KeysSnoc(key, Dedup(key, front), last);
      assert front[n - 1] in front;
    }
  }

  lemma FirstAtSnoc<T(!new)>(key: T -> string, front: seq<T>, last: T, d: string)
    ensures FirstAt(key, front + [last], d)
         == if FirstAt(key, front, d).Some? then FirstAt(key, front, d) else if key(last) == d then Some(last) else None
  {
    assert (front + [last])[..|front|] == front;
  }

  lemma {:induction false} DedupFirst<T(!new)>(key: T -> string, ms: seq<T>, d: string)
    ensures FirstAt(key, Dedup(key, ms), d) == FirstAt(key, ms, d)
  {
    if |ms| >= 2 {
      var n := |ms| - 1;
      var front, last := ms[..n], ms[n];
      DedupFirst(key, front, d);
      assert ms == front + [last];
      FirstAtSnoc(key, front, last, d);
      if key(ms[n - 1]) == key(last) {
        assert front[n - 1] in front;
        FirstAtFound(key, front, d);
      } else {
        FirstAtSnoc(key, Dedup(key, front), last, d);
      }
    }
  }


  ghost predicate Within<T(!new)>(a: seq<T>, b: seq<T>) { forall x | x in a :: x in b }

  lemma SameLast<T(!new)>(key: T -> string, a: seq<T>, b: seq<T>)
    requires StrictlySorted(key, a) && StrictlySorted(key, b) && a != [] && b != []
    requires a[|a| - 1] in b && b[|b| - 1] in a
    ensures a[|a| - 1] == b[|b| - 1]
  {
    var m, n := |a| - 1, |b| - 1;
    var i :| 0 <= i < |b| && b[i] == a[m];
    var j :| 0 <= j < |a| && a[j] == b[n];
    if i < n && j < m {
      assert StrLt(key(b[i]), key(b[n])) && StrLt(key(a[j]), key(a[m]));
      StrOrder(key(a[m]), key(b[n]));
    }
  }

  lemma WithoutLast<T(!new)>(key: T -> string, a: seq<T>, b: seq<T>)
    requires StrictlySorted(key, a) && a != [] && b != [] && a[|a| - 1] == b[|b| - 1]
    requires Within(a, b)
    ensures StrictlySorted(key, a[..|a| - 1])
    ensures Within(a[..|a| - 1], b[..|b| - 1])
  {
    var m, n := |a| - 1, |b| - 1;
    forall x | x in a[..m] ensures x in b[..n] {
      var k :| 0 <= k < m && a[k] == x;
      assert StrLt(key(a[k]), key(a[m]));
      assert a[k] != a[m] by { if a[k] == a[m] { StrOrder(key(a[k]), key(a[m])); } }
      assert a[k] in a;
      assert x in b;
      var l :| 0 <= l < |b| && b[l] == x;
    }
  }

  /** Sorted and deduplicated material is determined by its members alone. */
  lemma {:induction false} StrictUnique<T(!new)>(key: T -> string, a: seq<T>, b: seq<T>)
    requires StrictlySorted(key, a) && StrictlySorted(key, b)
    requires Within(a, b) && Within(b, a)
    ensures a == b
  {
    assert a != [] ==> a[0] in a;
    assert b != [] ==> b[0] in b;
    if a != [] && b != [] {
      var m, n := |a| - 1, |b| - 1;
      hide StrLt;
      SameLast(key, a, b);
      WithoutLast(key, a, b);
      WithoutLast(key, b, a);
      StrictUnique(key, a[..m], b[..n]);
      assert a == a[..m] + [a[m]] && b == b[..n] + [b[n]];
    }
  }

  /** What sorting and deduplicating yields: strictly increasing keys, exactly the keys that
      were pushed, and under each key the element pushed first. */
  lemma SortedDedup<T(!new)>(key: T -> string, ms: seq<T>)
    ensures var r := Dedup(key, StableSort(key, ms));
            && StrictlySorted(key, r)
            && Keys(key, r) == Keys(key, ms)
            && forall x | x in r :: FirstAt(key, ms, key(x)) == Some(x)
  {
    var sorted := StableSort(key, ms);
    var r := Dedup(key, sorted);
    hide StableSort, Dedup, Sorted, StrictlySorted, FirstAt, Keys;
    SortKeeps(key, ms, "");
    DedupStrict(key, sorted);
    DedupKeys(key, sorted);
    SameKeys(key, sorted, ms);
    forall x | x in r ensures FirstAt(key, ms, key(x)) == Some(x) {
      SortKeeps(key, ms, key(x));
      DedupFirst(key, sorted, key(x));
      FirstOfStrict(key, r, x);
    }
  }

  lemma SameKeys<T(!new)>(key: T -> string, a: seq<T>, b: seq<T>)
    requires multiset(a) == multiset(b)
    ensures Keys(key, a) == Keys(key, b)
  {
    forall x ensures x in a <==> x in b {
      assert x in a <==> x in multiset(a);
      assert x in b <==> x in multiset(b);
    }
  }

  lemma FirstOfStrict<T(!new)>(key: T -> string, r: seq<T>, x: T)
    requires StrictlySorted(key, r) && x in r
    ensures FirstAt(key, r, key(x)) == Some(x)
  {
    FirstAtFound(key, r, key(x));
    var y := FirstAt(key, r, key(x)).value;
    var i :| 0 <= i < |r| && r[i] == x;
    var j :| 0 <= j < |r| && r[j] == y;
  }
}
