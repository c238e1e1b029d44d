/**
 * Pooling the entries of every catalogue page and ordering them for the
 * data file (scripts/scrape.ts, `main`): the pages' entries are appended in
 * the order the pages finish, then sorted with
 * `(a, b) => (a.id === -1 ? 1 : a.id) - (b.id === -1 ? 1 : b.id)`.
 *
 * `Array.prototype.sort` is stable, so its result is determined by the
 * comparator: elements in non-decreasing key order, equal keys in pool order.
 * `SortByKey` is a stable insertion sort with that result.
 */
module Aggregator {
  import opened Wrappers
  import opened Extractor

  /** The sort key: an entry without a number sorts as if it were number 1. */
  function SortKey(y: Yokai): int {
    if y.id == -1 then 1 else y.id
  }

  predicate SortedByKey(s: seq<Yokai>) {
    forall i, j :: 0 <= i < j < |s| ==> SortKey(s[i]) <= SortKey(s[j])
  }

  /** The entries with key `k`, in their order in `s`. */
  function WithKey(s: seq<Yokai>, k: int): (r: seq<Yokai>)
    ensures |r| <= |s|
  {
    if s == [] then []
    else (if SortKey(s[0]) == k then [s[0]] else []) + WithKey(s[1..], k)
  }

  /** Places `y` in front of the first element whose key is not smaller. */
  function Insert(y: Yokai, s: seq<Yokai>): seq<Yokai> {
    if s == [] || SortKey(y) <= SortKey(s[0]) then [y] + s
    else [s[0]] + Insert(y, s[1..])
  }

  /** The pool in the order the stable sort leaves it. */
  function SortByKey(s: seq<Yokai>): seq<Yokai> {
    if s == [] then [] else Insert(s[0], SortByKey(s[1..]))
  }

  /** A sorted run stays sorted behind an element whose key is at most every key in it. */
  lemma SortedCons(x: Yokai, r: seq<Yokai>)
    requires SortedByKey(r)
    requires forall z :: z in r ==> SortKey(x) <= SortKey(z)
    ensures SortedByKey([x] + r)
  {
    forall i, j | 0 <= i < j < |[x] + r| ensures SortKey(([x] + r)[i]) <= SortKey(([x] + r)[j]) {
      assert ([x] + r)[j] == r[j - 1];
      if i > 0 {
        assert ([x] + r)[i] == r[i - 1];
      }
    }
  }

  /** Inserting adds exactly one element. */
  lemma {:induction false} InsertMultiset(y: Yokai, s: seq<Yokai>)
    ensures multiset(Insert(y, s)) == multiset(s) + multiset{y}
  {
    if s != [] && SortKey(y) > SortKey(s[0]) {
      InsertMultiset(y, s[1..]);
      assert s == [s[0]] + s[1..];
    }
  }

  /** Behind the first element of a sorted run comes a sorted run of keys no smaller than its key. */
  lemma SortedTail(s: seq<Yokai>)
    requires SortedByKey(s) && s != []
    ensures SortedByKey(s[1..])
    ensures forall z :: z in s ==> SortKey(s[0]) <= SortKey(z)
  {
    var t := s[1..];
    forall i, j | 0 <= i < j < |t| ensures SortKey(t[i]) <= SortKey(t[j]) {
      assert t[i] == s[i + 1] && t[j] == s[j + 1];
    }
    forall z | z in s ensures SortKey(s[0]) <= SortKey(z) {
      var i :| 0 <= i < |s| && s[i] == z;
      assert SortKey(s[0]) <= SortKey(s[i]);
    }
  }

  /** Inserting into a sorted run keeps it sorted and adds exactly one element. */
  lemma {:induction false} InsertSorted(y: Yokai, s: seq<Yokai>)
    requires SortedByKey(s)
    ensures SortedByKey(Insert(y, s))
    ensures multiset(Insert(y, s)) == multiset(s) + multiset{y}
  {
    InsertMultiset(y, s);
    if s == [] {
      SortedCons(y, s);
    } else if SortKey(y) <= SortKey(s[0]) {
      SortedTail(s);
      SortedCons(y, s);
    } else {
      var t := s[1..];
      SortedTail(s);
      InsertSorted(y, t);
      var r := Insert(y, t);
      InsertMultiset(y, t);
      forall z | z in r ensures SortKey(s[0]) <= SortKey(z) {
        assert z in multiset(r);
        assert z == y || z in multiset(t);
        assert z in t ==> z in s;
      }
      SortedCons(s[0], r);
    }
  }

  /** The sort's result is ordered by key. */
  lemma {:induction false} SortByKeySorted(s: seq<Yokai>)
    ensures SortedByKey(SortByKey(s))
    ensures multiset(SortByKey(s)) == multiset(s)
  {
    if s != [] {
      SortByKeySorted(s[1..]);
      InsertSorted(s[0], SortByKey(s[1..]));
      assert s == [s[0]] + s[1..];
    }
  }

  /** Inserting `y` adds it in front of the entries of its own key and leaves the other keys alone. */
  lemma {:induction false} WithKeyInsert(y: Yokai, s: seq<Yokai>, k: int)
    ensures WithKey(Insert(y, s), k) == (if SortKey(y) == k then [y] else []) + WithKey(s, k)
  {
    if s == [] || SortKey(y) <= SortKey(s[0]) {
      assert ([y] + s)[1..] == s;
    } else {
      WithKeyInsert(y, s[1..], k);
      assert ([s[0]] + Insert(y, s[1..]))[1..] == Insert(y, s[1..]);
      if SortKey(y) == k {
        assert SortKey(s[0]) != k;
      }
    }
  }

  /** Stability: for every key, the entries with that key keep their pool order. */
  lemma {:induction false} SortByKeyStable(s: seq<Yokai>, k: int)
    ensures WithKey(SortByKey(s), k) == WithKey(s, k)
  {
    if s != [] {
      SortByKeyStable(s[1..], k);
      WithKeyInsert(s[0], SortByKey(s[1..]), k);
    }
  }

  /** An element is in the run of its key exactly when it is in the sequence. */
  lemma {:induction false} InWithKey(s: seq<Yokai>, y: Yokai)
    ensures y in WithKey(s, SortKey(y)) <==> y in s
  {
    if s != [] {
      InWithKey(s[1..], y);
      assert s == [s[0]] + s[1..];
    }
  }

  /** A key that occurs in a sorted sequence is not smaller than its first key. */
  lemma {:induction false} FirstKeyIsLeast(s: seq<Yokai>, k: int)
    requires SortedByKey(s) && s != [] && WithKey(s, k) != []
    ensures SortKey(s[0]) <= k
    ensures SortKey(s[0]) == k ==> WithKey(s, k)[0] == s[0]
  {
    if SortKey(s[0]) != k {
      var w := WithKey(s, k)[0];
      InWithKeyMember(s, k, w);
    }
  }

  /** Every entry of a key's run has that key and comes from the sequence. */
  lemma {:induction false} InWithKeyMember(s: seq<Yokai>, k: int, w: Yokai)
    requires w in WithKey(s, k)
    ensures SortKey(w) == k && w in s
  {
    if s != [] {
      if w in WithKey(s[1..], k) {
        InWithKeyMember(s[1..], k, w);
      }
    }
  }

  /** A sequence is empty exactly when every key's run is. */
  lemma EmptyIffNoKeys(s: seq<Yokai>)
    ensures s == [] <==> forall k :: WithKey(s, k) == []
  {
    if s != [] {
      assert WithKey(s, SortKey(s[0])) != [];
    }
  }

  /**
   * A stable sort has only one possible result: two sequences ordered by key
   * whose entries of each key come in the same order are equal.
   */
  lemma {:induction false} SortedUnique(a: seq<Yokai>, b: seq<Yokai>)
    requires SortedByKey(a) && SortedByKey(b)
    requires forall k :: WithKey(a, k) == WithKey(b, k)
    ensures a == b
    decreases |a|
  {
    if a == [] || b == [] {
      EmptyIffNoKeys(a);
      EmptyIffNoKeys(b);
    } else {
      var ka, kb := SortKey(a[0]), SortKey(b[0]);
      assert WithKey(a, ka) != [] && WithKey(b, kb) != [];
      FirstKeyIsLeast(b, ka);
      FirstKeyIsLeast(a, kb);
      assert ka == kb;
      assert a[0] == b[0];
      forall k ensures WithKey(a[1..], k) == WithKey(b[1..], k) {
        var p := if ka == k then [a[0]] else [];
        assert WithKey(a, k) == p + WithKey(a[1..], k);
        assert WithKey(b, k) == p + WithKey(b[1..], k);
        assert (p + WithKey(a[1..], k))[|p|..] == WithKey(a[1..], k);
        assert (p + WithKey(b[1..], k))[|p|..] == WithKey(b[1..], k);
      }
      SortedUnique(a[1..], b[1..]);
      assert a == [a[0]] + a[1..] && b == [b[0]] + b[1..];
    }
  }

  /** Any ordering by key that keeps each key's entries in pool order is the one `SortByKey` gives. */
  lemma SortByKeyIsTheStableSort(s: seq<Yokai>, t: seq<Yokai>)
    requires SortedByKey(t)
    requires forall k :: WithKey(t, k) == WithKey(s, k)
    ensures t == SortByKey(s)
  {
    SortByKeySorted(s);
    forall k ensures WithKey(t, k) == WithKey(SortByKey(s), k) {
      SortByKeyStable(s, k);
    }
    SortedUnique(t, SortByKey(s));
  }

  /** The entries of all pages, in the order the pages were appended. */
  function Flatten(pages: seq<seq<Yokai>>): (r: seq<Yokai>)
    decreases |pages|
  {
    if pages == [] then [] else Flatten(pages[..|pages| - 1]) + pages[|pages| - 1]
  }

  /** An entry is pooled exactly when some page produced it. */
  lemma {:induction false} InFlatten(pages: seq<seq<Yokai>>, y: Yokai)
    ensures y in Flatten(pages) <==> exists p :: 0 <= p < |pages| && y in pages[p]
    decreases |pages|
  {
    if pages != [] {
      var init := pages[..|pages| - 1];
      InFlatten(init, y);
      if y in Flatten(init) {
        var p :| 0 <= p < |init| && y in init[p];
        assert pages[p] == init[p];
      }
      assert forall p :: 0 <= p < |init| ==> pages[p] == init[p];
    }
  }

  /**
   * `main` after the downloads: append each page's entries to the pool in
   * completion order, then sort the pool.
   */
  method Aggregate(pages: seq<seq<Yokai>>) returns (all: seq<Yokai>)
    ensures all == SortByKey(Flatten(pages))
    ensures SortedByKey(all) && multiset(all) == multiset(Flatten(pages))
    ensures forall k :: WithKey(all, k) == WithKey(Flatten(pages), k)
  {
    var pool: seq<Yokai> := [];
    var n := 0;
    while n < |pages|
      invariant 0 <= n <= |pages|
      invariant pool == Flatten(pages[..n])
    {
      assert pages[..n + 1][..n] == pages[..n];
      pool := pool + pages[n];
      n := n + 1;
    }
    assert pages[..n] == pages;
    all := SortByKey(pool);
    SortByKeySorted(pool);
    forall k ensures WithKey(all, k) == WithKey(pool, k) {
      SortByKeyStable(pool, k);
    }
  }

  function Entry(id: int, name: string): Yokai {
    Yokai(id, name, None, None, None, None, "")
  }

  /**
   * Entries without a number sort together with entry 1, in pool order, not
   * at the end: of the three entries with key 1, `b` and `d` (no number)
   * and `e` (number 1) keep the order they had in the pool.
   */
  lemma SortExample()
    ensures SortByKey([Entry(5, "a"), Entry(-1, "b"), Entry(2, "c"), Entry(-1, "d"), Entry(1, "e")])
            == [Entry(-1, "b"), Entry(-1, "d"), Entry(1, "e"), Entry(2, "c"), Entry(5, "a")]
  {
    var A, B, C, D, E := Entry(5, "a"), Entry(-1, "b"), Entry(2, "c"), Entry(-1, "d"), Entry(1, "e");
    var s := [A, B, C, D, E];
    assert s[1..] == [B, C, D, E];
    assert s[2..] == [C, D, E];
    assert s[3..] == [D, E];
    assert s[4..] == [E];
    assert SortByKey([E]) == [E];
    assert SortByKey(s[3..]) == [D, E];
    assert Insert(C, [E]) == [E, C] by {
      assert [E][1..] == [];
    }
    assert Insert(C, [D, E]) == [D, E, C] by {
      assert [D, E][1..] == [E];
    }
    assert SortByKey(s[2..]) == [D, E, C];
    assert SortByKey(s[1..]) == [B, D, E, C];
    assert Insert(A, [B, D, E, C]) == [B, D, E, C, A] by {
      assert [B, D, E, C][1..] == [D, E, C];
      assert [D, E, C][1..] == [E, C];
      assert [E, C][1..] == [C];
      assert [C][1..] == [];
    }
  }
}
