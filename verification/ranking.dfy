/**
 * Bestseller ranking: `books.sort((a, b) => b.copiesSold - a.copiesSold)` is a
 * stable sort, descending by copies sold, done in place; `topTwoBooks` is the
 * first two entries of the sorted list.
 */
module Ranking {
  import opened Wrappers
  import opened Records

  /** Inserts `x`, the element after `t` in the input, scanning `t` from its
      end: `x` moves left past every book that sold strictly fewer copies and
      stops behind the first one that sold at least as many (so ties keep
      their order). */
  function Insert(x: Book, t: seq<Book>): seq<Book>
    decreases |t|
  {
    if t == [] then [x]
    else if CopiesSold(t[|t| - 1]) >= CopiesSold(x) then t + [x]
    else Insert(x, t[..|t| - 1]) + [t[|t| - 1]]
  }

  /** The stable descending sort, as the left-to-right insertion sort. */
  function SortDesc(s: seq<Book>): seq<Book> {
    if s == [] then [] else Insert(s[|s| - 1], SortDesc(s[..|s| - 1]))
  }

  /** Non-increasing by copies sold. */
  ghost predicate SortedDesc(s: seq<Book>) {
    forall i, j :: 0 <= i < j < |s| ==> CopiesSold(s[i]) >= CopiesSold(s[j])
  }

  /** The books of `s` that sold exactly `k` copies, in their order in `s`. */
  function WithCopies(s: seq<Book>, k: int): seq<Book> {
    if s == [] then []
    else WithCopies(s[..|s| - 1], k) + (if CopiesSold(s[|s| - 1]) == k then [s[|s| - 1]] else [])
  }

  /** Appending one book extends its own group only. */
  lemma WithCopiesSnoc(s: seq<Book>, b: Book, k: int)
    ensures WithCopies(s + [b], k) == WithCopies(s, k) + (if CopiesSold(b) == k then [b] else [])
  {
    assert (s + [b])[..|s|] == s;
  }

  /** Inserting adds `x` and loses nothing. */
  lemma {:induction false} InsertPermutes(x: Book, t: seq<Book>)
    ensures multiset(Insert(x, t)) == multiset(t) + multiset{x}
    decreases |t|
  {
    if t != [] && CopiesSold(t[|t| - 1]) < CopiesSold(x) {
      var p, last := t[..|t| - 1], t[|t| - 1];
      assert t == p + [last];
      InsertPermutes(x, p);
    }
  }

  /** The sort is a permutation of its input. */
  lemma {:induction false} SortDescPermutes(s: seq<Book>)
    ensures multiset(SortDesc(s)) == multiset(s)
  {
    if s != [] {
      var p := s[..|s| - 1];
      assert s == p + [s[|s| - 1]];
      SortDescPermutes(p);
      InsertPermutes(s[|s| - 1], SortDesc(p));
    }
  }

  lemma SortedPrefix(u: seq<Book>, n: nat)
    requires SortedDesc(u) && n <= |u|
    ensures SortedDesc(u[..n])
  {
    assert forall i :: 0 <= i < n ==> u[..n][i] == u[i];
  }

  /** Every book of an insertion is `x` or a book of `t`. */
  lemma {:induction false} InsertMembers(x: Book, t: seq<Book>)
    ensures forall y :: y in Insert(x, t) ==> y == x || y in t
    decreases |t|
  {
    if t != [] && CopiesSold(t[|t| - 1]) < CopiesSold(x) {
      var p := t[..|t| - 1];
      InsertMembers(x, p);
      assert forall y :: y in p ==> y in t;
    }
  }

  /** A book that sold no more than every book of a sorted list can follow it. */
  lemma SortedSnoc(q: seq<Book>, b: Book)
    requires SortedDesc(q)
    requires forall y :: y in q ==> CopiesSold(y) >= CopiesSold(b)
    ensures SortedDesc(q + [b])
  {
    var r := q + [b];
    forall i, j | 0 <= i < j < |r| ensures CopiesSold(r[i]) >= CopiesSold(r[j]) {
      assert r[i] == q[i];
      if j < |q| { assert r[j] == q[j]; }
    }
  }

  /** Inserting keeps the sorted order. */
  lemma {:induction false} InsertSorted(x: Book, t: seq<Book>)
    requires SortedDesc(t)
    ensures SortedDesc(Insert(x, t))
    decreases |t|
  {
    if t == [] {
    } else if CopiesSold(t[|t| - 1]) >= CopiesSold(x) {
      forall y | y in t ensures CopiesSold(y) >= CopiesSold(x) {
        SortedLastIsLeast(t, y);
      }
      SortedSnoc(t, x);
    } else {
      var p, last := t[..|t| - 1], t[|t| - 1];
      SortedPrefix(t, |t| - 1);
      InsertSorted(x, p);
      InsertMembers(x, p);
      forall y | y in Insert(x, p) ensures CopiesSold(y) >= CopiesSold(last) {
        if y != x {
          var i :| 0 <= i < |p| && p[i] == y;
          assert t[i] == y;
        }
      }
      SortedSnoc(Insert(x, p), last);
    }
  }

  /** The sort's output is non-increasing by copies sold. */
  lemma {:induction false} SortDescSorted(s: seq<Book>)
    ensures SortedDesc(SortDesc(s))
  {
    if s != [] {
      SortDescSorted(s[..|s| - 1]);
      InsertSorted(s[|s| - 1], SortDesc(s[..|s| - 1]));
    }
  }

  /** Inserting `x` appends it to its own group and leaves every other group as
      it was: the insertion is stable. */
  lemma {:induction false} InsertStable(x: Book, t: seq<Book>, k: int)
    ensures WithCopies(Insert(x, t), k) == WithCopies(t + [x], k)
    decreases |t|
  {
    WithCopiesSnoc(t, x, k);
    if t != [] && CopiesSold(t[|t| - 1]) < CopiesSold(x) {
      var p, last := t[..|t| - 1], t[|t| - 1];
      assert t == p + [last];
      InsertStable(x, p, k);
      WithCopiesSnoc(Insert(x, p), last, k);
      WithCopiesSnoc(p, x, k);
      WithCopiesSnoc(p, last, k);
    }
  }

  /** Books that sold the same number of copies keep their relative order. */
  lemma {:induction false} SortDescStable(s: seq<Book>, k: int)
    ensures WithCopies(SortDesc(s), k) == WithCopies(s, k)
  {
    if s != [] {
      var p, last := s[..|s| - 1], s[|s| - 1];
      SortDescStable(p, k);
      InsertStable(last, SortDesc(p), k);
      var q := SortDesc(p);
      assert (q + [last])[..|q|] == q;
    }
  }

  lemma {:induction false} WithCopiesMembers(s: seq<Book>, k: int)
    ensures forall b :: b in WithCopies(s, k) ==> b in s && CopiesSold(b) == k
  {
    if s != [] {
      var p := s[..|s| - 1];
      assert s == p + [s[|s| - 1]];
      WithCopiesMembers(p, k);
    }
  }

  /** The last book of a sorted list sold no more than any book of the list. */
  lemma SortedLastIsLeast(u: seq<Book>, b: Book)
    requires SortedDesc(u) && b in u
    ensures CopiesSold(u[|u| - 1]) <= CopiesSold(b)
  {
    var i :| 0 <= i < |u| && u[i] == b;
  }

  lemma LastInOwnGroup(s: seq<Book>)
    requires s != []
    ensures s[|s| - 1] in WithCopies(s, CopiesSold(s[|s| - 1]))
  {
  }

  lemma DropLastGroups(u: seq<Book>, v: seq<Book>, k: int)
    requires u != [] && v != [] && u[|u| - 1] == v[|v| - 1]
    requires WithCopies(u, k) == WithCopies(v, k)
    ensures WithCopies(u[..|u| - 1], k) == WithCopies(v[..|v| - 1], k)
  {
    var last := u[|u| - 1];
    var wu, wv := WithCopies(u[..|u| - 1], k), WithCopies(v[..|v| - 1], k);
    if CopiesSold(last) == k {
      assert WithCopies(u, k) == wu + [last];
      assert WithCopies(v, k) == wv + [last];
      assert wu == (wu + [last])[..|wu|];
      assert wv == (wv + [last])[..|wv|];
    } else {
      assert WithCopies(u, k) == wu + [];
      assert WithCopies(v, k) == wv + [];
      assert wu + [] == wu && wv + [] == wv;
    }
  }

  /** Two non-empty sorted lists with the same groups end in the same book:
      both last books sold the least, so they close the same group. */
  lemma SortedGroupsSameLast(u: seq<Book>, v: seq<Book>)
    requires u != [] && v != [] && SortedDesc(u) && SortedDesc(v)
    requires forall k :: WithCopies(u, k) == WithCopies(v, k)
    ensures u[|u| - 1] == v[|v| - 1]
  {
    var a, b := u[|u| - 1], v[|v| - 1];
    assert CopiesSold(b) <= CopiesSold(a) by {
      LastInOwnGroup(u);
      assert WithCopies(u, CopiesSold(a)) == WithCopies(v, CopiesSold(a));
      WithCopiesMembers(v, CopiesSold(a));
      SortedLastIsLeast(v, a);
    }
    assert CopiesSold(a) <= CopiesSold(b) by {
      LastInOwnGroup(v);
      assert WithCopies(u, CopiesSold(b)) == WithCopies(v, CopiesSold(b));
      WithCopiesMembers(u, CopiesSold(b));
      SortedLastIsLeast(u, b);
    }
    var m := CopiesSold(a);
    var gu, gv := WithCopies(u[..|u| - 1], m), WithCopies(v[..|v| - 1], m);
    assert WithCopies(u, m) == gu + [a];
    assert WithCopies(v, m) == gv + [b];
    assert gu + [a] == gv + [b];
    assert (gu + [a])[|gu|] == a && (gv + [b])[|gv|] == b;
  }

  /** Two lists sorted by copies sold whose groups of equal copies sold agree
      are the same list. */
  lemma {:induction false} SortedGroupsDetermine(u: seq<Book>, v: seq<Book>)
    requires SortedDesc(u) && SortedDesc(v)
    requires forall k :: WithCopies(u, k) == WithCopies(v, k)
    ensures u == v
    decreases |u| + |v|
  {
    if u == [] && v == [] {
    } else if u == [] {
      LastInOwnGroup(v);
      assert false;
    } else if v == [] {
      LastInOwnGroup(u);
      assert false;
    } else {
      SortedGroupsSameLast(u, v);
      var u', v' := u[..|u| - 1], v[..|v| - 1];
      forall k ensures WithCopies(u', k) == WithCopies(v', k) {
        DropLastGroups(u, v, k);
      }
      SortedPrefix(u, |u| - 1);
      SortedPrefix(v, |v| - 1);
      SortedGroupsDetermine(u', v');
      assert u == u' + [u[|u| - 1]] && v == v' + [v[|v| - 1]];
    }
  }

  /** SortDesc is THE stable descending sort: any list ordered non-increasing
      by copies sold that keeps each group of equal copies sold in input order
      is SortDesc's output. */
  lemma StableSortUnique(s: seq<Book>, u: seq<Book>)
    requires SortedDesc(u)
    requires forall k :: WithCopies(u, k) == WithCopies(s, k)
    ensures u == SortDesc(s)
  {
    SortDescSorted(s);
    forall k ensures WithCopies(SortDesc(s), k) == WithCopies(u, k) {
      SortDescStable(s, k);
    }
    SortedGroupsDetermine(u, SortDesc(s));
  }

  /** Where `x` lands: behind the last book that sold at least as many
      copies, ahead of the trailing run of books that sold fewer. */
  lemma {:induction false} InsertLandsAt(x: Book, t: seq<Book>, j: nat)
    requires j <= |t| && (j == 0 || CopiesSold(t[j - 1]) >= CopiesSold(x))
    requires forall k :: j <= k < |t| ==> CopiesSold(t[k]) < CopiesSold(x)
    ensures Insert(x, t) == t[..j] + [x] + t[j..]
    decreases |t|
  {
    if j < |t| {
      var p, last := t[..|t| - 1], t[|t| - 1];
      InsertLandsAt(x, p, j);
      assert p[..j] == t[..j];
      assert t[j..] == p[j..] + [last];
    }
  }

  /** The array after one pass, read back: `x` at `j`, the prefix before it,
      the rest of the prefix shifted one place right. */
  lemma PlacedIsInsert(u: seq<Book>, t: seq<Book>, x: Book, j: nat)
    requires |u| == |t| + 1 && j <= |t| && u[j] == x
    requires forall k :: 0 <= k < j ==> u[k] == t[k]
    requires forall k :: j < k < |u| ==> u[k] == t[k - 1]
    requires j == 0 || CopiesSold(t[j - 1]) >= CopiesSold(x)
    requires forall k :: j <= k < |t| ==> CopiesSold(t[k]) < CopiesSold(x)
    ensures u == Insert(x, t)
  {
    var r := t[..j] + [x] + t[j..];
    forall k | 0 <= k < |u| ensures u[k] == r[k] {
      if k < j { assert r[k] == t[k]; }
      else if k > j { assert r[k] == t[k - 1]; }
    }
    InsertLandsAt(x, t, j);
  }

  /** One pass of the insertion sort: `a[i]` is moved left past every book
      of the prefix `a[..i]` that sold fewer copies. */
  method InsertAt(a: array<Book>, i: nat)
    requires i < a.Length
    modifies a
    ensures a[..i + 1] == Insert(old(a[i]), old(a[..i]))
    ensures a[i + 1..] == old(a[i + 1..])
  {
    var x := a[i];
    ghost var t := a[..i];
    var j := i;
    while j > 0 && CopiesSold(a[j - 1]) < CopiesSold(x)
      invariant 0 <= j <= i
      invariant forall k :: 0 <= k < j ==> a[k] == t[k]
      invariant forall k :: j < k <= i ==> a[k] == t[k - 1]
      invariant forall k :: j <= k < i ==> CopiesSold(t[k]) < CopiesSold(x)
      invariant forall k :: i < k < a.Length ==> a[k] == old(a[k])
    {
      a[j] := a[j - 1];
      j := j - 1;
    }
    a[j] := x;
    PlacedIsInsert(a[..i + 1], t, x, j);
  }

  /** The sort of a prefix one longer inserts the next book. */
  lemma SortDescStep(s: seq<Book>, i: nat)
    requires i < |s|
    ensures SortDesc(s[..i + 1]) == Insert(s[i], SortDesc(s[..i]))
  {
    assert s[..i + 1][..i] == s[..i] && s[..i + 1][i] == s[i];
  }

  /** Agreeing from `i` on means agreeing at `i` and from `i + 1` on. */
  lemma SuffixSplit(u: seq<Book>, v: seq<Book>, i: nat)
    requires i < |u| == |v| && u[i..] == v[i..]
    ensures u[i] == v[i] && u[i + 1..] == v[i + 1..]
  {
    assert u[i] == u[i..][0] && v[i] == v[i..][0];
    assert u[i + 1..] == u[i..][1..] && v[i + 1..] == v[i..][1..];
  }

  /** `books.sort(...)` in place: insertion sort, one `InsertAt` per position. */
  method SortByCopiesSold(a: array<Book>)
    modifies a
    ensures a[..] == SortDesc(old(a[..]))
  {
    ghost var input := a[..];
    var i := 0;
    while i < a.Length
      invariant 0 <= i <= a.Length
      invariant a[..i] == SortDesc(input[..i])
      invariant a[i..] == input[i..]
    {
      SortDescStep(input, i);
      SuffixSplit(a[..], input, i);
      InsertAt(a, i);
      i := i + 1;
    }
    assert input[..a.Length] == input;
  }

  /** The first two entries of a sorted list, or the only one: `slice(0, 2)`. */
  function TopTwo(sorted: seq<Book>): seq<Book> {
    sorted[..Min(2, |sorted|)]
  }

  /** One store after the ranking pass: a non-empty `books` list is sorted and
      `topTwoBooks` added; any other store is left alone. */
  function RankStore(s: Store): Store {
    if s.books.Some? && |s.books.value| > 0 then
      var sorted := SortDesc(s.books.value);
      s.(books := Some(sorted), topTwoBooks := Some(TopTwo(sorted)))
    else s
  }

  /** The ranking pass over all stores, in order. */
  function Rank(ss: seq<Store>): seq<Store> {
    if ss == [] then [] else Rank(ss[..|ss| - 1]) + [RankStore(ss[|ss| - 1])]
  }

  /** What ranking does to one store: the fields other than `books` and
      `topTwoBooks` stay, and `topTwoBooks` is added, as the first min(2, n)
      books of the sorted list, exactly when `books` is a non-empty list. */
  lemma RankStoreShape(s: Store)
    requires s.topTwoBooks.None?
    ensures var r := RankStore(s);
      && r.id == s.id && r.attributes == s.attributes && r.country == s.country
      && (r.books.None? <==> s.books.None?)
      && (r.topTwoBooks.Some? <==> s.books.Some? && |s.books.value| > 0)
      && (r.topTwoBooks.None? ==> r == s)
      && (r.topTwoBooks.Some? ==>
            |r.topTwoBooks.value| == Min(2, |s.books.value|) &&
            r.topTwoBooks.value == r.books.value[..|r.topTwoBooks.value|])
  {
    if s.books.Some? && |s.books.value| > 0 {
      SortDescPermutes(s.books.value);
      assert |multiset(SortDesc(s.books.value))| == |multiset(s.books.value)|;
    }
  }

  /** A ranked list is a permutation of the hydrated one, ordered
      non-increasing by copies sold, with ties in their hydration order. */
  lemma RankedBooks(s: Store, k: int)
    requires s.books.Some? && |s.books.value| > 0
    ensures var sorted := RankStore(s).books.value;
      && multiset(sorted) == multiset(s.books.value)
      && SortedDesc(sorted)
      && WithCopies(sorted, k) == WithCopies(s.books.value, k)
  {
    SortDescPermutes(s.books.value);
    SortDescSorted(s.books.value);
    SortDescStable(s.books.value, k);
  }

  /** The first of the top two sold at least as many copies as every hydrated
      book, and every ranked book left out of the top two sold at most as many
      as the last of them. */
  lemma TopTwoAreBestsellers(s: Store)
    requires s.books.Some? && |s.books.value| > 0
    ensures var r := RankStore(s);
      var sorted, top := r.books.value, r.topTwoBooks.value;
      && 0 < |top| <= |sorted|
      && (forall b :: b in s.books.value ==> CopiesSold(b) <= CopiesSold(top[0]))
      && (forall i :: |top| <= i < |sorted| ==> CopiesSold(sorted[i]) <= CopiesSold(top[|top| - 1]))
  {
    var sorted := SortDesc(s.books.value);
    SortDescSorted(s.books.value);
    SortDescPermutes(s.books.value);
    assert |multiset(sorted)| == |s.books.value|;
    forall b | b in s.books.value ensures CopiesSold(b) <= CopiesSold(sorted[0]) {
      assert b in multiset(sorted);
      var j :| 0 <= j < |sorted| && sorted[j] == b;
    }
  }

  lemma {:induction false} RankShape(ss: seq<Store>)
    ensures |Rank(ss)| == |ss|
    ensures forall i :: 0 <= i < |ss| ==> Rank(ss)[i] == RankStore(ss[i])
  {
    if ss != [] {
      RankShape(ss[..|ss| - 1]);
    }
  }

  /** Ranking a prefix one longer ranks the next store. */
  lemma RankStep(ss: seq<Store>, i: nat)
    requires i < |ss|
    ensures Rank(ss[..i + 1]) == Rank(ss[..i]) + [RankStore(ss[i])]
  {
    assert ss[..i + 1][..i] == ss[..i] && ss[..i + 1][i] == ss[i];
  }

  /** The ranking pass over the stores: each store is updated in turn, its
      books sorted in place and `topTwoBooks` sliced off. */
  method RankStores(stores: seq<Store>) returns (ranked: seq<Store>)
    ensures ranked == Rank(stores)
  {
    ranked := stores;
    var i := 0;
    while i < |ranked|
      invariant 0 <= i <= |ranked| == |stores|
      invariant ranked[..i] == Rank(stores[..i])
      invariant forall k :: i <= k < |ranked| ==> ranked[k] == stores[k]
    {
      var store := ranked[i];
      if store.books.Some? && |store.books.value| > 0 {
        var a := new Book[|store.books.value|](k requires 0 <= k < |store.books.value| => store.books.value[k]);
        assert a[..] == store.books.value;
        SortByCopiesSold(a);
        store := store.(books := Some(a[..]));
        store := store.(topTwoBooks := Some(a[..Min(2, a.Length)]));
      }
      assert store == RankStore(stores[i]);
      RankStep(stores, i);
      ranked := ranked[i := store];
      assert ranked[..i + 1] == ranked[..i] + [store];
      i := i + 1;
    }
    assert stores[..|stores|] == stores;
  }
}
