/**
  The list view of inventory/views.py: every record ordered by name
  (`order_by('name')`, which replaces the default name-then-composition
  ordering), served in pages of 20 the way Django's paginator numbers them.
*/
module Views {
  import opened Wrappers
  import opened Models

  // ---------------------------------------------------------------------
  // Ordering by name

  predicate SortedByName(s: seq<Medicine>)
  {
    forall i, j :: 0 <= i < j < |s| ==> TextLe(s[i].name, s[j].name)
  }

  /** What `order_by('name')` promises: the same records, names non-decreasing. */
  predicate OrderedByName(rows: seq<Medicine>, r: seq<Medicine>)
  {
    multiset(r) == multiset(rows) && SortedByName(r)
  }

  /** Places `m` before the first record whose name `m`'s name does not exceed. */
  function InsertByName(m: Medicine, s: seq<Medicine>): seq<Medicine>
  {
    if s == [] then [m]
    else if TextLe(m.name, s[0].name) then [m] + s
    else [s[0]] + InsertByName(m, s[1..])
  }

  /** One ordering that meets the promise; which of tied records comes first is not specified. */
  function SortByName(rows: seq<Medicine>): seq<Medicine>
  {
    if rows == [] then [] else InsertByName(rows[0], SortByName(rows[1..]))
  }

  /** Every name in `s` is at least `x`. */
  predicate NamesAtLeast(x: string, s: seq<Medicine>)
  {
    forall i :: 0 <= i < |s| ==> TextLe(x, s[i].name)
  }

  lemma SortedCons(h: Medicine, t: seq<Medicine>)
    ensures SortedByName([h] + t) <==> SortedByName(t) && NamesAtLeast(h.name, t)
  {
    var r := [h] + t;
    if SortedByName(t) && NamesAtLeast(h.name, t) {
      forall i, j | 0 <= i < j < |r| ensures TextLe(r[i].name, r[j].name) {
        assert r[j] == t[j - 1];
        if i > 0 { assert r[i] == t[i - 1]; }
      }
    }
    if SortedByName(r) {
      forall i, j | 0 <= i < j < |t| ensures TextLe(t[i].name, t[j].name) {
        assert r[i + 1] == t[i] && r[j + 1] == t[j];
      }
      forall j | 0 <= j < |t| ensures TextLe(h.name, t[j].name) {
        assert r[0] == h && r[j + 1] == t[j];
        assert TextLe(r[0].name, r[j + 1].name);
      }
    }
  }

  lemma {:induction false} InsertByNamePermutes(m: Medicine, s: seq<Medicine>)
    ensures multiset(InsertByName(m, s)) == multiset(s) + multiset{m}
  {
    if s != [] && !TextLe(m.name, s[0].name) {
      InsertByNamePermutes(m, s[1..]);
      assert s == [s[0]] + s[1..];
    }
  }

  lemma {:induction false} InsertByNameKeepsBound(x: string, m: Medicine, s: seq<Medicine>)
    requires NamesAtLeast(x, s) && TextLe(x, m.name)
    ensures NamesAtLeast(x, InsertByName(m, s))
  {
    if s != [] && !TextLe(m.name, s[0].name) {
      assert NamesAtLeast(x, s[1..]) by {
        forall i | 0 <= i < |s[1..]| ensures TextLe(x, s[1..][i].name) {
          assert s[1..][i] == s[i + 1];
        }
      }
      InsertByNameKeepsBound(x, m, s[1..]);
      var r := InsertByName(m, s);
      forall i | 0 <= i < |r| ensures TextLe(x, r[i].name) {
        if i > 0 { assert r[i] == InsertByName(m, s[1..])[i - 1]; }
      }
    }
  }

  lemma {:induction false} InsertByNameSorted(m: Medicine, s: seq<Medicine>)
    requires SortedByName(s)
    ensures SortedByName(InsertByName(m, s))
  {
    if s == [] {
    } else if TextLe(m.name, s[0].name) {
      SortedCons(s[0], s[1..]);
      assert s == [s[0]] + s[1..];
      assert NamesAtLeast(m.name, s) by {
        forall j | 0 <= j < |s| ensures TextLe(m.name, s[j].name) {
          if j > 0 { TextLeTransitive(m.name, s[0].name, s[j].name); }
        }
      }
      SortedCons(m, s);
    } else {
      SortedCons(s[0], s[1..]);
      assert s == [s[0]] + s[1..];
      InsertByNameSorted(m, s[1..]);
      TextLeTotal(m.name, s[0].name);
      InsertByNameKeepsBound(s[0].name, m, s[1..]);
      SortedCons(s[0], InsertByName(m, s[1..]));
    }
  }

  /** `SortByName` meets the ordering promise. */
  lemma {:induction false} SortByNameCorrect(rows: seq<Medicine>)
    ensures OrderedByName(rows, SortByName(rows))
  {
    if rows != [] {
      SortByNameCorrect(rows[1..]);
      InsertByNamePermutes(rows[0], SortByName(rows[1..]));
      InsertByNameSorted(rows[0], SortByName(rows[1..]));
      assert rows == [rows[0]] + rows[1..];
    }
  }

  function Names(s: seq<Medicine>): (r: seq<string>)
    ensures |r| == |s| && forall i :: 0 <= i < |s| ==> r[i] == s[i].name
  {
    seq(|s|, i requires 0 <= i < |s| => s[i].name)
  }

  /** Removing the element at `j` removes one occurrence of it. */
  lemma MultisetWithout<T>(s: seq<T>, j: nat)
    requires j < |s|
    ensures multiset(s[..j] + s[j + 1..]) == multiset(s) - multiset{s[j]}
  {
    assert s == s[..j] + [s[j]] + s[j + 1..];
  }

  lemma CancelOne<T>(a: multiset<T>, b: multiset<T>, x: T)
    requires x in a && x in b && a - multiset{x} == b - multiset{x}
    ensures a == b
  {
    assert a == (a - multiset{x}) + multiset{x};
    assert b == (b - multiset{x}) + multiset{x};
  }

  /** If two sequences agree as multisets once a shared element is dropped, they agree. */
  lemma CancelHead<T>(a: seq<T>, b: seq<T>, j: nat)
    requires a != [] && j < |b| && b[j] == a[0]
    requires multiset(a[1..]) == multiset(b[..j] + b[j + 1..])
    ensures multiset(a) == multiset(b)
  {
    MultisetWithout(b, j);
    assert a == [a[0]] + a[1..];
    assert multiset(a) == multiset{a[0]} + multiset(a[1..]);
    assert b[j] in multiset(b);
    CancelOne(multiset(a), multiset(b), a[0]);
  }

  /** If the names agree once record `x[0]` is dropped from both, they agree. */
  lemma NamesAgreeWithHead(x: seq<Medicine>, y: seq<Medicine>, j: nat)
    requires x != [] && j < |y| && y[j] == x[0]
    requires multiset(Names(x[1..])) == multiset(Names(y[..j] + y[j + 1..]))
    ensures multiset(Names(x)) == multiset(Names(y))
  {
    var a, b := Names(x), Names(y);
    assert a[1..] == Names(x[1..]);
    assert b[..j] + b[j + 1..] == Names(y[..j] + y[j + 1..]);
    CancelHead(a, b, j);
  }

  /** Where an element of a sequence sits in it. */
  lemma IndexOf<T>(s: seq<T>, x: T) returns (j: nat)
    requires x in multiset(s)
    ensures j < |s| && s[j] == x
  {
    j :| 0 <= j < |s| && s[j] == x;
  }

  /** Dropping the same element from two equal multisets leaves equal multisets. */
  lemma DropMatching<T>(x: seq<T>, y: seq<T>, j: nat)
    requires x != [] && j < |y| && y[j] == x[0] && multiset(x) == multiset(y)
    ensures multiset(x[1..]) == multiset(y[..j] + y[j + 1..])
  {
    MultisetWithout(y, j);
    assert x == [x[0]] + x[1..];
    assert multiset(x) == multiset{x[0]} + multiset(x[1..]);
    assert multiset(x[1..]) == multiset(x) - multiset{x[0]};
  }

  /** Equal multisets of records have equal multisets of names. */
  lemma {:induction false} NamesOfPermutation(x: seq<Medicine>, y: seq<Medicine>)
    requires multiset(x) == multiset(y)
    ensures multiset(Names(x)) == multiset(Names(y))
  {
    if x == [] {
      assert |y| == |multiset(y)| == 0;
    } else {
      var j := IndexOf(y, x[0]);
      DropMatching(x, y, j);
      NamesOfPermutation(x[1..], y[..j] + y[j + 1..]);
      NamesAgreeWithHead(x, y, j);
    }
  }

  predicate Ascending(a: seq<string>)
  {
    forall i, j :: 0 <= i < j < |a| ==> TextLe(a[i], a[j])
  }

  /** The first entry of an ascending sequence is at most each of its entries. */
  lemma AscendingHeadIsLeast(a: seq<string>, x: string)
    requires Ascending(a) && x in multiset(a)
    ensures TextLe(a[0], x)
  {
    var i :| 0 <= i < |a| && a[i] == x;
    if i == 0 { TextLeReflexive(a[0]); }
  }

  lemma AscendingTail(a: seq<string>)
    requires Ascending(a) && a != []
    ensures Ascending(a[1..])
  {
  }

  lemma SameMultisetTails<T>(a: seq<T>, b: seq<T>)
    requires a != [] && b != [] && a[0] == b[0] && multiset(a) == multiset(b)
    ensures multiset(a[1..]) == multiset(b[1..])
  {
    DropMatching(a, b, 0);
    assert b[..0] + b[0 + 1..] == b[1..];
  }

  /** Two ascending sequences of names holding the same names are equal. */
  lemma {:induction false} SortedNamesUnique(a: seq<string>, b: seq<string>)
    requires Ascending(a) && Ascending(b)
    requires multiset(a) == multiset(b)
    ensures a == b
  {
    if a == [] {
      assert |b| == |multiset(b)| == 0;
    } else {
      assert |b| == |multiset(b)| == |multiset(a)| == |a|;
      assert a[0] in multiset(b) && b[0] in multiset(a);
      AscendingHeadIsLeast(a, b[0]);
      AscendingHeadIsLeast(b, a[0]);
      TextLeAntisymmetric(a[0], b[0]);
      SameMultisetTails(a, b);
      AscendingTail(a);
      AscendingTail(b);
      SortedNamesUnique(a[1..], b[1..]);
      assert a == [a[0]] + a[1..] && b == [b[0]] + b[1..];
    }
  }

  /**
    The ordering promise fixes the result up to ties: any two results list
    the same names in the same positions.
  */
  lemma NamesDetermined(rows: seq<Medicine>, x: seq<Medicine>, y: seq<Medicine>)
    requires OrderedByName(rows, x) && OrderedByName(rows, y)
    ensures Names(x) == Names(y)
  {
    NamesOfPermutation(x, y);
    assert Ascending(Names(x)) && Ascending(Names(y));
    SortedNamesUnique(Names(x), Names(y));
  }

  // ---------------------------------------------------------------------
  // Pagination: paginate_by = 20, pages numbered from 1, an empty list
  // still has one (empty) page, a page number outside 1..NumPages is an
  // error (Http404), shown here as None.

  const PageSize: nat := 20

  function Min(a: int, b: int): int { if a <= b then a else b }

  function NumPages(count: nat): (p: nat)
    ensures p >= 1
    ensures count > 0 ==> PageSize * (p - 1) < count <= PageSize * p
    ensures count == 0 ==> p == 1
  {
    if count == 0 then 1 else (count + PageSize - 1) / PageSize
  }

  /** Page `k` is the slice from offset 20 * (k - 1) up to 20 * k or the end. */
  function PageSlice<T>(s: seq<T>, k: nat): seq<T>
    requires k >= 1
  {
    s[Min(PageSize * (k - 1), |s|)..Min(PageSize * k, |s|)]
  }

  function GetPage<T>(s: seq<T>, k: int): (r: Option<seq<T>>)
    ensures r.Some? <==> 1 <= k <= NumPages(|s|)
    ensures r.Some? ==> |r.value| <= PageSize
    ensures r.Some? && k < NumPages(|s|) ==> |r.value| == PageSize
    ensures r.Some? && |s| > 0 ==> |r.value| > 0
    ensures r.Some? ==> PageSize * (k - 1) + |r.value| <= |s|
    ensures r.Some? ==> |r.value| == Min(PageSize * k, |s|) - PageSize * (k - 1)
    ensures r.Some? ==> forall i :: 0 <= i < |r.value| ==>
              r.value[i] == s[PageSize * (k - 1) + i]
  {
    if 1 <= k <= NumPages(|s|) then
      assert PageSize * (k - 1) <= |s|;
      Some(PageSlice(s, k))
    else None
  }

  /** Pages 1..k laid end to end. */
  function PagesUpTo<T>(s: seq<T>, k: nat): seq<T>
  {
    if k == 0 then [] else PagesUpTo(s, k - 1) + PageSlice(s, k)
  }

  lemma {:induction false} PagesUpToIsPrefix<T>(s: seq<T>, k: nat)
    ensures PagesUpTo(s, k) == s[..Min(PageSize * k, |s|)]
  {
    if k > 0 {
      PagesUpToIsPrefix(s, k - 1);
      var lo, hi := Min(PageSize * (k - 1), |s|), Min(PageSize * k, |s|);
      assert s[..hi] == s[..lo] + s[lo..hi];
    }
  }

  /**
    The pages of one fixed ordering partition it: laid end to end they give
    it back.
  */
  lemma PagesPartition<T>(s: seq<T>)
    ensures PagesUpTo(s, NumPages(|s|)) == s
  {
    PagesUpToIsPrefix(s, NumPages(|s|));
  }

  /** Record `i` of the list is on page i / 20 + 1, at position i % 20. */
  lemma RecordOnItsPage<T>(s: seq<T>, i: nat)
    requires i < |s|
    ensures var r := GetPage(s, i / PageSize + 1);
            r.Some? && i % PageSize < |r.value| && r.value[i % PageSize] == s[i]
  {
  }

  /** A slice of a list sorted by name is sorted and holds only records of the list. */
  lemma SliceOfSorted(s: seq<Medicine>, lo: nat, hi: nat)
    requires lo <= hi <= |s| && SortedByName(s)
    ensures SortedByName(s[lo..hi]) && multiset(s[lo..hi]) <= multiset(s)
  {
    assert s == s[..lo] + s[lo..hi] + s[hi..];
    var t := s[lo..hi];
    forall i, j | 0 <= i < j < |t| ensures TextLe(t[i].name, t[j].name) {
      assert t[i] == s[lo + i] && t[j] == s[lo + j];
    }
  }

  /**
    `MedicineListView`: page `k` of all records ordered by name. Each page
    is the `k`-th slice of 20 of some ordering of all records by name; which
    ordering is not fixed, since each page is a query of its own.
  */
  function ListPage(rows: seq<Medicine>, k: int): (r: Option<seq<Medicine>>)
    ensures r.Some? <==> 1 <= k <= NumPages(|rows|)
    ensures exists o :: OrderedByName(rows, o) && r == GetPage(o, k)
    ensures r.Some? ==> |r.value| <= PageSize && SortedByName(r.value)
    ensures r.Some? ==> multiset(r.value) <= multiset(rows)
    ensures r.Some? && k < NumPages(|rows|) ==> |r.value| == PageSize
    ensures r.Some? && |rows| > 0 ==> |r.value| > 0
  {
    var ordered := SortByName(rows);
    SortByNameCorrect(rows);
    assert |ordered| == |multiset(ordered)| == |multiset(rows)| == |rows|;
    assert OrderedByName(rows, ordered);
    if 1 <= k <= NumPages(|rows|) then
      SliceOfSorted(ordered, Min(PageSize * (k - 1), |ordered|), Min(PageSize * k, |ordered|));
      GetPage(ordered, k)
    else GetPage(ordered, k)
  }

  /**
    Whatever ordering a request uses, page `k` holds the same names in the
    same positions: only records with equal names can trade places.
  */
  lemma ListPageNamesFixed(rows: seq<Medicine>, o: seq<Medicine>, k: int)
    requires OrderedByName(rows, o) && 1 <= k <= NumPages(|rows|)
    ensures ListPage(rows, k).Some? && GetPage(o, k).Some?
    ensures Names(ListPage(rows, k).value) == Names(GetPage(o, k).value)
  {
    var ordered := SortByName(rows);
    SortByNameCorrect(rows);
    NamesDetermined(rows, ordered, o);
    assert |o| == |multiset(o)| == |multiset(rows)| == |rows|;
    var p, q := ListPage(rows, k).value, GetPage(o, k).value;
    assert ListPage(rows, k) == GetPage(ordered, k);
    forall i | 0 <= i < |p| ensures p[i].name == q[i].name {
      assert p[i] == ordered[PageSize * (k - 1) + i];
      assert q[i] == o[PageSize * (k - 1) + i];
      assert Names(ordered)[PageSize * (k - 1) + i] == Names(o)[PageSize * (k - 1) + i];
    }
  }

  /** Within one ordering of all records by name, every record is on some page. */
  lemma RecordOnPageOfOrdering(rows: seq<Medicine>, o: seq<Medicine>, m: Medicine)
    requires OrderedByName(rows, o) && m in rows
    ensures exists k :: 1 <= k <= NumPages(|rows|) && GetPage(o, k).Some? && m in GetPage(o, k).value
  {
    assert m in multiset(o);
    var i := IndexOf(o, m);
    assert |o| == |multiset(o)| == |multiset(rows)| == |rows|;
    RecordOnItsPage(o, i);
    var k := i / PageSize + 1;
    assert GetPage(o, k).value[i % PageSize] == m;
  }
}
