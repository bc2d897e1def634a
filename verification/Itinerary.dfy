/** An itinerary entry and the ordering the renderer puts entries in:
    `sorted(items, key=lambda x: x["date"])`, a stable sort by the date text. */
module Itinerary {
  import opened Text

  /** One committed record; all three fields are the user's stripped text, unvalidated. */
  datatype Entry = Entry(date: string, place: string, memo: string)

  predicate SortedByDate(s: seq<Entry>)
  {
    forall i, j :: 0 <= i < j < |s| ==> Le(s[i].date, s[j].date)
  }

  /** The entries of `s` whose date is exactly `k`, in their order in `s`.
      A sort is stable when it keeps every such subsequence as it was. */
  function WithDate(s: seq<Entry>, k: string): seq<Entry>
  {
    if s == [] then []
    else (if s[0].date == k then [s[0]] else []) + WithDate(s[1..], k)
  }

  /** Places `e` after every entry whose date is not later than its own. */
  function Insert(e: Entry, s: seq<Entry>): seq<Entry>
  {
    if s == [] then [e]
    else if Le(s[0].date, e.date) then [s[0]] + Insert(e, s[1..])
    else [e] + s
  }

  /** Insertion adds `e` and keeps everything else. */
  lemma {:induction false} InsertPermutes(e: Entry, s: seq<Entry>)
    ensures multiset(Insert(e, s)) == multiset(s) + multiset{e}
    ensures |Insert(e, s)| == |s| + 1
  {
    if s != [] && Le(s[0].date, e.date) {
      InsertPermutes(e, s[1..]);
      assert s == [s[0]] + s[1..];
    }
  }

  lemma SortedTail(s: seq<Entry>)
    requires SortedByDate(s) && s != []
    ensures SortedByDate(s[1..])
  {
    forall a, b | 0 <= a < b < |s[1..]| ensures Le(s[1..][a].date, s[1..][b].date) {
      assert s[1..][a] == s[a + 1] && s[1..][b] == s[b + 1];
    }
  }

  /** A date bounding `e` and every entry of `s` from below bounds the insertion too. */
  lemma {:induction false} InsertAbove(e: Entry, s: seq<Entry>, d: string)
    requires Le(d, e.date) && forall m :: 0 <= m < |s| ==> Le(d, s[m].date)
    ensures forall j :: 0 <= j < |Insert(e, s)| ==> Le(d, Insert(e, s)[j].date)
  {
    if s != [] && Le(s[0].date, e.date) {
      InsertAbove(e, s[1..], d);
      var r := Insert(e, s);
      assert forall j :: 1 <= j < |r| ==> r[j] == Insert(e, s[1..])[j - 1];
    }
  }

  /** An entry no later than everything after it extends a sorted sequence. */
  lemma ConsSorted(h: Entry, t: seq<Entry>)
    requires SortedByDate(t) && forall j :: 0 <= j < |t| ==> Le(h.date, t[j].date)
    ensures SortedByDate([h] + t)
  {
    var r := [h] + t;
    forall a, b | 0 <= a < b < |r| ensures Le(r[a].date, r[b].date) {
      assert r[b] == t[b - 1];
      if a > 0 {
        assert r[a] == t[a - 1];
      }
    }
  }

  /** `e` goes in front of a first entry whose date is later than its own. */
  lemma InsertInFront(e: Entry, s: seq<Entry>)
    requires SortedByDate(s) && s != [] && !Le(s[0].date, e.date)
    ensures SortedByDate([e] + s)
  {
    LeTotal(s[0].date, e.date);
    var r := [e] + s;
    forall a, b | 0 <= a < b < |r| ensures Le(r[a].date, r[b].date) {
      if a == 0 && b > 1 {
        LeTransitive(e.date, s[0].date, s[b - 1].date);
      }
    }
  }

  lemma {:induction false} InsertSorted(e: Entry, s: seq<Entry>)
    requires SortedByDate(s)
    ensures SortedByDate(Insert(e, s))
  {
    if s == [] {
    } else if Le(s[0].date, e.date) {
      SortedTail(s);
      InsertSorted(e, s[1..]);
      LeReflexive(s[0].date);
      InsertAbove(e, s[1..], s[0].date);
      ConsSorted(s[0], Insert(e, s[1..]));
    } else {
      InsertInFront(e, s);
    }
  }

  /** `sorted(items, key=date)`: ascending by date, a permutation of the input. */
  function SortByDate(s: seq<Entry>): (r: seq<Entry>)
    ensures SortedByDate(r)
    ensures multiset(r) == multiset(s)
    ensures |r| == |s|
  {
    if s == [] then []
    else
      assert s == s[..|s| - 1] + [s[|s| - 1]];
      InsertSorted(s[|s| - 1], SortByDate(s[..|s| - 1]));
      InsertPermutes(s[|s| - 1], SortByDate(s[..|s| - 1]));
      Insert(s[|s| - 1], SortByDate(s[..|s| - 1]))
  }

  lemma WithDateCons(x: Entry, s: seq<Entry>, k: string)
    ensures WithDate([x] + s, k) == (if x.date == k then [x] else []) + WithDate(s, k)
  {
    assert ([x] + s)[1..] == s;
  }

  lemma AppendStep(a: seq<Entry>, b: seq<Entry>, k: string)
    requires a != [] && WithDate(a[1..] + b, k) == WithDate(a[1..], k) + WithDate(b, k)
    ensures WithDate(a + b, k) == WithDate(a, k) + WithDate(b, k)
  {
    SplitFirst(a, b);
    WithDateCons(a[0], a[1..] + b, k);
    Regroup(if a[0].date == k then [a[0]] else [], WithDate(a[1..], k), WithDate(b, k));
  }

  lemma {:induction false} WithDateAppend(a: seq<Entry>, b: seq<Entry>, k: string)
    ensures WithDate(a + b, k) == WithDate(a, k) + WithDate(b, k)
  {
    if a == [] {
      assert a + b == b;
    } else {
      WithDateAppend(a[1..], b, k);
      AppendStep(a, b, k);
    }
  }

  lemma {:induction false} WithDateAbsent(s: seq<Entry>, k: string)
    requires forall i :: 0 <= i < |s| ==> s[i].date != k
    ensures WithDate(s, k) == []
  {
    if s != [] {
      WithDateAbsent(s[1..], k);
    }
  }

  lemma SelectsFirst(s: seq<Entry>)
    requires s != []
    ensures WithDate(s, s[0].date) != []
  {
  }

  /** A non-empty selection names a position holding that date. */
  lemma {:induction false} WithDatePresent(s: seq<Entry>, k: string) returns (i: nat)
    requires WithDate(s, k) != []
    ensures i < |s| && s[i].date == k
  {
    if s[0].date == k {
      i := 0;
    } else {
      var j := WithDatePresent(s[1..], k);
      i := j + 1;
    }
  }

  /** In a sorted sequence no entry carries a date that sorts before the first one. */
  lemma SortedHeadBound(s: seq<Entry>, k: string)
    requires SortedByDate(s) && s != [] && !Le(s[0].date, k)
    ensures WithDate(s, k) == []
  {
    forall i | 0 <= i < |s| ensures s[i].date != k {
      if i == 0 {
        LeReflexive(k);
      }
    }
    WithDateAbsent(s, k);
  }

  lemma InsertBehindWithDate(e: Entry, s: seq<Entry>, k: string)
    requires s != [] && Le(s[0].date, e.date)
    requires WithDate(Insert(e, s[1..]), k) == WithDate(s[1..], k) + (if e.date == k then [e] else [])
    ensures WithDate(Insert(e, s), k) == WithDate(s, k) + (if e.date == k then [e] else [])
  {
    WithDateCons(s[0], Insert(e, s[1..]), k);
    Regroup(if s[0].date == k then [s[0]] else [], WithDate(s[1..], k), if e.date == k then [e] else []);
  }

  lemma InsertFrontWithDate(e: Entry, s: seq<Entry>, k: string)
    requires SortedByDate(s) && (s == [] || !Le(s[0].date, e.date))
    ensures WithDate(Insert(e, s), k) == WithDate(s, k) + (if e.date == k then [e] else [])
  {
    WithDateCons(e, s, k);
    if s != [] && e.date == k {
      SortedHeadBound(s, k);
    }
  }

  lemma {:induction false} InsertWithDate(e: Entry, s: seq<Entry>, k: string)
    requires SortedByDate(s)
    ensures WithDate(Insert(e, s), k) == WithDate(s, k) + (if e.date == k then [e] else [])
  {
    if s != [] && Le(s[0].date, e.date) {
      SortedTail(s);
      InsertWithDate(e, s[1..], k);
      InsertBehindWithDate(e, s, k);
    } else {
      InsertFrontWithDate(e, s, k);
    }
  }

  /** The sort is stable: entries sharing a date keep their input order. */
  lemma {:induction false} SortByDateStable(s: seq<Entry>, k: string)
    ensures WithDate(SortByDate(s), k) == WithDate(s, k)
  {
    if s != [] {
      var init, last := s[..|s| - 1], s[|s| - 1];
      assert s == init + [last];
      SortByDateStable(init, k);
      InsertWithDate(last, SortByDate(init), k);
      WithDateAppend(init, [last], k);
      assert WithDate([last], k) == (if last.date == k then [last] else []) by {
        assert [last][1..] == [];
      }
    }
  }

  /** Sortedness plus stability pins the order down: a sorted sequence with the
      same per-date subsequences as `s` is `SortByDate(s)` itself, so this is
      the one ordering Python's `sorted` can produce. */
  lemma SortByDateUnique(s: seq<Entry>, t: seq<Entry>)
    requires SortedByDate(t)
    requires forall k :: WithDate(t, k) == WithDate(s, k)
    ensures t == SortByDate(s)
  {
    forall k ensures WithDate(t, k) == WithDate(SortByDate(s), k) {
      SortByDateStable(s, k);
    }
    SortedSameSelectionsEqual(t, SortByDate(s));
  }

  lemma {:induction false} SortedSameSelectionsEqual(t: seq<Entry>, u: seq<Entry>)
    requires SortedByDate(t) && SortedByDate(u)
    requires forall k :: WithDate(t, k) == WithDate(u, k)
    ensures t == u
    decreases |t|
  {
    if t == [] || u == [] {
      // Neither can be empty alone: the other's first date would select nothing.
      if t != [] {
        SelectsFirst(t);
        assert false;
      } else if u != [] {
        SelectsFirst(u);
        assert false;
      }
    } else {
      var kt, ku := t[0].date, u[0].date;
      assert WithDate(t, kt) != [];
      var j := WithDatePresent(u, kt);
      assert Le(ku, kt) by {
        if j == 0 { LeReflexive(ku); }
      }
      assert WithDate(u, ku) != [];
      var i := WithDatePresent(t, ku);
      assert Le(kt, ku) by {
        if i == 0 { LeReflexive(kt); }
      }
      LeAntisymmetric(kt, ku);
      assert WithDate(t, kt)[0] == t[0];
      assert WithDate(u, kt)[0] == u[0];
      assert t[0] == u[0];
      forall k ensures WithDate(t[1..], k) == WithDate(u[1..], k) {
        var head := if t[0].date == k then [t[0]] else [];
        assert WithDate(t, k) == head + WithDate(t[1..], k);
        assert WithDate(u, k) == head + WithDate(u[1..], k);
        assert WithDate(t[1..], k) == WithDate(t, k)[|head|..];
        assert WithDate(u[1..], k) == WithDate(u, k)[|head|..];
      }
      SortedSameSelectionsEqual(t[1..], u[1..]);
      assert t == [t[0]] + t[1..] && u == [u[0]] + u[1..];
    }
  }
}
