/** `sorted(data, key=compare_by_covid_level)`: a stable sort of the fetched
    rows by the pair (weight of the level, county name). Like CPython, the
    model first works out every row's key (failing with the `KeyError` of the
    first row whose level has no weight), then sorts the rows tagged with
    their keys, and finally drops the tags. */
module CountySort {
  import opened Results
  import opened Ascii
  import opened Levels
  import opened StrOrder

  /** One row of the data set, reduced to the three fields the script reads. */
  datatype Record = Record(county: string, state: string, level: string)

  /** The tuple `compare_by_covid_level` returns. */
  datatype Key = Key(rank: nat, county: string)

  /** A row tagged with its precomputed key. */
  datatype Entry = Entry(key: Key, row: Record)

  predicate Ranked(r: Record) {
    Rank(r.level).Some?
  }

  predicate AllRanked(rows: seq<Record>) {
    forall i :: 0 <= i < |rows| ==> Ranked(rows[i])
  }

  /** `compare_by_covid_level(item)` for a row whose level is known: the
      weight of the row's severity, then its county. */
  function KeyOf(r: Record): (k: Key)
    requires Ranked(r)
    ensures k.county == r.county
    ensures SeverityOf(r.level).Some? && k.rank == SeverityRank(SeverityOf(r.level).value)
  {
    TablesAgree(r.level);
    Key(Rank(r.level).value, r.county)
  }

  /** Python's `<=` on the key tuples: by weight, then by county name. */
  predicate KeyLe(a: Key, b: Key) {
    a.rank < b.rank || (a.rank == b.rank && Le(a.county, b.county))
  }

  lemma KeyLeReflexive(a: Key)
    ensures KeyLe(a, a)
  {
    LeReflexive(a.county);
  }

  lemma KeyLeTotal(a: Key, b: Key)
    ensures KeyLe(a, b) || KeyLe(b, a)
  {
    LeTotal(a.county, b.county);
  }

  lemma KeyLeTransitive(a: Key, b: Key, c: Key)
    requires KeyLe(a, b) && KeyLe(b, c)
    ensures KeyLe(a, c)
  {
    if a.rank == b.rank == c.rank {
      LeTransitive(a.county, b.county, c.county);
    }
  }

  lemma KeyLeAntisymmetric(a: Key, b: Key)
    requires KeyLe(a, b) && KeyLe(b, a)
    ensures a == b
  {
    LeAntisymmetric(a.county, b.county);
  }

  // ---------------------------------------------------------------------
  // Keys, computed before any comparison

  /** Index of the first row whose level has no weight, if any. */
  function FirstUnknown(rows: seq<Record>): (r: Option<nat>)
    ensures r.None? <==> AllRanked(rows)
    ensures r.Some? ==> r.value < |rows| && !Ranked(rows[r.value])
    ensures r.Some? ==> forall j :: 0 <= j < r.value ==> Ranked(rows[j])
  {
    if |rows| == 0 then None
    else if !Ranked(rows[0]) then Some(0)
    else match FirstUnknown(rows[1..])
      case None => None
      case Some(i) => Some(i + 1)
  }

  /** Every row tagged with its key. */
  function Tag(rows: seq<Record>): (es: seq<Entry>)
    requires AllRanked(rows)
    ensures |es| == |rows|
    ensures forall i :: 0 <= i < |rows| ==> es[i] == Entry(KeyOf(rows[i]), rows[i])
  {
    if |rows| == 0 then [] else [Entry(KeyOf(rows[0]), rows[0])] + Tag(rows[1..])
  }

  /** The rows of tagged entries, tags dropped. */
  function Rows(es: seq<Entry>): (rows: seq<Record>)
    ensures |rows| == |es|
    ensures forall i :: 0 <= i < |es| ==> rows[i] == es[i].row
  {
    seq(|es|, i requires 0 <= i < |es| => es[i].row)
  }

  /** Every entry carries its own row's key. */
  predicate Consistent(es: seq<Entry>) {
    forall i :: 0 <= i < |es| ==> Ranked(es[i].row) && es[i].key == KeyOf(es[i].row)
  }

  /** Tagging the rows of consistent entries gives the entries back. */
  lemma TagRows(es: seq<Entry>)
    requires Consistent(es)
    ensures AllRanked(Rows(es)) && Tag(Rows(es)) == es
  {
  }

  /** Dropping the tags gives the rows back. */
  lemma RowsTag(rows: seq<Record>)
    requires AllRanked(rows)
    ensures Rows(Tag(rows)) == rows
  {
  }

  lemma RowsConcat(a: seq<Entry>, b: seq<Entry>)
    ensures Rows(a + b) == Rows(a) + Rows(b)
  {
  }

  // ---------------------------------------------------------------------
  // Stable insertion sort on tagged entries

  /** Non-decreasing keys throughout. */
  predicate Sorted(es: seq<Entry>) {
    forall i, j :: 0 <= i < j < |es| ==> KeyLe(es[i].key, es[j].key)
  }

  /** Place `x` before the first entry whose key is not smaller than its
      own: one step of the stable insertion sort. */
  function Insert(x: Entry, t: seq<Entry>): (r: seq<Entry>)
    ensures |r| == |t| + 1
    ensures forall i :: 0 <= i < |r| ==> r[i] == x || r[i] in t
  {
    if |t| == 0 then [x]
    else if KeyLe(x.key, t[0].key) then [x] + t
    else
      assert t == [t[0]] + t[1..];
      [t[0]] + Insert(x, t[1..])
  }

  /** Inserting into a sorted sequence keeps it sorted. */
  lemma {:induction false} InsertSorted(x: Entry, t: seq<Entry>)
    requires Sorted(t)
    ensures Sorted(Insert(x, t))
  {
    var r := Insert(x, t);
    if |t| == 0 {
    } else if KeyLe(x.key, t[0].key) {
      forall i, j | 0 <= i < j < |r|
        ensures KeyLe(r[i].key, r[j].key)
      {
        if i == 0 && j > 1 {
          KeyLeTransitive(x.key, t[0].key, t[j - 1].key);
        }
      }
    } else {
      var rest := Insert(x, t[1..]);
      InsertSorted(x, t[1..]);
      KeyLeTotal(x.key, t[0].key);
      forall j | 0 <= j < |rest|
        ensures KeyLe(t[0].key, rest[j].key)
      {
        if rest[j] != x {
          var m :| 0 <= m < |t[1..]| && t[1..][m] == rest[j];
          assert t[m + 1] == rest[j];
        }
      }
      assert r == [t[0]] + rest;
    }
  }

  /** Stable insertion sort by key. */
  function InsertionSort(es: seq<Entry>): (r: seq<Entry>)
    ensures |r| == |es|
    ensures Sorted(r)
  {
    if |es| == 0 then []
    else
      var rest := InsertionSort(es[1..]);
      InsertSorted(es[0], rest);
      Insert(es[0], rest)
  }

  /** Insertion adds the one entry and keeps all others. */
  lemma {:induction false} InsertPermutes(x: Entry, t: seq<Entry>)
    ensures multiset(Insert(x, t)) == multiset(t) + multiset{x}
  {
    if |t| > 0 && !KeyLe(x.key, t[0].key) {
      InsertPermutes(x, t[1..]);
      assert t == [t[0]] + t[1..];
    }
  }

  /** The sort neither adds nor drops an entry. */
  lemma {:induction false} SortPermutes(es: seq<Entry>)
    ensures multiset(InsertionSort(es)) == multiset(es)
  {
    if |es| > 0 {
      var tail := es[1..];
      SortPermutes(tail);
      InsertPermutes(es[0], InsertionSort(tail));
      assert es == [es[0]] + tail;
    }
  }

  /** Insertion adds the one row and keeps all others. */
  lemma {:induction false} InsertRowsPermute(x: Entry, t: seq<Entry>)
    ensures multiset(Rows(Insert(x, t))) == multiset(Rows(t)) + multiset{x.row}
  {
    if |t| == 0 {
      assert Rows([x]) == [x.row];
    } else if KeyLe(x.key, t[0].key) {
      RowsConcat([x], t);
      assert Rows([x]) == [x.row];
    } else {
      var rest := Insert(x, t[1..]);
      InsertRowsPermute(x, t[1..]);
      RowsConcat([t[0]], rest);
      RowsConcat([t[0]], t[1..]);
      assert Rows([t[0]]) == [t[0].row];
      assert t == [t[0]] + t[1..];
    }
  }

  /** The sort neither adds nor drops a row. */
  lemma {:induction false} SortRowsPermute(es: seq<Entry>)
    ensures multiset(Rows(InsertionSort(es))) == multiset(Rows(es))
  {
    if |es| > 0 {
      var tail := es[1..];
      var sortedTail := InsertionSort(tail);
      assert InsertionSort(es) == Insert(es[0], sortedTail);
      assert multiset(Rows(sortedTail)) == multiset(Rows(tail)) by {
        SortRowsPermute(tail);
      }
      assert multiset(Rows(Insert(es[0], sortedTail))) == multiset(Rows(sortedTail)) + multiset{es[0].row} by {
        InsertRowsPermute(es[0], sortedTail);
      }
      assert Rows(es) == [es[0].row] + Rows(tail) by {
        RowsConcat([es[0]], tail);
        assert Rows([es[0]]) == [es[0].row];
        assert es == [es[0]] + tail;
      }
    }
  }

  /** The entries with key `k`, in their order in `es`. */
  function WithKey(es: seq<Entry>, k: Key): seq<Entry>
  {
    if |es| == 0 then []
    else (if es[0].key == k then [es[0]] else []) + WithKey(es[1..], k)
  }

  /** `out` keeps, for every key, the entries of `es` with that key in their
      original order: the guarantee of a stable sort. */
  ghost predicate Stable(es: seq<Entry>, out: seq<Entry>) {
    forall k :: WithKey(out, k) == WithKey(es, k)
  }

  /** `WithKey` of a sequence with one more entry in front. */
  lemma WithKeyCons(a: Entry, rest: seq<Entry>, k: Key)
    ensures WithKey([a] + rest, k) == (if a.key == k then [a] else []) + WithKey(rest, k)
  {
    assert ([a] + rest)[1..] == rest;
  }

  /** Inserting `x` puts it in front of the entries that share its key and
      leaves every other key's entries untouched. */
  lemma {:induction false} InsertWithKey(x: Entry, t: seq<Entry>, k: Key)
    ensures WithKey(Insert(x, t), k) == (if x.key == k then [x] else []) + WithKey(t, k)
  {
    if |t| == 0 {
      WithKeyCons(x, [], k);
    } else if KeyLe(x.key, t[0].key) {
      WithKeyCons(x, t, k);
    } else {
      var rest := Insert(x, t[1..]);
      var here := if x.key == k then [x] else [];
      var first := if t[0].key == k then [t[0]] else [];
      var tail := WithKey(t[1..], k);
      assert first == [] || here == [] by {
        KeyLeReflexive(x.key);
      }
      assert WithKey(rest, k) == here + tail by {
        InsertWithKey(x, t[1..], k);
      }
      assert WithKey(Insert(x, t), k) == first + WithKey(rest, k) by {
        WithKeyCons(t[0], rest, k);
      }
      assert WithKey(t, k) == first + tail by {
        WithKeyCons(t[0], t[1..], k);
        assert t == [t[0]] + t[1..];
      }
      assert first + (here + tail) == here + (first + tail);
    }
  }

  /** The insertion sort is stable. */
  lemma {:induction false} SortStable(es: seq<Entry>)
    ensures Stable(es, InsertionSort(es))
  {
    if |es| > 0 {
      SortStable(es[1..]);
      forall k
        ensures WithKey(InsertionSort(es), k) == WithKey(es, k)
      {
        InsertWithKey(es[0], InsertionSort(es[1..]), k);
        WithKeyCons(es[0], es[1..], k);
        assert es == [es[0]] + es[1..];
      }
    }
  }

  /** Sorting an already sorted sequence changes nothing. */
  lemma {:induction false} SortedIsFixpoint(es: seq<Entry>)
    requires Sorted(es)
    ensures InsertionSort(es) == es
  {
    if |es| > 0 {
      var tail := es[1..];
      SortedIsFixpoint(tail);
      if |tail| > 0 {
        assert KeyLe(es[0].key, tail[0].key);
      }
      assert es == [es[0]] + tail;
    }
  }

  /** A key that has entries in `es` is the key of one of them. */
  lemma {:induction false} WithKeyMember(es: seq<Entry>, k: Key)
    requires |WithKey(es, k)| > 0
    ensures exists i :: 0 <= i < |es| && es[i].key == k
  {
    if es[0].key != k {
      WithKeyMember(es[1..], k);
      var i :| 0 <= i < |es[1..]| && es[1..][i].key == k;
      assert es[i + 1].key == k;
    }
  }

  /** In a sorted sequence every entry's key is at least the first one's. */
  lemma FirstKeyIsLeast(es: seq<Entry>, k: Key)
    requires Sorted(es) && |es| > 0 && |WithKey(es, k)| > 0
    ensures KeyLe(es[0].key, k)
  {
    WithKeyMember(es, k);
    var i :| 0 <= i < |es| && es[i].key == k;
    if i == 0 {
      KeyLeReflexive(k);
    }
  }

  lemma HeadKeyPresent(es: seq<Entry>)
    requires |es| > 0
    ensures |WithKey(es, es[0].key)| > 0
  {
  }

  /** Two sorted sequences that agree on every key's entries are equal: a
      sorted, stable arrangement is unique. */
  lemma {:induction false} SortedStableUnique(t: seq<Entry>, u: seq<Entry>)
    requires Sorted(t) && Sorted(u)
    requires forall k :: WithKey(t, k) == WithKey(u, k)
    ensures t == u
  {
    if |t| > 0 && |u| > 0 {
      var k1, k2 := t[0].key, u[0].key;
      assert WithKey(t, k1)[0] == t[0];
      assert WithKey(u, k2)[0] == u[0];
      FirstKeyIsLeast(u, k1);
      FirstKeyIsLeast(t, k2);
      KeyLeAntisymmetric(k1, k2);
      assert t[0] == u[0];
      forall k
        ensures WithKey(t[1..], k) == WithKey(u[1..], k)
      {
        var first := if t[0].key == k then [t[0]] else [];
        assert WithKey(t, k) == first + WithKey(t[1..], k);
        assert WithKey(u, k) == first + WithKey(u[1..], k);
        assert WithKey(t[1..], k) == WithKey(t, k)[|first|..];
      }
      SortedStableUnique(t[1..], u[1..]);
      assert t == [t[0]] + t[1..];
      assert u == [u[0]] + u[1..];
    } else if |u| > 0 {
      HeadKeyPresent(u);
    } else if |t| > 0 {
      HeadKeyPresent(t);
    }
  }

  /** The insertion sort is the one and only sorted, stable arrangement of
      its input. */
  lemma SortCharacterised(es: seq<Entry>, out: seq<Entry>)
    ensures out == InsertionSort(es) <==> Sorted(out) && Stable(es, out)
  {
    SortStable(es);
    if Sorted(out) && Stable(es, out) {
      SortedStableUnique(out, InsertionSort(es));
    }
  }

  // ---------------------------------------------------------------------
  // The same facts stated on rows

  /** Rows in non-decreasing key order. */
  predicate SortedRows(rows: seq<Record>)
    requires AllRanked(rows)
  {
    forall i, j :: 0 <= i < j < |rows| ==> KeyLe(KeyOf(rows[i]), KeyOf(rows[j]))
  }

  /** The rows with key `k`, in their order in `rows`. */
  function RowsWithKey(rows: seq<Record>, k: Key): (r: seq<Record>)
    requires AllRanked(rows)
    ensures AllRanked(r)
  {
    if |rows| == 0 then []
    else (if KeyOf(rows[0]) == k then [rows[0]] else []) + RowsWithKey(rows[1..], k)
  }

  /** `out` keeps, for every key, the rows of `rows` with that key in their
      original order. */
  ghost predicate SameKeyOrder(rows: seq<Record>, out: seq<Record>)
    requires AllRanked(rows) && AllRanked(out)
  {
    forall k :: RowsWithKey(out, k) == RowsWithKey(rows, k)
  }

  lemma {:induction false} TagWithKey(rows: seq<Record>, k: Key)
    requires AllRanked(rows)
    ensures WithKey(Tag(rows), k) == Tag(RowsWithKey(rows, k))
  {
    if |rows| > 0 {
      TagWithKey(rows[1..], k);
      var e := Entry(KeyOf(rows[0]), rows[0]);
      assert Tag(rows) == [e] + Tag(rows[1..]);
      WithKeyCons(e, Tag(rows[1..]), k);
      var front := if KeyOf(rows[0]) == k then [rows[0]] else [];
      TagConcat(front, RowsWithKey(rows[1..], k));
    }
  }

  lemma TagConcat(a: seq<Record>, b: seq<Record>)
    requires AllRanked(a) && AllRanked(b)
    ensures AllRanked(a + b) && Tag(a + b) == Tag(a) + Tag(b)
  {
    var ab := a + b;
    assert AllRanked(ab) by {
      forall i | 0 <= i < |ab|
        ensures Ranked(ab[i])
      {
        if i >= |a| {
          assert ab[i] == b[i - |a|];
        }
      }
    }
    var t, u := Tag(ab), Tag(a) + Tag(b);
    forall i | 0 <= i < |t|
      ensures t[i] == u[i]
    {
      if i < |a| {
        assert ab[i] == a[i];
      } else {
        assert ab[i] == b[i - |a|];
      }
    }
  }

  lemma TagInjective(a: seq<Record>, b: seq<Record>)
    requires AllRanked(a) && AllRanked(b) && Tag(a) == Tag(b)
    ensures a == b
  {
    RowsTag(a);
    RowsTag(b);
  }

  lemma StableRowsAt(rows: seq<Record>, out: seq<Record>, k: Key)
    requires AllRanked(rows) && AllRanked(out)
    ensures WithKey(Tag(out), k) == WithKey(Tag(rows), k) <==> RowsWithKey(out, k) == RowsWithKey(rows, k)
  {
    TagWithKey(rows, k);
    TagWithKey(out, k);
    if WithKey(Tag(out), k) == WithKey(Tag(rows), k) {
      TagInjective(RowsWithKey(out, k), RowsWithKey(rows, k));
    }
  }

  /** The rows keep every key's rows in order exactly when their tags do. */
  lemma StableRows(rows: seq<Record>, out: seq<Record>)
    requires AllRanked(rows) && AllRanked(out)
    ensures Stable(Tag(rows), Tag(out)) <==> SameKeyOrder(rows, out)
  {
    if Stable(Tag(rows), Tag(out)) {
      forall k
        ensures RowsWithKey(out, k) == RowsWithKey(rows, k)
      {
        StableRowsAt(rows, out, k);
      }
    }
    if SameKeyOrder(rows, out) {
      forall k
        ensures WithKey(Tag(out), k) == WithKey(Tag(rows), k)
      {
        StableRowsAt(rows, out, k);
      }
    }
  }

  /** What the sort returns for rows whose levels are all known. */
  function SortRanked(rows: seq<Record>): seq<Record>
    requires AllRanked(rows)
  {
    Rows(InsertionSort(Tag(rows)))
  }

  /** The sorted rows, tagged again, are the sorted tagged rows. */
  lemma SortRankedTags(rows: seq<Record>)
    requires AllRanked(rows)
    ensures AllRanked(SortRanked(rows))
    ensures Tag(SortRanked(rows)) == InsertionSort(Tag(rows))
  {
    var s := InsertionSort(Tag(rows));
    SortPermutes(Tag(rows));
    forall i | 0 <= i < |s|
      ensures Ranked(s[i].row) && s[i].key == KeyOf(s[i].row)
    {
      assert s[i] in multiset(Tag(rows));
    }
    TagRows(s);
  }

  /** `sorted(data, key=compare_by_covid_level)`. */
  function SortByLevel(rows: seq<Record>): (r: Result<seq<Record>, LevelError>)
    ensures r.Failure? <==> !AllRanked(rows)
    ensures r.Failure? ==>
              exists i :: 0 <= i < |rows| && !Ranked(rows[i])
                && r.error == UnknownLevel(Lower(rows[i].level))
                && (forall j :: 0 <= j < i ==> Ranked(rows[j]))
    ensures r.Success? ==> AllRanked(r.value) && SortedRows(r.value)
    ensures r.Success? ==> multiset(r.value) == multiset(rows)
    ensures r.Success? ==> SameKeyOrder(rows, r.value)
  {
    match FirstUnknown(rows)
    case Some(i) => Failure(UnknownLevel(Lower(rows[i].level)))
    case None =>
      var out := SortRanked(rows);
      SortRankedTags(rows);
      SortStable(Tag(rows));
      StableRows(rows, out);
      SortRowsPermute(Tag(rows));
      RowsTag(rows);
      Success(out)
  }

  /** Sorting the sorted output again returns it unchanged. */
  lemma SortIdempotent(rows: seq<Record>)
    requires SortByLevel(rows).Success?
    ensures SortByLevel(SortByLevel(rows).value) == SortByLevel(rows)
  {
    var out := SortByLevel(rows).value;
    SortedIsFixpoint(Tag(out));
    RowsTag(out);
  }

  /** The sort's output is the one sorted arrangement of the rows that
      keeps rows of equal key in their input order: an independent
      definition of what a stable sort by this key returns. */
  lemma SortByLevelCharacterised(rows: seq<Record>, out: seq<Record>)
    requires AllRanked(rows)
    ensures SortByLevel(rows) == Success(out) <==>
              AllRanked(out) && SortedRows(out) && SameKeyOrder(rows, out)
  {
    if AllRanked(out) && SortedRows(out) && SameKeyOrder(rows, out) {
      assert Stable(Tag(rows), Tag(out)) by {
        StableRows(rows, out);
      }
      assert Sorted(Tag(out));
      assert Tag(out) == InsertionSort(Tag(rows)) by {
        SortCharacterised(Tag(rows), Tag(out));
      }
      assert Tag(SortRanked(rows)) == InsertionSort(Tag(rows)) by {
        SortRankedTags(rows);
      }
      assert AllRanked(SortRanked(rows)) by {
        SortRankedTags(rows);
      }
      TagInjective(out, SortRanked(rows));
      assert SortByLevel(rows) == Success(SortRanked(rows));
    }
  }

  /** Every high row precedes every medium row, every medium row every low
      row, and rows of one level are in county-name order. */
  lemma SeverityBlocks(out: seq<Record>, i: nat, j: nat)
    requires AllRanked(out) && SortedRows(out) && i < |out| && j < |out|
    ensures SeverityRank(SeverityOf(out[i].level).value) < SeverityRank(SeverityOf(out[j].level).value) ==> i < j
    ensures SeverityOf(out[i].level) == SeverityOf(out[j].level) && i < j ==> Le(out[i].county, out[j].county)
  {
    var a, b := KeyOf(out[i]), KeyOf(out[j]);
    TablesAgree(out[i].level);
    TablesAgree(out[j].level);
    if j < i {
      assert KeyLe(b, a);
    }
  }

  /** A single row with a known level comes back as it is. */
  lemma SingleRow(r: Record)
    requires Ranked(r)
    ensures SortByLevel([r]) == Success([r])
  {
    var e := Entry(KeyOf(r), r);
    assert FirstUnknown([r]).None?;
    assert Tag([r]) == [e];
    assert InsertionSort([e]) == Insert(e, []) == [e];
    assert Rows([e]) == [r];
  }

  /** Two rows of different weights, the heavier listed first, swap. */
  lemma SwapInsertion(later: Entry, earlier: Entry)
    requires earlier.key.rank < later.key.rank
    ensures InsertionSort([later, earlier]) == [earlier, later]
  {
    assert [later, earlier][1..] == [earlier];
    assert InsertionSort([earlier]) == [earlier];
    assert Insert(later, [earlier]) == [earlier] + Insert(later, []);
  }

  /** A row of lower severity listed before a row of higher severity ends
      up after it. */
  lemma SwapByRank(later: Record, earlier: Record)
    requires Rank(later.level).Some? && Rank(earlier.level).Some?
    requires Rank(earlier.level).value < Rank(later.level).value
    ensures SortByLevel([later, earlier]) == Success([earlier, later])
  {
    var rows := [later, earlier];
    assert FirstUnknown(rows).None?;
    var el, ee := Entry(KeyOf(later), later), Entry(KeyOf(earlier), earlier);
    assert Tag(rows) == [el, ee];
    SwapInsertion(el, ee);
    assert Rows([ee, el]) == [earlier, later];
  }
}
