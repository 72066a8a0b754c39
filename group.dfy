/**
 * Grouping the extracted records by book (the `books_data` loop of the
 * command-line entry point): a dict from book name to the list of that
 * book's annotations, keys in first-seen order, each annotation without its
 * book name.
 */
module Group {
  import opened PyJson
  import opened Extract

  /** What a Python dict compares keys by: True and False are the keys 1
      and 0. */
  function KeyOf(j: Json): Json {
    if j.JBool? then JNum(if j.b then 1 else 0) else j
  }

  predicate SameKey(a: Json, b: Json) {
    KeyOf(a) == KeyOf(b)
  }

  /** Lists and dicts cannot be dict keys: using one as a book name raises. */
  predicate Hashable(j: Json) {
    !j.JArr? && !j.JObj?
  }

  /** An annotation as stored in a book's list: a dict whose keys may be
      absent (None). */
  datatype Entry = Entry(page: Option<Json>, quote: Option<Json>, annotation: Option<Json>)

  /** The dict the loop stores for a record: its page, quote and note. */
  function EntryOf(r: Record): Entry {
    Entry(Some(r.page), Some(r.quote), Some(r.annotation))
  }

  /** An insertion-ordered dict from book name to annotation list. */
  type Books = seq<(Json, seq<Entry>)>

  /** No two names are the same dict key. */
  predicate DistinctKeys(titles: seq<Json>) {
    forall a, b :: 0 <= a < b < |titles| ==> !SameKey(titles[a], titles[b])
  }

  predicate Listed(titles: seq<Json>, k: Json) {
    exists i :: 0 <= i < |titles| && SameKey(titles[i], k)
  }

  /** The distinct book names in the order they are first met; a name stays
      as it was first spelled. */
  function Titles(rs: seq<Record>): seq<Json> {
    if rs == [] then []
    else
      var n := |rs| - 1;
      var ts := Titles(rs[..n]);
      if Listed(ts, rs[n].bookName) then ts else ts + [rs[n].bookName]
  }

  /** The entries of the records filed under `k`, in input order. */
  function EntriesFor(rs: seq<Record>, k: Json): seq<Entry> {
    if rs == [] then []
    else
      var n := |rs| - 1;
      EntriesFor(rs[..n], k) + (if SameKey(rs[n].bookName, k) then [EntryOf(rs[n])] else [])
  }

  /** The dict the grouping loop builds, as (key, list) pairs in key order. */
  function Grouped(rs: seq<Record>): Books {
    var ts := Titles(rs);
    seq(|ts|, i requires 0 <= i < |ts| => (ts[i], EntriesFor(rs, ts[i])))
  }

  /** `k in books_data`: the position of the book filed under `k`, or -1. */
  function Find(books: Books, k: Json): (i: int)
    ensures -1 <= i < |books|
    ensures 0 <= i ==> SameKey(books[i].0, k)
    ensures i < 0 <==> forall j :: 0 <= j < |books| ==> !SameKey(books[j].0, k)
  {
    if books == [] then -1
    else if SameKey(books[0].0, k) then 0
    else
      var i := Find(books[1..], k);
      if i < 0 then -1 else i + 1
  }

  /** The grouping loop of the source. */
  method GroupByBook(records: seq<Record>) returns (books: Books)
    requires forall r :: r in records ==> Hashable(r.bookName)
    ensures books == Grouped(records)
  {
    books := [];
    for n := 0 to |records|
      invariant books == Grouped(records[..n])
    {
      var item := records[n];
      assert records[..n + 1] == records[..n] + [item];
      GroupedStep(records[..n], item);
      var bookName := item.bookName;
      var i := Find(books, bookName);
      if i < 0 {
        books := books + [(bookName, [])];
        i := |books| - 1;
      }
      books := books[i := (books[i].0, books[i].1 + [EntryOf(item)])];
    }
    assert records[..|records|] == records;
  }

  /** What one more record does to the dict: it opens a new book at the end,
      or joins the end of its book's list. */
  lemma GroupedStep(rs: seq<Record>, r: Record)
    ensures var books := Grouped(rs);
      var i := Find(books, r.bookName);
      Grouped(rs + [r]) ==
        if i < 0 then books + [(r.bookName, [EntryOf(r)])]
        else books[i := (books[i].0, books[i].1 + [EntryOf(r)])]
  {
    var rs' := rs + [r];
    assert rs'[..|rs|] == rs;
    var ts := Titles(rs);
    var books := Grouped(rs);
    var i := Find(books, r.bookName);
    var e := EntryOf(r);
    forall k
      ensures EntriesFor(rs', k) == EntriesFor(rs, k) + (if SameKey(r.bookName, k) then [e] else [])
    {
    }
    if i < 0 {
      assert !Listed(ts, r.bookName) by {
        forall j | 0 <= j < |ts|
          ensures !SameKey(ts[j], r.bookName)
        {
          assert books[j].0 == ts[j];
        }
      }
      assert Titles(rs') == ts + [r.bookName];
      EntriesUnlisted(rs, r.bookName);
      var expected := books + [(r.bookName, [e])];
      var got := Grouped(rs');
      assert |got| == |expected|;
      forall j | 0 <= j < |got|
        ensures got[j] == expected[j]
      {
        var ts' := Titles(rs');
        assert got[j] == (ts'[j], EntriesFor(rs', ts'[j]));
        if j < |ts| {
          assert ts'[j] == ts[j];
          assert !SameKey(ts[j], r.bookName);
          assert EntriesFor(rs', ts[j]) == EntriesFor(rs, ts[j]) + [];
          assert EntriesFor(rs, ts[j]) + [] == EntriesFor(rs, ts[j]);
          assert books[j] == (ts[j], EntriesFor(rs, ts[j]));
          assert expected[j] == books[j];
          assert got[j] == expected[j];
        } else {
          assert ts'[j] == r.bookName;
          assert EntriesFor(rs', r.bookName) == EntriesFor(rs, r.bookName) + [e];
          assert EntriesFor(rs', r.bookName) == [e];
          assert expected[j] == (r.bookName, [e]);
          assert got[j] == expected[j];
        }
      }
    } else {
      assert books[i].0 == ts[i];
      assert Listed(ts, r.bookName);
      assert Titles(rs') == ts;
      TitlesUnique(rs);
      var expected := books[i := (books[i].0, books[i].1 + [e])];
      var got := Grouped(rs');
      assert |got| == |expected|;
      forall j | 0 <= j < |got|
        ensures got[j] == expected[j]
      {
        assert got[j] == (ts[j], EntriesFor(rs', ts[j]));
        assert books[j] == (ts[j], EntriesFor(rs, ts[j]));
        if j != i {
          assert !SameKey(ts[j], ts[i]) by {
            if j < i {} else {}
          }
          assert EntriesFor(rs', ts[j]) == EntriesFor(rs, ts[j]) + [];
          assert EntriesFor(rs, ts[j]) + [] == EntriesFor(rs, ts[j]);
          assert expected[j] == books[j];
        } else {
          assert EntriesFor(rs', ts[j]) == EntriesFor(rs, ts[j]) + [e];
          assert expected[j] == (ts[j], EntriesFor(rs, ts[j]) + [e]);
        }
      }
    }
  }

  /** The keys are distinct under dict key equality. */
  lemma {:induction false} TitlesUnique(rs: seq<Record>)
    ensures DistinctKeys(Titles(rs))
  {
    if rs != [] {
      var n := |rs| - 1;
      TitlesUnique(rs[..n]);
      var ts := Titles(rs[..n]);
      if Listed(ts, rs[n].bookName) {
        assert Titles(rs) == ts;
      } else {
        var ts' := ts + [rs[n].bookName];
        assert Titles(rs) == ts';
        forall a, b | 0 <= a < b < |ts'|
          ensures !SameKey(ts'[a], ts'[b])
        {
          if b == |ts| {
            assert ts'[a] == ts[a] && ts'[b] == rs[n].bookName;
            assert !SameKey(ts[a], rs[n].bookName);
          } else {
            assert ts'[a] == ts[a] && ts'[b] == ts[b];
          }
        }
      }
    }
  }

  /** The keys grow only at the end: the keys of a prefix of the input
      are a prefix of the keys of the whole. */
  lemma {:induction false} TitlesOfPrefix(rs: seq<Record>, m: nat)
    requires m <= |rs|
    ensures |Titles(rs[..m])| <= |Titles(rs)|
    ensures Titles(rs[..m]) == Titles(rs)[..|Titles(rs[..m])|]
    decreases |rs| - m
  {
    if m < |rs| {
      var n := |rs| - 1;
      assert rs[..n][..m] == rs[..m];
      TitlesOfPrefix(rs[..n], m);
    } else {
      assert rs[..m] == rs;
    }
  }

  /** Every record's book name is a key. */
  lemma {:induction false} TitlesListEveryRecord(rs: seq<Record>)
    ensures forall p :: 0 <= p < |rs| ==> Listed(Titles(rs), rs[p].bookName)
  {
    if rs != [] {
      var n := |rs| - 1;
      TitlesListEveryRecord(rs[..n]);
      var ts := Titles(rs[..n]);
      forall p | 0 <= p < |rs|
        ensures Listed(Titles(rs), rs[p].bookName)
      {
        if p < n {
          assert rs[..n][p] == rs[p];
          var i :| 0 <= i < |ts| && SameKey(ts[i], rs[p].bookName);
          assert Titles(rs)[i] == ts[i];
        } else if !Listed(ts, rs[n].bookName) {
          assert Titles(rs)[|ts|] == rs[n].bookName;
        }
      }
    }
  }

  /** A name no key matches has no entries. */
  lemma {:induction false} EntriesUnlisted(rs: seq<Record>, k: Json)
    requires !Listed(Titles(rs), k)
    ensures EntriesFor(rs, k) == []
  {
    if rs != [] {
      var n := |rs| - 1;
      var ts := Titles(rs[..n]);
      TitlesOfPrefix(rs, n);
      assert !Listed(ts, k) by {
        forall i | 0 <= i < |ts|
          ensures !SameKey(ts[i], k)
        {
          assert ts[i] == Titles(rs)[i];
        }
      }
      EntriesUnlisted(rs[..n], k);
      TitlesListEveryRecord(rs);
      var i :| 0 <= i < |Titles(rs)| && SameKey(Titles(rs)[i], rs[n].bookName);
      assert !SameKey(Titles(rs)[i], k);
    }
  }

  /** The position of the first record filed under `k`, or the length of the
      input when there is none. */
  function FirstIndex(rs: seq<Record>, k: Json): (p: nat)
    ensures p <= |rs|
    ensures p < |rs| ==> SameKey(rs[p].bookName, k)
    ensures forall q :: 0 <= q < p ==> !SameKey(rs[q].bookName, k)
  {
    if rs == [] then 0
    else if SameKey(rs[0].bookName, k) then 0
    else 1 + FirstIndex(rs[1..], k)
  }

  lemma FirstIndexIs(rs: seq<Record>, k: Json, p: nat)
    requires p < |rs| && SameKey(rs[p].bookName, k)
    requires forall q :: 0 <= q < p ==> !SameKey(rs[q].bookName, k)
    ensures FirstIndex(rs, k) == p
  {
  }

  /** Keys appear in the order their books are first met, and each key is
      spelled as the record that introduced it. */
  lemma {:induction false} TitlesFirstSeen(rs: seq<Record>)
    ensures forall i :: 0 <= i < |Titles(rs)| ==>
      FirstIndex(rs, Titles(rs)[i]) < |rs| && rs[FirstIndex(rs, Titles(rs)[i])].bookName == Titles(rs)[i]
    ensures forall i, j :: 0 <= i < j < |Titles(rs)| ==>
      FirstIndex(rs, Titles(rs)[i]) < FirstIndex(rs, Titles(rs)[j])
  {
    if rs != [] {
      var n := |rs| - 1;
      var prefix := rs[..n];
      TitlesFirstSeen(prefix);
      var ts0 := Titles(prefix);
      var ts := Titles(rs);
      forall i | 0 <= i < |ts0|
        ensures FirstIndex(rs, ts0[i]) == FirstIndex(prefix, ts0[i])
      {
        var p := FirstIndex(prefix, ts0[i]);
        assert prefix[p] == rs[p];
        forall q | 0 <= q < p
          ensures !SameKey(rs[q].bookName, ts0[i])
        {
          assert prefix[q] == rs[q];
        }
        FirstIndexIs(rs, ts0[i], p);
      }
      if Listed(ts0, rs[n].bookName) {
        assert ts == ts0;
      } else {
        assert ts == ts0 + [rs[n].bookName];
        forall q | 0 <= q < n
          ensures !SameKey(rs[q].bookName, rs[n].bookName)
        {
          TitlesListEveryRecord(prefix);
          assert prefix[q] == rs[q];
          var i :| 0 <= i < |ts0| && SameKey(ts0[i], prefix[q].bookName);
        }
        FirstIndexIs(rs, rs[n].bookName, n);
        forall i | 0 <= i < |ts0|
          ensures FirstIndex(rs, ts[i]) < n
        {
          assert ts[i] == ts0[i];
        }
      }
    }
  }

  /** An entry is in a book's list exactly when some record of that book
      stored it. */
  lemma {:induction false} EntriesForMembership(rs: seq<Record>, k: Json, e: Entry)
    ensures e in EntriesFor(rs, k) <==>
      exists p :: 0 <= p < |rs| && SameKey(rs[p].bookName, k) && e == EntryOf(rs[p])
  {
    if rs != [] {
      var n := |rs| - 1;
      EntriesForMembership(rs[..n], k, e);
      if e in EntriesFor(rs, k) {
        if e in EntriesFor(rs[..n], k) {
          var p :| 0 <= p < n && SameKey(rs[..n][p].bookName, k) && e == EntryOf(rs[..n][p]);
          assert rs[..n][p] == rs[p];
        }
      } else {
        forall p | 0 <= p < |rs| && SameKey(rs[p].bookName, k)
          ensures e != EntryOf(rs[p])
        {
          if p < n {
            assert rs[..n][p] == rs[p];
          }
        }
      }
    }
  }

  /** No book's list is empty. */
  lemma EntriesNonEmpty(rs: seq<Record>)
    ensures forall i :: 0 <= i < |Titles(rs)| ==> EntriesFor(rs, Titles(rs)[i]) != []
  {
    TitlesFirstSeen(rs);
    forall i | 0 <= i < |Titles(rs)|
      ensures EntriesFor(rs, Titles(rs)[i]) != []
    {
      var t := Titles(rs)[i];
      var p := FirstIndex(rs, t);
      EntriesForMembership(rs, t, EntryOf(rs[p]));
    }
  }

  /** The number of annotations in all books together. */
  function TotalEntries(books: Books): nat {
    if books == [] then 0
    else TotalEntries(books[..|books| - 1]) + |books[|books| - 1].1|
  }

  lemma {:induction false} TotalEntriesGrow(books: Books, i: nat, x: (Json, seq<Entry>))
    requires i < |books| && |x.1| == |books[i].1| + 1
    ensures TotalEntries(books[i := x]) == TotalEntries(books) + 1
  {
    var n := |books| - 1;
    var after := books[i := x];
    if i == n {
      assert after[..n] == books[..n];
    } else {
      assert after[..n] == books[..n][i := x];
      TotalEntriesGrow(books[..n], i, x);
    }
  }

  /** Grouping neither loses nor duplicates an annotation. */
  lemma {:induction false} GroupedTotal(rs: seq<Record>)
    ensures TotalEntries(Grouped(rs)) == |rs|
  {
    if rs != [] {
      var n := |rs| - 1;
      var r := rs[n];
      assert rs == rs[..n] + [r];
      GroupedTotal(rs[..n]);
      GroupedStep(rs[..n], r);
      var books := Grouped(rs[..n]);
      var i := Find(books, r.bookName);
      if i < 0 {
        var after := books + [(r.bookName, [EntryOf(r)])];
        assert after[..|books|] == books;
      } else {
        TotalEntriesGrow(books, i, (books[i].0, books[i].1 + [EntryOf(r)]));
      }
    }
  }
}
