/**
  Period filter and deduplicator: keep the annual-report rows, sort them by
  period end and keep one row per accession number, the last after sorting.
 */
module Periods {
  import opened Seqs
  import opened Dates
  import opened Facts

  predicate IsTenK(f: Fact) { f.form == "10-K" }

  /** `df[df['form'] == '10-K']`: every 10-K row, as often as it occurs, in order, and nothing else. */
  function AnnualFilings(t: seq<Fact>): (r: seq<Fact>)
    ensures forall i :: 0 <= i < |r| ==> r[i].form == "10-K" && r[i] in t
    ensures forall i :: 0 <= i < |t| && t[i].form == "10-K" ==> t[i] in r
    ensures SubseqOf(r, t)
    ensures |r| == CountIf(IsTenK, t)
  {
    Filter(IsTenK, t)
  }

  /** The annual filter keeps its rows in input order and is idempotent. */
  lemma AnnualFilingsOrderAndIdempotence(t: seq<Fact>)
    ensures SubseqOf(AnnualFilings(t), t)
    ensures AnnualFilings(AnnualFilings(t)) == AnnualFilings(t)
  {
    FilterIdempotent(IsTenK, t);
  }

  /** Rows in ascending order of `end`. */
  ghost predicate SortedByEnd(s: seq<Fact>)
  {
    forall i, j :: 0 <= i < j < |s| ==> LexLe(s[i].end, s[j].end)
  }

  /** Places `x` before the first row whose `end` is not earlier than its own. */
  function InsertByEnd(x: Fact, s: seq<Fact>): (r: seq<Fact>)
    requires SortedByEnd(s)
    ensures SortedByEnd(r)
    ensures multiset(r) == multiset(s) + multiset{x}
  {
    if s == [] then [x]
    else if LexLe(x.end, s[0].end) then
      LexLeTotalOrder();
      [x] + s
    else
      var rest := InsertByEnd(x, s[1..]);
      LexLeTotalOrder();
      assert s == [s[0]] + s[1..];
      assert forall k :: 0 <= k < |rest| ==> LexLe(s[0].end, rest[k].end) by {
        forall k | 0 <= k < |rest| ensures LexLe(s[0].end, rest[k].end) {
          assert rest[k] in multiset(rest);
          if rest[k] != x {
            assert rest[k] in multiset(s[1..]);
            var m :| 0 <= m < |s[1..]| && s[1..][m] == rest[k];
            assert s[m + 1] == rest[k];
          }
        }
      }
      [s[0]] + rest
  }

  /** `sort_values('end')`: a stable insertion sort by `end`. */
  function SortByEnd(s: seq<Fact>): (r: seq<Fact>)
    ensures SortedByEnd(r)
    ensures multiset(r) == multiset(s)
  {
    if s == [] then [] else
      assert s == [s[0]] + s[1..];
      InsertByEnd(s[0], SortByEnd(s[1..]))
  }

  /** Sorting an already sorted table changes nothing. */
  lemma {:induction false} SortSortedIdentity(s: seq<Fact>)
    requires SortedByEnd(s)
    ensures SortByEnd(s) == s
    decreases |s|
  {
    if s != [] {
      assert SortedByEnd(s[1..]);
      SortSortedIdentity(s[1..]);
      if |s| > 1 { assert LexLe(s[0].end, s[1..][0].end); }
      assert s == [s[0]] + s[1..];
    }
  }

  /** A subsequence of a sorted table is sorted. */
  lemma {:induction false} SubseqSorted(a: seq<Fact>, b: seq<Fact>)
    requires SubseqOf(a, b) && SortedByEnd(b)
    ensures SortedByEnd(a)
    decreases |b|
  {
    if a != [] {
      assert SortedByEnd(b[1..]);
      if a[0] == b[0] && SubseqOf(a[1..], b[1..]) {
        SubseqSorted(a[1..], b[1..]);
        SubseqOfIn(a[1..], b[1..]);
        forall i, j | 0 <= i < j < |a| ensures LexLe(a[i].end, a[j].end) {
          if i == 0 {
            assert a[j] == a[1..][j - 1];
            var m :| 0 <= m < |b[1..]| && b[1..][m] == a[j];
            assert b[m + 1] == a[j];
          } else {
            assert a[i] == a[1..][i - 1] && a[j] == a[1..][j - 1];
          }
        }
      } else {
        SubseqSorted(a, b[1..]);
      }
    }
  }

  function AccnSet(s: seq<Fact>): set<string>
  {
    set f | f in s :: f.accn
  }

  /** No accession number occurs twice. */
  ghost predicate UniqueAccns(s: seq<Fact>)
  {
    forall i, j :: 0 <= i < j < |s| ==> s[i].accn != s[j].accn
  }

  /**
    `drop_duplicates('accn', keep='last')`: a row is kept iff no later row has
    the same accession number.
   */
  function KeepLastPerAccn(s: seq<Fact>): (r: seq<Fact>)
    ensures UniqueAccns(r)
    ensures AccnSet(r) == AccnSet(s)
    ensures SubseqOf(r, s)
  {
    if s == [] then [] else
      var rest := KeepLastPerAccn(s[1..]);
      assert AccnSet(s) == {s[0].accn} + AccnSet(s[1..]) by {
        assert s == [s[0]] + s[1..];
      }
      if s[0].accn in AccnSet(s[1..]) then
        SubseqOfKeepsDropHead(rest, s);
        rest
      else
        KeepHead(s[0], rest);
        [s[0]] + rest
  }

  /** Putting a row of a new accession in front keeps accessions unique. */
  lemma KeepHead(x: Fact, rest: seq<Fact>)
    requires UniqueAccns(rest) && x.accn !in AccnSet(rest)
    ensures UniqueAccns([x] + rest)
    ensures AccnSet([x] + rest) == {x.accn} + AccnSet(rest)
  {
    var r := [x] + rest;
    assert forall i :: 0 <= i < |rest| ==> rest[i].accn in AccnSet(rest);
    forall i, j | 0 <= i < j < |r| ensures r[i].accn != r[j].accn {
      assert r[j] == rest[j - 1];
      if i > 0 { assert r[i] == rest[i - 1]; }
    }
    assert forall f :: f in r <==> f == x || f in rest;
  }

  lemma SubseqOfKeepsDropHead(a: seq<Fact>, s: seq<Fact>)
    requires s != [] && SubseqOf(a, s[1..])
    ensures SubseqOf(a, s)
  {
  }

  /** Row `i` is the last row of its accession number: no later row has the same one. */
  ghost predicate IsLastOfAccn(s: seq<Fact>, i: nat)
    requires i < |s|
  {
    forall j :: i < j < |s| ==> s[j].accn != s[i].accn
  }

  /** keep='last', one direction: every kept row is the last row of its accession in the input. */
  lemma {:induction false} KeptIsLast(s: seq<Fact>, k: nat)
    requires k < |KeepLastPerAccn(s)|
    ensures exists i :: 0 <= i < |s| && s[i] == KeepLastPerAccn(s)[k] && IsLastOfAccn(s, i)
    decreases |s|
  {
    var r := KeepLastPerAccn(s);
    var tail := s[1..];
    var rest := KeepLastPerAccn(tail);
    if s[0].accn in AccnSet(tail) || k > 0 {
      var k' := if s[0].accn in AccnSet(tail) then k else k - 1;
      assert r[k] == rest[k'];
      KeptIsLast(tail, k');
      var i' :| 0 <= i' < |tail| && tail[i'] == rest[k'] && IsLastOfAccn(tail, i');
      assert s[i' + 1] == r[k];
      forall j | i' + 1 < j < |s| ensures s[j].accn != s[i' + 1].accn {
        assert s[j] == tail[j - 1];
      }
    } else {
      assert r[0] == s[0];
      forall j | 0 < j < |s| ensures s[j].accn != s[0].accn {
        assert s[j] == tail[j - 1];
        assert s[j].accn in AccnSet(tail);
      }
    }
  }

  /** keep='last', other direction: the last row of each accession is kept. */
  lemma {:induction false} LastIsKept(s: seq<Fact>, i: nat)
    requires i < |s| && IsLastOfAccn(s, i)
    ensures s[i] in KeepLastPerAccn(s)
    decreases |s|
  {
    var tail := s[1..];
    if i == 0 {
      assert s[0].accn !in AccnSet(tail) by {
        forall m | 0 <= m < |tail| ensures tail[m].accn != s[0].accn {
          assert tail[m] == s[m + 1];
        }
      }
    } else {
      forall j | i - 1 < j < |tail| ensures tail[j].accn != tail[i - 1].accn {
        assert tail[j] == s[j + 1];
      }
      LastIsKept(tail, i - 1);
    }
  }

  /** A table whose accession numbers are already unique is left as it is. */
  lemma {:induction false} KeepLastUniqueIdentity(s: seq<Fact>)
    requires UniqueAccns(s)
    ensures KeepLastPerAccn(s) == s
    decreases |s|
  {
    if s != [] {
      assert UniqueAccns(s[1..]) by {
        forall i, j | 0 <= i < j < |s[1..]| ensures s[1..][i].accn != s[1..][j].accn {
          assert s[1..][i] == s[i + 1] && s[1..][j] == s[j + 1];
        }
      }
      KeepLastUniqueIdentity(s[1..]);
      assert s[0].accn !in AccnSet(s[1..]);
      assert s == [s[0]] + s[1..];
    }
  }

  /**
    On a table sorted by `end`, the row kept for an accession number has the
    latest `end` among that accession's rows.
   */
  lemma {:induction false} KeptRowIsLatest(s: seq<Fact>, x: Fact, y: Fact)
    requires SortedByEnd(s)
    requires x in KeepLastPerAccn(s) && y in s && y.accn == x.accn
    ensures LexLe(y.end, x.end)
    decreases |s|, 1
  {
    if x in KeepLastPerAccn(s[1..]) {
      KeptFromTailIsLatest(s, x, y);
    } else {
      KeptHeadIsOnly(s, x, y);
      LexLeRefl(y.end);
    }
  }

  /** A row kept from the tail has an `end` no earlier than the head's, nor than any tail row of its accession. */
  lemma {:induction false} KeptFromTailIsLatest(s: seq<Fact>, x: Fact, y: Fact)
    requires SortedByEnd(s) && s != []
    requires x in KeepLastPerAccn(s[1..]) && y in s && y.accn == x.accn
    ensures LexLe(y.end, x.end)
    decreases |s|, 0
  {
    var tail := s[1..];
    assert SortedByEnd(tail);
    if y in tail {
      KeptRowIsLatest(tail, x, y);
    } else {
      assert y == s[0] by { assert s == [s[0]] + tail; }
      SubseqOfIn(KeepLastPerAccn(tail), tail);
      var k :| 0 <= k < |tail| && tail[k] == x;
      assert s[k + 1] == x;
    }
  }

  /** A kept row that is not kept from the tail is the head, and the only row of its accession. */
  lemma KeptHeadIsOnly(s: seq<Fact>, x: Fact, y: Fact)
    requires s != [] && x in KeepLastPerAccn(s) && x !in KeepLastPerAccn(s[1..])
    requires y in s && y.accn == x.accn
    ensures y == x
  {
    assert x == s[0] && s[0].accn !in AccnSet(s[1..]);
    assert s == [s[0]] + s[1..];
  }

  /** `sort_values('end').drop_duplicates('accn', keep='last')` */
  function LatestPerAccn(t: seq<Fact>): (r: seq<Fact>)
    ensures UniqueAccns(r)
    ensures AccnSet(r) == AccnSet(t)
    ensures SortedByEnd(r)
    ensures multiset(r) <= multiset(t)
  {
    var s := SortByEnd(t);
    var r := KeepLastPerAccn(s);
    KeptRowsSortedSubmultiset(r, s);
    SameRowsSameAccns(s, t);
    r
  }

  lemma SameRowsSameAccns(s: seq<Fact>, t: seq<Fact>)
    requires multiset(s) == multiset(t)
    ensures AccnSet(s) == AccnSet(t)
  {
    assert forall f :: f in s <==> f in t by {
      assert forall f :: f in s <==> f in multiset(s);
      assert forall f :: f in t <==> f in multiset(t);
    }
  }

  lemma KeptRowsSortedSubmultiset(r: seq<Fact>, s: seq<Fact>)
    requires SortedByEnd(s) && SubseqOf(r, s)
    ensures SortedByEnd(r) && multiset(r) <= multiset(s)
  {
    SubseqSorted(r, s);
    SubseqMultiset(r, s);
  }

  lemma {:induction false} SubseqMultiset(a: seq<Fact>, b: seq<Fact>)
    requires SubseqOf(a, b)
    ensures multiset(a) <= multiset(b)
    decreases |b|
  {
    if a != [] {
      assert b == [b[0]] + b[1..];
      if a[0] == b[0] && SubseqOf(a[1..], b[1..]) {
        SubseqMultiset(a[1..], b[1..]);
        assert a == [a[0]] + a[1..];
      } else {
        SubseqMultiset(a, b[1..]);
      }
    }
  }

  /**
    Whatever order a sort gives rows with equal `end`: dropping all but the last
    row per accession of ANY end-sorted permutation of `t` keeps, for each
    accession of `t`, exactly one row of `t`, and that row has the latest `end`
    of its accession.
   */
  lemma DedupOfAnySortedPermutation(t: seq<Fact>, s: seq<Fact>)
    requires SortedByEnd(s) && multiset(s) == multiset(t)
    ensures UniqueAccns(KeepLastPerAccn(s))
    ensures AccnSet(KeepLastPerAccn(s)) == AccnSet(t)
    ensures forall x, y :: x in KeepLastPerAccn(s) && y in t && y.accn == x.accn ==> x in t && LexLe(y.end, x.end)
  {
    var r := KeepLastPerAccn(s);
    SameRowsSameAccns(s, t);
    assert forall f :: f in s <==> f in t by {
      assert forall f :: f in s <==> f in multiset(s);
      assert forall f :: f in t <==> f in multiset(t);
    }
    SubseqOfIn(r, s);
    forall x, y | x in r && y in t && y.accn == x.accn ensures x in t && LexLe(y.end, x.end) {
      KeptRowIsLatest(s, x, y);
    }
  }

  /** Deduplication is idempotent. */
  lemma LatestPerAccnIdempotent(t: seq<Fact>)
    ensures LatestPerAccn(LatestPerAccn(t)) == LatestPerAccn(t)
  {
    var r := LatestPerAccn(t);
    SortSortedIdentity(r);
    KeepLastUniqueIdentity(r);
  }

  /**
    A filing that restates two periods keeps the later one: if `a` (ending
    2023-06-30) and `b` (ending 2023-12-31) are the only rows of their
    accession, `b` survives deduplication and `a` does not.
   */
  lemma RestatedFilingKeepsYearEnd(t: seq<Fact>, a: Fact, b: Fact)
    requires a in t && b in t && a.accn == b.accn
    requires a.end == "2023-06-30" && b.end == "2023-12-31"
    requires forall f :: f in t && f.accn == a.accn ==> f == a || f == b
    ensures b in LatestPerAccn(t) && a !in LatestPerAccn(t)
  {
    MidYearBeforeYearEnd();
    var r := LatestPerAccn(t);
    var s := SortByEnd(t);
    DedupOfAnySortedPermutation(t, s);
    assert a.accn in AccnSet(r) by { assert a.accn in AccnSet(t); }
    var x :| x in r && x.accn == a.accn;
    assert x in t && LexLe(b.end, x.end);
    if a in r {
      assert false;
    }
  }
}
