/**
  The index page's list of dates: `sorted(SUMMARY["date"].unique())`, the
  distinct dates of the table in increasing order. Dates are strings and
  compare as Python compares strings.
*/
module DateIndex {
  import opened Strings
  import opened Summary

  /** Strictly increasing: sorted and free of duplicates. */
  predicate StrictlySorted(s: seq<string>) {
    forall i, j :: 0 <= i < j < |s| ==> Less(s[i], s[j])
  }

  /** `d` is the date of some row of the table. */
  predicate InTable<Id>(table: Table<Id>, d: string) {
    exists i :: 0 <= i < |table| && table[i].date == d
  }

  /** Adds `d` to a strictly increasing list, keeping it strictly increasing. */
  function Insert(s: seq<string>, d: string): (r: seq<string>)
    requires StrictlySorted(s)
    ensures StrictlySorted(r)
    ensures forall x :: x in r <==> x in s || x == d
  {
    if s == [] then [d]
    else if d == s[0] then s
    else if Less(d, s[0]) then
      assert forall j :: 0 <= j < |s| ==> Less(d, s[j]) by {
        forall j | 0 <= j < |s| ensures Less(d, s[j]) {
          if j > 0 { LessTransitive(d, s[0], s[j]); }
        }
      }
      [d] + s
    else
      LessTotal(d, s[0]);
      var rest := Insert(s[1..], d);
      assert forall x :: x in rest ==> Less(s[0], x) by {
        forall x | x in rest ensures Less(s[0], x) {
          if x != d {
            var j :| 0 <= j < |s[1..]| && s[1..][j] == x;
            assert s[j + 1] == x;
          }
        }
      }
      [s[0]] + rest
  }

  /** The distinct dates of the table, in increasing order. */
  function ListDates<Id>(table: Table<Id>): (dates: seq<string>)
    ensures StrictlySorted(dates)
    ensures forall d :: d in dates <==> InTable(table, d)
  {
    if table == [] then []
    else
      var n := |table| - 1;
      var dates := Insert(ListDates(table[..n]), table[n].date);
      assert forall d :: InTable(table, d) <==> InTable(table[..n], d) || d == table[n].date by {
        forall d ensures InTable(table, d) <==> InTable(table[..n], d) || d == table[n].date {
          if InTable(table, d) && d != table[n].date {
            var i :| 0 <= i < |table| && table[i].date == d;
            assert table[..n][i].date == d;
          }
          if InTable(table[..n], d) {
            var i :| 0 <= i < n && table[..n][i].date == d;
            assert table[i].date == d;
          }
        }
      }
      dates
  }

  /** The head of a strictly increasing list is below every other element. */
  lemma HeadIsLeast(s: seq<string>, x: string)
    requires StrictlySorted(s) && x in s
    ensures x == s[0] || Less(s[0], x)
  {
  }

  /**
    A strictly increasing list is determined by its elements, so the listing
    is the one sorted, duplicate-free enumeration of the table's dates.
  */
  lemma {:induction false} StrictlySortedUnique(a: seq<string>, b: seq<string>)
    requires StrictlySorted(a) && StrictlySorted(b)
    requires forall x :: x in a <==> x in b
    ensures a == b
  {
    // one list is empty exactly when the other is
    assert a != [] ==> a[0] in b;
    assert b != [] ==> b[0] in a;
    if a != [] && b != [] {
      assert a[0] in a && b[0] in b;
      HeadIsLeast(b, a[0]);
      HeadIsLeast(a, b[0]);
      if a[0] != b[0] {
        LessAsymmetric(a[0], b[0]);
      }
      LessIrreflexive(a[0]);
      forall x ensures x in a[1..] <==> x in b[1..] {
        if x in a[1..] {
          var i :| 0 <= i < |a| - 1 && a[1..][i] == x;
          assert Less(a[0], a[i + 1]);
          assert a[i + 1] in a;
          var j :| 0 <= j < |b| && b[j] == x;
          assert j != 0 && b[1..][j - 1] == x;
        }
        if x in b[1..] {
          var i :| 0 <= i < |b| - 1 && b[1..][i] == x;
          assert Less(b[0], b[i + 1]);
          assert b[i + 1] in b;
          var j :| 0 <= j < |a| && a[j] == x;
          assert j != 0 && a[1..][j - 1] == x;
        }
      }
      StrictlySortedUnique(a[1..], b[1..]);
      assert a == [a[0]] + a[1..] && b == [b[0]] + b[1..];
    }
  }

  /** Any strictly increasing enumeration of the table's dates is the index's list. */
  lemma ListDatesIsTheSortedEnumeration<Id>(table: Table<Id>, s: seq<string>)
    requires StrictlySorted(s)
    requires forall d :: d in s <==> InTable(table, d)
    ensures ListDates(table) == s
  {
    StrictlySortedUnique(ListDates(table), s);
  }
}
