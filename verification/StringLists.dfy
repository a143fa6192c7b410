/**
 The list helpers of the policy engine: trimmed and sorted configuration lists, binary-search membership and
 the in-place removal of blanks and duplicates.
 */
module StringLists {
  import opened Text

  predicate Ascending(xs: seq<string>) {
    forall i, j :: 0 <= i < j < |xs| ==> Leq(xs[i], xs[j])
  }

  predicate StrictlyAscending(xs: seq<string>) {
    forall i, j :: 0 <= i < j < |xs| ==> Leq(xs[i], xs[j]) && xs[i] != xs[j]
  }

  // ---------- sorting ----------

  function Insert(x: string, xs: seq<string>): seq<string> {
    if xs == [] then [x]
    else if Leq(x, xs[0]) then [x] + xs
    else [xs[0]] + Insert(x, xs[1..])
  }

  /** sort.Strings; the order is total, so the result does not depend on the algorithm. */
  function Sort(xs: seq<string>): (r: seq<string>)
    ensures |r| == |xs|
  {
    if xs == [] then [] else
      InsertLength(xs[0], Sort(xs[1..]));
      Insert(xs[0], Sort(xs[1..]))
  }

  lemma {:induction false} InsertLength(x: string, xs: seq<string>)
    ensures |Insert(x, xs)| == |xs| + 1
  {
    if xs != [] && !Leq(x, xs[0]) {
      InsertLength(x, xs[1..]);
    }
  }

  lemma {:induction false} InsertMembers(x: string, xs: seq<string>, y: string)
    ensures y in Insert(x, xs) <==> y == x || y in xs
  {
    if xs != [] {
      assert y in xs <==> y == xs[0] || y in xs[1..];
      if !Leq(x, xs[0]) {
        InsertMembers(x, xs[1..], y);
      }
    }
  }

  lemma {:induction false} SortMembers(xs: seq<string>, y: string)
    ensures y in Sort(xs) <==> y in xs
  {
    if xs != [] {
      SortMembers(xs[1..], y);
      InsertMembers(xs[0], Sort(xs[1..]), y);
      assert y in xs <==> y == xs[0] || y in xs[1..];
    }
  }

  lemma {:induction false} InsertMultiset(x: string, xs: seq<string>)
    ensures multiset(Insert(x, xs)) == multiset(xs) + multiset{x}
  {
    if xs != [] && !Leq(x, xs[0]) {
      InsertMultiset(x, xs[1..]);
      assert xs == [xs[0]] + xs[1..];
    }
  }

  /** Sorting is an ordered permutation. */
  lemma {:induction false} SortPermutes(xs: seq<string>)
    ensures multiset(Sort(xs)) == multiset(xs) && Ascending(Sort(xs))
  {
    SortAscending(xs);
    if xs != [] {
      SortPermutes(xs[1..]);
      InsertMultiset(xs[0], Sort(xs[1..]));
      assert xs == [xs[0]] + xs[1..];
    }
  }

  /** A head that is below every member makes a sorted list longer. */
  lemma AscendingCons(x: string, xs: seq<string>)
    requires Ascending(xs) && forall y :: y in xs ==> Leq(x, y)
    ensures Ascending([x] + xs)
  {}

  lemma {:induction false} InsertAscending(x: string, xs: seq<string>)
    requires Ascending(xs)
    ensures Ascending(Insert(x, xs))
  {
    if xs == [] {
    } else if Leq(x, xs[0]) {
      forall y | y in xs ensures Leq(x, y) {
        var i :| 0 <= i < |xs| && xs[i] == y;
        LeqRefl(xs[0]);
        LeqTrans(x, xs[0], y);
      }
      AscendingCons(x, xs);
    } else {
      InsertAscending(x, xs[1..]);
      LeqTotal(x, xs[0]);
      forall y | y in Insert(x, xs[1..]) ensures Leq(xs[0], y) {
        InsertMembers(x, xs[1..], y);
      }
      AscendingCons(xs[0], Insert(x, xs[1..]));
    }
  }

  lemma {:induction false} SortAscending(xs: seq<string>)
    ensures Ascending(Sort(xs))
  {
    if xs != [] {
      SortAscending(xs[1..]);
      InsertAscending(xs[0], Sort(xs[1..]));
    }
  }

  lemma {:induction false} SortOfAscending(xs: seq<string>)
    requires Ascending(xs)
    ensures Sort(xs) == xs
  {
    if xs != [] {
      SortOfAscending(xs[1..]);
      assert xs == [xs[0]] + xs[1..];
      assert |xs| > 1 ==> Leq(xs[0], xs[1]);
    }
  }

  // ---------- normalizeList ----------

  /** The trimmed values that are not blank, in their order. */
  function Cleaned(values: seq<string>): seq<string> {
    if values == [] then []
    else
      var rest := Cleaned(values[..|values| - 1]);
      var v := Trim(values[|values| - 1]);
      if v != "" then rest + [v] else rest
  }

  function NormalizeList(values: seq<string>): seq<string> {
    Sort(Cleaned(values))
  }

  method NormalizeStrings(values: seq<string>) returns (out: seq<string>)
    ensures out == NormalizeList(values)
  {
    out := [];
    var i := 0;
    while i < |values|
      invariant 0 <= i <= |values|
      invariant out == Cleaned(values[..i])
    {
      assert values[..i + 1][..i] == values[..i];
      var v := Trim(values[i]);
      if v != "" {
        out := out + [v];
      }
      i := i + 1;
    }
    assert values[..i] == values;
    out := Sort(out);
  }

  /** The values a configured list stands for. */
  predicate Configured(values: seq<string>, y: string) {
    y != "" && exists i :: 0 <= i < |values| && Trim(values[i]) == y
  }

  lemma ConfiguredLast(values: seq<string>, y: string)
    requires values != []
    ensures var n := |values| - 1;
      Configured(values, y) <==> Configured(values[..n], y) || (y != "" && Trim(values[n]) == y)
  {
    var n := |values| - 1;
    if Configured(values, y) {
      var i :| 0 <= i < |values| && Trim(values[i]) == y;
      if i < n {
        assert Trim(values[..n][i]) == y;
      }
    }
    if Configured(values[..n], y) {
      var i :| 0 <= i < n && Trim(values[..n][i]) == y;
      assert Trim(values[i]) == y;
    }
  }

  lemma {:induction false} CleanedMembers(values: seq<string>, y: string)
    ensures y in Cleaned(values) <==> Configured(values, y)
  {
    if values != [] {
      ConfiguredLast(values, y);
      CleanedMembers(values[..|values| - 1], y);
    }
  }

  predicate AllTight(values: seq<string>) {
    forall v :: v in values ==> v != "" && Trim(v) == v
  }

  lemma {:induction false} CleanedOfTight(values: seq<string>)
    requires AllTight(values)
    ensures Cleaned(values) == values
  {
    if values != [] {
      var n := |values| - 1;
      assert values == values[..n] + [values[n]];
      assert forall v :: v in values[..n] ==> v in values;
      CleanedOfTight(values[..n]);
    }
  }

  /** A normalised list is sorted and tight; normalising it again changes nothing. */
  lemma NormalizeIdempotent(values: seq<string>)
    ensures Ascending(NormalizeList(values)) && AllTight(NormalizeList(values))
    ensures NormalizeList(NormalizeList(values)) == NormalizeList(values)
  {
    var out := NormalizeList(values);
    SortAscending(Cleaned(values));
    forall v | v in out ensures v != "" && Trim(v) == v {
      SortMembers(Cleaned(values), v);
      CleanedMembers(values, v);
      var i :| 0 <= i < |values| && Trim(values[i]) == v;
      TrimIsTight(values[i]);
    }
    CleanedOfTight(out);
    SortOfAscending(out);
  }

  // ---------- binary search ----------

  /** sort.Search between `lo` and `hi`: halving as Go does, also on lists that are not sorted. */
  function Search(list: seq<string>, value: string, lo: nat, hi: nat): (i: nat)
    requires lo <= hi <= |list|
    ensures lo <= i <= hi
    decreases hi - lo
  {
    if lo == hi then lo
    else
      var mid := (lo + hi) / 2;
      if Leq(value, list[mid]) then Search(list, value, lo, mid) else Search(list, value, mid + 1, hi)
  }

  /** `stringInList` */
  predicate InList(value: string, list: seq<string>) {
    var i := Search(list, value, 0, |list|);
    i < |list| && list[i] == value
  }

  method SearchStrings(list: seq<string>, value: string) returns (i: nat)
    ensures i == Search(list, value, 0, |list|)
  {
    var lo, hi := 0, |list|;
    while lo < hi
      invariant 0 <= lo <= hi <= |list|
      invariant Search(list, value, lo, hi) == Search(list, value, 0, |list|)
    {
      var mid := (lo + hi) / 2;
      if Leq(value, list[mid]) {
        hi := mid;
      } else {
        lo := mid + 1;
      }
    }
    i := lo;
  }

  /** On a sorted list the search ends at the first element that is not below the value. */
  lemma {:induction false} SearchFinds(list: seq<string>, value: string, lo: nat, hi: nat)
    requires lo <= hi <= |list| && Ascending(list)
    requires forall k :: 0 <= k < lo ==> !Leq(value, list[k])
    requires forall k :: hi <= k < |list| ==> Leq(value, list[k])
    ensures var i := Search(list, value, lo, hi);
      && (forall k :: 0 <= k < i ==> !Leq(value, list[k]))
      && (forall k :: i <= k < |list| ==> Leq(value, list[k]))
    decreases hi - lo
  {
    if lo < hi {
      var mid := (lo + hi) / 2;
      if Leq(value, list[mid]) {
        forall k | mid <= k < |list| ensures Leq(value, list[k]) {
          if mid < k {
            LeqTrans(value, list[mid], list[k]);
          }
        }
        SearchFinds(list, value, lo, mid);
      } else {
        forall k | 0 <= k < mid + 1 ensures !Leq(value, list[k]) {
          if k < mid && Leq(value, list[k]) {
            LeqTrans(value, list[k], list[mid]);
          }
        }
        SearchFinds(list, value, mid + 1, hi);
      }
    }
  }

  /** Binary search over a sorted list answers membership. */
  lemma InListIsMembership(list: seq<string>, value: string)
    requires Ascending(list)
    ensures InList(value, list) <==> value in list
  {
    SearchFinds(list, value, 0, |list|);
    var i := Search(list, value, 0, |list|);
    if value in list {
      var k :| 0 <= k < |list| && list[k] == value;
      LeqRefl(value);
      assert i <= k;
      if i < k {
        LeqAntisymmetric(list[i], list[k]);
      }
    }
  }

  /** After normalisation, binary search answers exactly the trimmed, non-blank configured values. */
  lemma NormalizedMembership(values: seq<string>, y: string)
    ensures InList(y, NormalizeList(values)) <==> Configured(values, y)
  {
    SortAscending(Cleaned(values));
    InListIsMembership(NormalizeList(values), y);
    SortMembers(Cleaned(values), y);
    CleanedMembers(values, y);
  }

  // ---------- dedupeList ----------

  /** The compaction of a list: blanks and repetitions of the last kept value are dropped. */
  function Compact(xs: seq<string>): seq<string> {
    if xs == [] then []
    else
      var kept, x := Compact(xs[..|xs| - 1]), xs[|xs| - 1];
      if x == "" || (kept != [] && kept[|kept| - 1] == x) then kept else kept + [x]
  }

  function Dedupe(values: seq<string>): seq<string> {
    Compact(Sort(values))
  }

  /** `sort.Strings` on an array. */
  method SortInPlace(a: array<string>)
    modifies a
    ensures a[..] == Sort(old(a[..]))
  {
    var sorted := Sort(a[..]);
    forall i | 0 <= i < a.Length {
      a[i] := sorted[i];
    }
  }

  /** `dedupeList`: the kept values are written over the front of the sorted array. */
  method DedupeList(values: array<string>) returns (n: nat)
    modifies values
    ensures n <= values.Length && values[..n] == Dedupe(old(values[..]))
  {
    if values.Length == 0 {
      return 0;
    }
    SortInPlace(values);
    n := CompactInPlace(values);
  }

  method CompactInPlace(values: array<string>) returns (n: nat)
    modifies values
    ensures n <= values.Length && values[..n] == Compact(old(values[..]))
  {
    ghost var all := values[..];
    var last := "";
    var i := 0;
    n := 0;
    while i < values.Length
      invariant 0 <= n <= i <= values.Length && |all| == values.Length
      invariant values[..n] == Compact(all[..i])
      invariant forall k :: i <= k < values.Length ==> values[k] == all[k]
      invariant last == if n == 0 then "" else values[n - 1]
    {
      var value := values[i];
      CompactNext(all, i);
      if value != "" && value != last {
        values[n] := value;
        n := n + 1;
        last := value;
      }
      i := i + 1;
    }
    assert all[..i] == all;
  }

  lemma CompactNext(all: seq<string>, i: nat)
    requires i < |all|
    ensures var kept := Compact(all[..i]);
      Compact(all[..i + 1]) ==
        if all[i] == "" || (kept != [] && kept[|kept| - 1] == all[i]) then kept else kept + [all[i]]
  {
    assert all[..i + 1][..i] == all[..i];
  }

  lemma {:induction false} CompactMembers(xs: seq<string>, y: string)
    ensures y in Compact(xs) <==> y != "" && y in xs
  {
    if xs != [] {
      var n := |xs| - 1;
      CompactMembers(xs[..n], y);
      assert y in xs <==> y in xs[..n] || y == xs[n];
    }
  }

  lemma {:induction false} CompactAscending(xs: seq<string>)
    requires Ascending(xs)
    ensures StrictlyAscending(Compact(xs))
  {
    if xs != [] {
      var n := |xs| - 1;
      var kept, x := Compact(xs[..n]), xs[n];
      CompactAscending(xs[..n]);
      if x != "" && (kept == [] || kept[|kept| - 1] != x) {
        forall i | 0 <= i < |kept| ensures Leq(kept[i], x) && kept[i] != x {
          KeptBelow(xs, i);
        }
      }
    }
  }

  lemma KeptBelow(xs: seq<string>, i: nat)
    requires xs != [] && Ascending(xs) && StrictlyAscending(Compact(xs[..|xs| - 1]))
    requires i < |Compact(xs[..|xs| - 1])|
    requires Compact(xs[..|xs| - 1])[|Compact(xs[..|xs| - 1])| - 1] != xs[|xs| - 1]
    ensures Leq(Compact(xs[..|xs| - 1])[i], xs[|xs| - 1]) && Compact(xs[..|xs| - 1])[i] != xs[|xs| - 1]
  {
    var n := |xs| - 1;
    var kept, x := Compact(xs[..n]), xs[n];
    var top := kept[|kept| - 1];
    CompactMembers(xs[..n], top);
    CompactMembers(xs[..n], kept[i]);
    var k :| 0 <= k < n && xs[..n][k] == kept[i];
    var t :| 0 <= t < n && xs[..n][t] == top;
    assert Leq(xs[k], xs[n]) && Leq(xs[t], xs[n]);
    if kept[i] == x {
      LeqAntisymmetric(top, x);
    }
  }

  /** Deduplication gives the non-empty values, each once, in strictly increasing order. */
  lemma DedupeIsSet(values: seq<string>)
    ensures StrictlyAscending(Dedupe(values))
    ensures forall y :: y in Dedupe(values) <==> y != "" && y in values
  {
    SortAscending(values);
    CompactAscending(Sort(values));
    forall y ensures y in Dedupe(values) <==> y != "" && y in values {
      CompactMembers(Sort(values), y);
      SortMembers(values, y);
    }
  }
}
