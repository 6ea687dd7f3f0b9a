/** strcmp as an order, and sorting by it: what SortFileEntry of response.c promises. */
module Order {
  import opened CStrings
  import opened RowInfo

  /** strcmp: the difference of the first characters that differ, the end counting as NUL. */
  function StrCmp(a: string, b: string): int {
    if a == "" && b == "" then 0
    else if a == "" then -(b[0] as int)
    else if b == "" then a[0] as int
    else if a[0] != b[0] then a[0] as int - b[0] as int
    else StrCmp(a[1..], b[1..])
  }

  /** strcmp of NUL-free strings is a total order: zero only for equal strings, and changing sign with its arguments. */
  lemma {:induction false} StrCmpIsOrder(a: CString, b: CString)
    ensures StrCmp(a, b) == 0 <==> a == b
    ensures StrCmp(a, b) == -StrCmp(b, a)
    decreases |a|
  {
    if a != "" && b != "" && a[0] == b[0] {
      StrCmpIsOrder(a[1..], b[1..]);
      assert a == [a[0]] + a[1..] && b == [b[0]] + b[1..];
    }
  }

  /** Which of two strings comes first is decided by the first character that differs, and a prefix comes first. */
  lemma {:induction false} FirstDifference(p: CString, x: char, a: string, y: char, b: string)
    requires x != NUL
    ensures x < y ==> StrCmp(p + [x] + a, p + [y] + b) < 0
    ensures StrCmp(p, p + [x] + a) < 0
    decreases |p|
  {
    if p == "" {
      assert p + [x] + a == [x] + a && p + [y] + b == [y] + b;
    } else {
      FirstDifference(p[1..], x, a, y, b);
      assert (p + [x] + a)[1..] == p[1..] + [x] + a;
      assert (p + [y] + b)[1..] == p[1..] + [y] + b;
    }
  }

  lemma {:induction false} StrCmpTransitive(a: CString, b: CString, c: CString)
    requires StrCmp(a, b) <= 0 && StrCmp(b, c) <= 0
    ensures StrCmp(a, c) <= 0
    decreases |a|
  {
    if a != "" && b != "" && c != "" && a[0] == b[0] == c[0] {
      StrCmpTransitive(a[1..], b[1..], c[1..]);
    }
  }

  ghost predicate Sorted(rows: seq<Row>) {
    forall i, j :: 0 <= i < j < |rows| ==> StrCmp(rows[i].name, rows[j].name) <= 0
  }

  ghost predicate DistinctNames(rows: seq<Row>) {
    forall i, j :: 0 <= i < j < |rows| ==> rows[i].name != rows[j].name
  }

  lemma WithoutFirst(xs: seq<Row>)
    requires xs != []
    ensures xs == [xs[0]] + xs[1..] && multiset(xs[1..]) == multiset(xs) - multiset{xs[0]}
    ensures Sorted(xs) ==> Sorted(xs[1..])
    ensures DistinctNames(xs) ==> DistinctNames(xs[1..])
  {
    assert xs == [xs[0]] + xs[1..];
  }

  lemma SameLeast(xs: seq<Row>, ys: seq<Row>)
    requires Sorted(xs) && Sorted(ys) && multiset(xs) == multiset(ys) && DistinctNames(xs) && xs != [] && ys != []
    ensures xs[0] == ys[0]
  {
    assert xs[0] in multiset(ys) && ys[0] in multiset(xs);
    var i :| 0 <= i < |ys| && ys[i] == xs[0];
    var j :| 0 <= j < |xs| && xs[j] == ys[0];
    StrCmpIsOrder(xs[0].name, ys[0].name);
  }

  /** Rows with distinct names can be sorted in only one way. */
  lemma {:induction false} OneSorting(xs: seq<Row>, ys: seq<Row>)
    requires Sorted(xs) && Sorted(ys) && multiset(xs) == multiset(ys) && DistinctNames(xs)
    ensures xs == ys
  {
    hide Sorted, DistinctNames;
    if xs == [] {
      assert |ys| == |multiset(ys)| == 0;
    } else {
      assert |xs| == |multiset(xs)| == |multiset(ys)| == |ys|;
      SameLeast(xs, ys);
      WithoutFirst(xs);
      WithoutFirst(ys);
      OneSorting(xs[1..], ys[1..]);
    }
  }

  /** The first `i` rows are sorted, and none of the others belongs before them. */
  ghost predicate SortedUpTo(rows: seq<Row>, i: nat) {
    forall k, j :: 0 <= k < i && k < j < |rows| ==> StrCmp(rows[k].name, rows[j].name) <= 0
  }

  lemma LeastSoFar(rows: seq<Row>, i: nat, j: nat, min: nat)
    requires i <= min < |rows| && i <= j < |rows| && StrCmp(rows[min].name, rows[j].name) > 0
    requires forall k :: i <= k < j ==> StrCmp(rows[min].name, rows[k].name) <= 0
    ensures forall k :: i <= k <= j ==> StrCmp(rows[j].name, rows[k].name) <= 0
  {
    StrCmpIsOrder(rows[min].name, rows[j].name);
    forall k | i <= k <= j
      ensures StrCmp(rows[j].name, rows[k].name) <= 0
    {
      if k < j {
        StrCmpTransitive(rows[j].name, rows[min].name, rows[k].name);
      } else {
        StrCmpIsOrder(rows[j].name, rows[j].name);
      }
    }
  }

  /** The exchange through `temp`. */
  method SwapRows(data: array<Row>, length: nat, i: nat, min: nat)
    requires i <= min < length <= data.Length
    modifies data
    ensures data[..length] == old(data[..length][i := data[min]][min := data[i]])
    ensures data[length..] == old(data[length..])
  {
    var temp := data[i];
    data[i] := data[min];
    data[min] := temp;
  }

  lemma SwapSorts(before: seq<Row>, i: nat, min: nat)
    requires i <= min < |before| && SortedUpTo(before, i)
    requires forall k :: i <= k < |before| ==> StrCmp(before[min].name, before[k].name) <= 0
    ensures var after := before[i := before[min]][min := before[i]];
            multiset(after) == multiset(before) && SortedUpTo(after, i + 1)
  {
  }

  /** SortFileEntry, on the first `length` rows. */
  method SortFileEntry(data: array<Row>, length: nat)
    requires length <= data.Length
    modifies data
    ensures forall i, j :: 0 <= i < j < length ==> StrCmp(data[i].name, data[j].name) <= 0
    ensures Sorted(data[..length]) && multiset(data[..length]) == multiset(old(data[..length]))
    ensures data[length..] == old(data[length..])
  {
    hide StrCmp;
    for i := 0 to length
      invariant multiset(data[..length]) == multiset(old(data[..length]))
      invariant SortedUpTo(data[..length], i)
      invariant data[length..] == old(data[length..])
    {
      ghost var before := data[..length];
      var min := i;
      for j := i to length
        invariant i <= min < length
        invariant data[..length] == before && data[length..] == old(data[length..])
        invariant forall k :: i <= k < j ==> StrCmp(before[min].name, before[k].name) <= 0
      {
        if StrCmp(data[min].name, data[j].name) > 0 {
          LeastSoFar(before, i, j, min);
          min := j;
        }
      }
      SwapRows(data, length, i, min);
      SwapSorts(before, i, min);
    }
    assert SortedUpTo(data[..length], length);
  }
}
