/** Deadline ordering utilities: a stable top-down merge sort run in place on an array of
    deliveries, and the lower-bound search by deadline. */
module Utils {
  import opened Types

  ghost predicate SortedByDeadline(s: seq<Delivery>)
  {
    forall i, j :: 0 <= i < j < |s| ==> s[i].deadline <= s[j].deadline
  }

  /** The deliveries of `s` due exactly at `d`, in their order in `s`. */
  function DueAt(s: seq<Delivery>, d: TimePoint): seq<Delivery>
  {
    if s == [] then []
    else if s[0].deadline == d then [s[0]] + DueAt(s[1..], d)
    else DueAt(s[1..], d)
  }

  /** Merging two runs: the head of the left run goes first unless the right head is due
      strictly earlier. */
  function Merged(a: seq<Delivery>, b: seq<Delivery>): (r: seq<Delivery>)
    ensures |r| == |a| + |b|
    decreases |a| + |b|
  {
    if a == [] then b
    else if b == [] then a
    else if a[0].deadline <= b[0].deadline then [a[0]] + Merged(a[1..], b)
    else [b[0]] + Merged(a, b[1..])
  }

  /** Length of the left run when `s` is split as merge_sort_helper splits `[left..right]`
      at `mid = left + (right - left) / 2`. */
  function LeftLength(n: nat): nat
  {
    if n == 0 then 0 else (n - 1) / 2 + 1
  }

  /** The result of top-down merge sort on `s`. */
  function MergeSorted(s: seq<Delivery>): (r: seq<Delivery>)
    ensures |r| == |s|
    decreases |s|
  {
    if |s| <= 1 then s
    else
      var m := LeftLength(|s|);
      Merged(MergeSorted(s[..m]), MergeSorted(s[m..]))
  }

  /** Merging takes the left head when it is due no later than the right head ... */
  lemma MergedLeft(a: seq<Delivery>, b: seq<Delivery>)
    requires a != [] && b != [] && a[0].deadline <= b[0].deadline
    ensures Merged(a, b) == [a[0]] + Merged(a[1..], b)
  {
  }

  /** ... and the right head otherwise. */
  lemma MergedRight(a: seq<Delivery>, b: seq<Delivery>)
    requires a != [] && b != [] && a[0].deadline > b[0].deadline
    ensures Merged(a, b) == [b[0]] + Merged(a, b[1..])
  {
  }

  lemma {:induction false} MergedPermutes(a: seq<Delivery>, b: seq<Delivery>)
    ensures multiset(Merged(a, b)) == multiset(a) + multiset(b)
    decreases |a| + |b|
  {
    if a != [] && b != [] {
      if a[0].deadline <= b[0].deadline {
        MergedPermutes(a[1..], b);
        MergedLeft(a, b);
        ConsMultiset(a[0], Merged(a[1..], b));
        ConsMultiset(a[0], a[1..]);
        assert [a[0]] + a[1..] == a;
      } else {
        MergedPermutes(a, b[1..]);
        MergedRight(a, b);
        ConsMultiset(b[0], Merged(a, b[1..]));
        ConsMultiset(b[0], b[1..]);
        assert [b[0]] + b[1..] == b;
      }
    }
  }

  lemma ConsMultiset(x: Delivery, s: seq<Delivery>)
    ensures multiset([x] + s) == multiset{x} + multiset(s)
  {
  }

  /** The tail of a sorted run is sorted, and its head is due no later than any of it. */
  lemma SortedTail(a: seq<Delivery>)
    requires SortedByDeadline(a) && a != []
    ensures SortedByDeadline(a[1..])
    ensures forall i :: 0 <= i < |a| ==> a[0].deadline <= a[i].deadline
  {
    forall i, j | 0 <= i < j < |a| - 1 ensures a[1..][i].deadline <= a[1..][j].deadline {
      assert a[1..][i] == a[i + 1] && a[1..][j] == a[j + 1];
    }
  }

  /** A delivery due no later than every element of a sorted run, put in front of it. */
  lemma SortedCons(x: Delivery, r: seq<Delivery>)
    requires SortedByDeadline(r) && (r != [] ==> x.deadline <= r[0].deadline)
    ensures SortedByDeadline([x] + r)
  {
    var s := [x] + r;
    forall i, j | 0 <= i < j < |s| ensures s[i].deadline <= s[j].deadline {
      if i == 0 {
        assert s[j] == r[j - 1];
        assert r[0].deadline <= r[j - 1].deadline;
      } else {
        assert s[i] == r[i - 1] && s[j] == r[j - 1];
      }
    }
  }

  /** Merging two sorted runs gives a sorted run whose first element is one of the two heads. */
  lemma {:induction false} MergedSorted(a: seq<Delivery>, b: seq<Delivery>)
    requires SortedByDeadline(a) && SortedByDeadline(b)
    ensures SortedByDeadline(Merged(a, b))
    ensures |Merged(a, b)| > 0 ==> Merged(a, b)[0] == (if a == [] then b[0]
                                                       else if b == [] then a[0]
                                                       else if a[0].deadline <= b[0].deadline then a[0] else b[0])
    decreases |a| + |b|
  {
    if a != [] && b != [] {
      if a[0].deadline <= b[0].deadline {
        SortedTail(a);
        MergedSorted(a[1..], b);
        MergedLeft(a, b);
        SortedCons(a[0], Merged(a[1..], b));
      } else {
        SortedTail(b);
        MergedSorted(a, b[1..]);
        MergedRight(a, b);
        SortedCons(b[0], Merged(a, b[1..]));
      }
    }
  }

  lemma {:induction false} DueAtConcat(a: seq<Delivery>, b: seq<Delivery>, d: TimePoint)
    ensures DueAt(a + b, d) == DueAt(a, d) + DueAt(b, d)
  {
    if a == [] {
      assert a + b == b;
    } else {
      assert (a + b)[1..] == a[1..] + b;
      DueAtConcat(a[1..], b, d);
    }
  }

  lemma {:induction false} DueAtNone(a: seq<Delivery>, d: TimePoint)
    requires forall i :: 0 <= i < |a| ==> a[i].deadline > d
    ensures DueAt(a, d) == []
  {
    if a != [] {
      DueAtNone(a[1..], d);
    }
  }

  /** Merging keeps the left run's deliveries of each deadline ahead of the right run's:
      the `<=` takes the left head on a tie. */
  lemma {:induction false} MergedStable(a: seq<Delivery>, b: seq<Delivery>, d: TimePoint)
    requires SortedByDeadline(a)
    ensures DueAt(Merged(a, b), d) == DueAt(a, d) + DueAt(b, d)
    decreases |a| + |b|
  {
    if a != [] && b != [] {
      if a[0].deadline <= b[0].deadline {
        SortedTail(a);
        MergedStable(a[1..], b, d);
        StableLeft(a, b, d);
      } else {
        MergedStable(a, b[1..], d);
        StableRight(a, b, d);
      }
    }
  }

  /** The step of MergedStable that takes the left head. */
  lemma StableLeft(a: seq<Delivery>, b: seq<Delivery>, d: TimePoint)
    requires a != [] && b != [] && a[0].deadline <= b[0].deadline
    requires DueAt(Merged(a[1..], b), d) == DueAt(a[1..], d) + DueAt(b, d)
    ensures DueAt(Merged(a, b), d) == DueAt(a, d) + DueAt(b, d)
  {
    MergedLeft(a, b);
    DueAtCons(a[0], Merged(a[1..], b), d);
  }

  /** The step of MergedStable that takes the right head: it is due strictly before the
      left head, so before every delivery of the sorted left run. */
  lemma StableRight(a: seq<Delivery>, b: seq<Delivery>, d: TimePoint)
    requires a != [] && b != [] && a[0].deadline > b[0].deadline && SortedByDeadline(a)
    requires DueAt(Merged(a, b[1..]), d) == DueAt(a, d) + DueAt(b[1..], d)
    ensures DueAt(Merged(a, b), d) == DueAt(a, d) + DueAt(b, d)
  {
    var e: seq<Delivery> := if b[0].deadline == d then [b[0]] else [];
    MergedRight(a, b);
    DueAtCons(b[0], Merged(a, b[1..]), d);
    DueAtCons(b[0], b[1..], d);
    assert [b[0]] + b[1..] == b;
    if b[0].deadline == d {
      SortedTail(a);
      DueAtNone(a, d);
    }
    SwapFront(e, DueAt(a, d), DueAt(b[1..], d));
  }

  /** Two runs of which one is empty can trade places. */
  lemma SwapFront(e: seq<Delivery>, f: seq<Delivery>, x: seq<Delivery>)
    requires e == [] || f == []
    ensures e + (f + x) == f + (e + x)
  {
    if e == [] {
      assert e + (f + x) == f + x;
    } else {
      assert f + (e + x) == e + x;
    }
  }

  lemma DueAtCons(x: Delivery, s: seq<Delivery>, d: TimePoint)
    ensures DueAt([x] + s, d) == (if x.deadline == d then [x] else []) + DueAt(s, d)
  {
    assert ([x] + s)[1..] == s;
  }

  /** Merge sort sorts by deadline, keeps the multiset of deliveries, and is stable: for
      every deadline, the deliveries due then appear in their input order. */
  lemma {:induction false} MergeSortedCorrect(s: seq<Delivery>)
    ensures SortedByDeadline(MergeSorted(s))
    ensures multiset(MergeSorted(s)) == multiset(s)
    ensures forall d :: DueAt(MergeSorted(s), d) == DueAt(s, d)
    decreases |s|
  {
    if |s| > 1 {
      var m := LeftLength(|s|);
      var l, r := s[..m], s[m..];
      assert s == l + r;
      MergeSortedCorrect(l);
      MergeSortedCorrect(r);
      MergedSorted(MergeSorted(l), MergeSorted(r));
      MergedPermutes(MergeSorted(l), MergeSorted(r));
      forall d ensures DueAt(MergeSorted(s), d) == DueAt(s, d) {
        MergedStable(MergeSorted(l), MergeSorted(r), d);
        DueAtConcat(l, r, d);
      }
    }
  }

  /** `s` with its slots `lo` to `hi - 1` replaced by `m`. */
  function Splice(s: seq<Delivery>, lo: nat, hi: nat, m: seq<Delivery>): (r: seq<Delivery>)
    requires lo <= hi <= |s|
    ensures |r| == |s| - (hi - lo) + |m|
  {
    s[..lo] + m + s[hi..]
  }

  /** The three parts of a splice. */
  lemma SpliceParts(s: seq<Delivery>, lo: nat, hi: nat, m: seq<Delivery>)
    requires lo <= hi <= |s|
    ensures Splice(s, lo, hi, m)[..lo] == s[..lo]
    ensures Splice(s, lo, hi, m)[lo..lo + |m|] == m
    ensures Splice(s, lo, hi, m)[lo + |m|..] == s[hi..]
  {
    var r := Splice(s, lo, hi, m);
    assert r == (s[..lo] + m) + s[hi..];
    assert r[..lo + |m|] == s[..lo] + m;
  }

  /** Splicing a slice back in changes nothing. */
  lemma SpliceSame(s: seq<Delivery>, lo: nat, hi: nat)
    requires lo <= hi <= |s|
    ensures Splice(s, lo, hi, s[lo..hi]) == s
  {
    assert s[..lo] + s[lo..hi] == s[..hi];
    assert s[..hi] + s[hi..] == s;
  }

  /** Merges the sorted runs `a[left..mid]` and `a[mid+1..right]` through a buffer; the
      slots outside `left..right` are untouched. */
  method Merge(a: array<Delivery>, left: int, mid: int, right: int)
    requires 0 <= left <= mid <= right < a.Length
    modifies a
    ensures a[..] == MergedRange(old(a[..]), left, mid + 1, right + 1)
  {
    var temp := MergeRuns(a[..], left, mid, right);
    CopyBack(a, left, temp);
  }

  /** The loops of merge: the two runs of `s` (the array as it stands; these loops only
      read it) merged into a fresh buffer. */
  method MergeRuns(s: seq<Delivery>, left: int, mid: int, right: int) returns (temp: array<Delivery>)
    requires 0 <= left <= mid <= right < |s|
    ensures fresh(temp) && temp.Length == right - left + 1
    ensures temp[..] == Merged(s[left..mid + 1], s[mid + 1..right + 1])
  {
    temp := new Delivery[right - left + 1];
    var i, j, k := MergeHeads(s, left, mid, right, temp);
    ghost var tail: seq<Delivery>;
    if i <= mid {
      tail := s[i..mid + 1];
      assert MergeFrom(s, i, mid + 1, j, right + 1) == tail;
      k := CopyRun(s, i, mid, temp, k);
    } else {
      tail := s[j..right + 1];
      assert MergeFrom(s, i, mid + 1, j, right + 1) == tail;
      k := CopyRun(s, j, right, temp, k);
    }
    assert temp[..] == temp[..k];
    MergeFromMerged(s, left, mid + 1, mid + 1, right + 1);
  }

  /** The merge loop's view of Merged: the runs `s[i..m]` and `s[j..hi]` merged, read off
      the array by index. */
  ghost function MergeFrom(s: seq<Delivery>, i: nat, m: nat, j: nat, hi: nat): (r: seq<Delivery>)
    requires i <= m <= j <= hi <= |s|
    ensures |r| == (m - i) + (hi - j)
    decreases (m - i) + (hi - j)
  {
    if i == m then s[j..hi]
    else if j == hi then s[i..m]
    else if s[i].deadline <= s[j].deadline then [s[i]] + MergeFrom(s, i + 1, m, j, hi)
    else [s[j]] + MergeFrom(s, i, m, j + 1, hi)
  }

  lemma {:induction false} MergeFromMerged(s: seq<Delivery>, i: nat, m: nat, j: nat, hi: nat)
    requires i <= m <= j <= hi <= |s|
    ensures MergeFrom(s, i, m, j, hi) == Merged(s[i..m], s[j..hi])
    decreases (m - i) + (hi - j)
  {
    var a, b := s[i..m], s[j..hi];
    if i < m && j < hi {
      assert a[0] == s[i] && b[0] == s[j];
      if s[i].deadline <= s[j].deadline {
        var r := MergeFrom(s, i + 1, m, j, hi);
        assert MergeFrom(s, i, m, j, hi) == [s[i]] + r;
        MergeFromMerged(s, i + 1, m, j, hi);
        assert a[1..] == s[i + 1..m];
        MergedLeft(a, b);
      } else {
        var r := MergeFrom(s, i, m, j + 1, hi);
        assert MergeFrom(s, i, m, j, hi) == [s[j]] + r;
        MergeFromMerged(s, i, m, j + 1, hi);
        assert b[1..] == s[j + 1..hi];
        MergedRight(a, b);
      }
    }
  }

  /** The first loop of merge: while both runs have elements, the earlier-due head (the
      left one on a tie) goes to the buffer. Stops with one run used up, and what it has
      written is the start of the merge of the two runs. */
  method MergeHeads(s: seq<Delivery>, left: int, mid: int, right: int, temp: array<Delivery>)
    returns (i': int, j': int, k': nat)
    requires 0 <= left <= mid <= right < |s| && temp.Length == right - left + 1
    modifies temp
    ensures left <= i' <= mid + 1 && mid + 1 <= j' <= right + 1 && k' == (i' - left) + (j' - mid - 1)
    ensures i' > mid || j' > right
    ensures temp[..k'] + MergeFrom(s, i', mid + 1, j', right + 1) == MergeFrom(s, left, mid + 1, mid + 1, right + 1)
  {
    ghost var M := MergeFrom(s, left, mid + 1, mid + 1, right + 1);
    var i, j, k := left, mid + 1, 0;
    ghost var rest := M;
    while i <= mid && j <= right
      invariant left <= i <= mid + 1 && mid + 1 <= j <= right + 1
      invariant k == (i - left) + (j - mid - 1)
      invariant rest == MergeFrom(s, i, mid + 1, j, right + 1)
      invariant temp[..k] + rest == M
      decreases right - left - k
    {
      ghost var out := temp[..k];
      ghost var x: Delivery, rest': seq<Delivery>;
      if s[i].deadline <= s[j].deadline {
        x, rest' := s[i], MergeFrom(s, i + 1, mid + 1, j, right + 1);
        assert rest == [x] + rest';
        temp[k] := s[i];
        i := i + 1;
      } else {
        x, rest' := s[j], MergeFrom(s, i, mid + 1, j + 1, right + 1);
        assert rest == [x] + rest';
        temp[k] := s[j];
        j := j + 1;
      }
      Shift(out, x, rest', M);
      assert temp[..k + 1] == out + [x];
      rest := rest';
      k := k + 1;
    }
    i', j', k' := i, j, k;
  }

  /** Moving the head of what is left to the end of what is written. */
  lemma Shift(out: seq<Delivery>, x: Delivery, rest: seq<Delivery>, M: seq<Delivery>)
    requires out + ([x] + rest) == M
    ensures (out + [x]) + rest == M
  {
    assert (out + [x]) + rest == out + ([x] + rest);
  }

  /** The trailing loops of merge: the rest `a[from..to]` of one run appended to the
      buffer filled up to `k`. */
  method CopyRun(s: seq<Delivery>, from: int, to: int, temp: array<Delivery>, k: nat) returns (k': nat)
    requires 0 <= from <= to + 1 <= |s| && k + (to + 1 - from) <= temp.Length
    modifies temp
    ensures k' == k + (to + 1 - from)
    ensures temp[..k'] == old(temp[..k]) + s[from..to + 1]
  {
    var i := from;
    k' := k;
    while i <= to
      invariant from <= i <= to + 1 && k' == k + (i - from)
      invariant temp[..k'] == old(temp[..k]) + s[from..i]
    {
      temp[k'] := s[i];
      assert temp[..k' + 1] == temp[..k'] + [s[i]];
      assert s[from..i + 1] == s[from..i] + [s[i]];
      i, k' := i + 1, k' + 1;
    }
  }


  /** The last loop of merge: the buffer written back from `left` on. */
  method CopyBack(a: array<Delivery>, left: int, temp: array<Delivery>)
    requires 0 <= left && left + temp.Length <= a.Length && temp != a
    modifies a
    ensures a[..] == Splice(old(a[..]), left, left + temp.Length, temp[..])
  {
    ghost var s := a[..];
    var p := 0;
    assert temp[..0] == [];
    assert s[..left] + [] == s[..left];
    while p < temp.Length
      invariant 0 <= p <= temp.Length
      invariant a[..] == Splice(s, left, left + p, temp[..p])
    {
      SpliceGrow(s, left, p, temp[..]);
      a[left + p] := temp[p];
      p := p + 1;
    }
    assert temp[..p] == temp[..];
  }

  /** Writing the next buffer slot extends a splice by one. */
  lemma SpliceGrow(s: seq<Delivery>, lo: nat, p: nat, t: seq<Delivery>)
    requires lo + |t| <= |s| && p < |t|
    ensures Splice(s, lo, lo + p, t[..p])[lo + p := t[p]] == Splice(s, lo, lo + p + 1, t[..p + 1])
  {
    var u := Splice(s, lo, lo + p, t[..p]);
    var v := Splice(s, lo, lo + p + 1, t[..p + 1]);
    assert |u| == |v|;
    forall q | 0 <= q < |v| ensures u[lo + p := t[p]][q] == v[q] {
      if q < lo {
      } else if q < lo + p {
        assert u[q] == t[..p][q - lo];
        assert v[q] == t[..p + 1][q - lo];
      } else if q > lo + p {
        assert u[q] == s[q];
        assert v[q] == s[q];
      }
    }
  }

  /** `s` with the slots `lo` to `hi - 1` sorted by MergeSorted. */
  ghost function SortedRange(s: seq<Delivery>, lo: nat, hi: nat): (r: seq<Delivery>)
    requires lo <= hi <= |s|
    ensures |r| == |s|
  {
    Splice(s, lo, hi, MergeSorted(s[lo..hi]))
  }

  /** `s` with the runs `lo..m - 1` and `m..hi - 1` replaced by their merge. */
  ghost function MergedRange(s: seq<Delivery>, lo: nat, m: nat, hi: nat): (r: seq<Delivery>)
    requires lo <= m <= hi <= |s|
    ensures |r| == |s|
  {
    Splice(s, lo, hi, Merged(s[lo..m], s[m..hi]))
  }

  /** Sorts `a[left..right]` in place (nothing to do unless `left < right`). */
  method MergeSortHelper(a: array<Delivery>, left: int, right: int)
    requires 0 <= left <= a.Length && -1 <= right < a.Length
    modifies a
    ensures left <= right ==> a[..] == SortedRange(old(a[..]), left, right + 1)
    ensures left > right ==> a[..] == old(a[..])
    decreases right - left, 1
  {
    if left >= right {
      if left == right {
        SpliceSame(a[..], left, right + 1);
      }
      return;
    }
    SortRuns(a, left, right);
  }

  /** The recursive case of merge_sort_helper, `left < right`: sorts both halves, then merges them. */
  method SortRuns(a: array<Delivery>, left: int, right: int)
    requires 0 <= left < right < a.Length
    modifies a
    ensures a[..] == SortedRange(old(a[..]), left, right + 1)
    decreases right - left, 0
  {
    var mid := left + (right - left) / 2;
    ghost var s0 := a[..];
    MergeSortHelper(a, left, mid);
    ghost var s1 := a[..];
    MergeSortHelper(a, mid + 1, right);
    ghost var s2 := a[..];
    Merge(a, left, mid, right);
    SortSteps(s0, s1, s2, a[..], left, mid, right);
  }

  /** Sorting the left run, then the right run, then merging them sorts the whole range. */
  lemma SortSteps(s0: seq<Delivery>, s1: seq<Delivery>, s2: seq<Delivery>, s3: seq<Delivery>,
                   left: int, mid: int, right: int)
    requires 0 <= left <= mid < right < |s0| && mid == left + (right - left) / 2
    requires s1 == SortedRange(s0, left, mid + 1)
    requires s2 == SortedRange(s1, mid + 1, right + 1)
    requires s3 == MergedRange(s2, left, mid + 1, right + 1)
    ensures s3 == SortedRange(s0, left, right + 1)
  {
    SpliceSteps(s0, s1, s2, s3, left, mid, right,
                MergeSorted(s0[left..mid + 1]), MergeSorted(s1[mid + 1..right + 1]));
    SortedSame(s1[mid + 1..right + 1], s0[mid + 1..right + 1]);
    RunsOf(s0, left, mid, right);
  }

  lemma SortedSame(x: seq<Delivery>, y: seq<Delivery>)
    requires x == y
    ensures MergeSorted(x) == MergeSorted(y)
  {
  }

  /** The splices of merge_sort_helper's three steps on `left..right`: the left run
      replaced by `ml`, then the right run by `mr`, then the range by their merge, is the
      range replaced by the merge of `ml` and `mr`. */
  lemma SpliceSteps(s0: seq<Delivery>, s1: seq<Delivery>, s2: seq<Delivery>, s3: seq<Delivery>,
                    left: nat, mid: nat, right: nat, ml: seq<Delivery>, mr: seq<Delivery>)
    requires left <= mid < right < |s0| && |ml| == mid + 1 - left && |mr| == right - mid
    requires s1 == Splice(s0, left, mid + 1, ml)
    requires s2 == Splice(s1, mid + 1, right + 1, mr)
    requires s3 == Splice(s2, left, right + 1, Merged(s2[left..mid + 1], s2[mid + 1..right + 1]))
    ensures s3 == Splice(s0, left, right + 1, Merged(ml, mr))
    ensures s1[mid + 1..right + 1] == s0[mid + 1..right + 1]
  {
    SpliceTwice(s0, left, mid + 1, right + 1, ml, s1);
    SpliceJoin(s0, left, mid + 1, right + 1, ml, mr, s1, s2);
    SpliceOver(s0, left, right + 1, ml + mr, Merged(ml, mr));
  }

  /** merge_sort_helper's split of `left..right` at `mid` is the one MergeSorted makes. */
  lemma RunsOf(s: seq<Delivery>, left: nat, mid: nat, right: nat)
    requires left <= mid < right < |s| && mid == left + (right - left) / 2
    ensures MergeSorted(s[left..right + 1]) == Merged(MergeSorted(s[left..mid + 1]), MergeSorted(s[mid + 1..right + 1]))
  {
    var lr := s[left..right + 1];
    var k := LeftLength(|lr|);
    assert k == mid + 1 - left;
    assert lr[..k] == s[left..mid + 1] by {
      forall i | 0 <= i < k ensures lr[..k][i] == s[left..mid + 1][i] {
        assert lr[..k][i] == s[left + i];
      }
    }
    assert lr[k..] == s[mid + 1..right + 1] by {
      forall i | 0 <= i < |lr| - k ensures lr[k..][i] == s[mid + 1..right + 1][i] {
        assert lr[k..][i] == s[mid + 1 + i];
      }
    }
  }

  /** A splice over `lo..m` leaves the slots from `m` on as they were. */
  lemma SpliceTwice(s: seq<Delivery>, lo: nat, m: nat, hi: nat, x: seq<Delivery>, s1: seq<Delivery>)
    requires lo <= m <= hi <= |s| && |x| == m - lo && s1 == Splice(s, lo, m, x)
    ensures s1[m..hi] == s[m..hi]
  {
    SpliceParts(s, lo, m, x);
  }

  /** Splicing `x` over `lo..m` and then `y` over `m..hi` splices `x + y` over `lo..hi`. */
  lemma SpliceJoin(s: seq<Delivery>, lo: nat, m: nat, hi: nat, x: seq<Delivery>, y: seq<Delivery>,
                   s1: seq<Delivery>, s2: seq<Delivery>)
    requires lo <= m <= hi <= |s| && |x| == m - lo && |y| == hi - m
    requires s1 == Splice(s, lo, m, x) && s2 == Splice(s1, m, hi, y)
    ensures s2 == Splice(s, lo, hi, x + y)
    ensures s2[lo..m] == x && s2[m..hi] == y
  {
    SpliceParts(s, lo, m, x);
    assert s1[..m] == s[..lo] + x;
    assert s1[hi..] == s[hi..];
    assert s2 == s[..lo] + (x + y) + s[hi..];
    SpliceParts(s, lo, hi, x + y);
    assert (x + y)[..|x|] == x && (x + y)[|x|..] == y;
  }

  /** A second splice over the same slots overrides the first. */
  lemma SpliceOver(s: seq<Delivery>, lo: nat, hi: nat, z: seq<Delivery>, w: seq<Delivery>)
    requires lo <= hi <= |s| && |z| == hi - lo
    ensures Splice(Splice(s, lo, hi, z), lo, hi, w) == Splice(s, lo, hi, w)
  {
    SpliceParts(s, lo, hi, z);
  }

  /** merge_sort: the whole array, from 0 to `size() - 1` (which is -1 for an empty array). */
  method MergeSort(a: array<Delivery>)
    modifies a
    ensures a[..] == MergeSorted(old(a[..]))
  {
    ghost var s := a[..];
    MergeSortHelper(a, 0, a.Length - 1);
    if a.Length > 0 {
      assert s[0..a.Length] == s;
      assert SortedRange(s, 0, |s|) == MergeSorted(s);
    }
  }

  /** Every delivery due before `tp` comes before every other one. */
  ghost predicate PartitionedAt(s: seq<Delivery>, tp: TimePoint)
  {
    forall i, j :: 0 <= i < j < |s| && s[j].deadline < tp ==> s[i].deadline < tp
  }

  /** Binary search over `[lo, hi)` for the first delivery not due before `tp`. */
  function LowerBoundIn(s: seq<Delivery>, tp: TimePoint, lo: nat, hi: nat): (r: nat)
    requires lo <= hi <= |s| && PartitionedAt(s, tp)
    requires forall i :: 0 <= i < lo ==> s[i].deadline < tp
    requires forall i :: hi <= i < |s| ==> s[i].deadline >= tp
    ensures lo <= r <= hi
    ensures forall i :: 0 <= i < r ==> s[i].deadline < tp
    ensures forall i :: r <= i < |s| ==> s[i].deadline >= tp
    decreases hi - lo
  {
    if lo == hi then lo
    else
      var mid := lo + (hi - lo) / 2;
      if s[mid].deadline < tp then LowerBoundIn(s, tp, mid + 1, hi)
      else LowerBoundIn(s, tp, lo, mid)
  }

  /** find_delivery_by_deadline: the position of the first delivery not due before `tp`,
      or `|s|` (the end) when every delivery is due earlier. */
  function FindByDeadline(s: seq<Delivery>, tp: TimePoint): (r: nat)
    requires PartitionedAt(s, tp)
    ensures r <= |s|
    ensures forall i :: 0 <= i < r ==> s[i].deadline < tp
    ensures forall i :: r <= i < |s| ==> s[i].deadline >= tp
  {
    LowerBoundIn(s, tp, 0, |s|)
  }

  /** A deadline-sorted sequence meets the search's precondition for every `tp`. */
  lemma SortedIsPartitioned(s: seq<Delivery>, tp: TimePoint)
    requires SortedByDeadline(s)
    ensures PartitionedAt(s, tp)
  {
  }
}
