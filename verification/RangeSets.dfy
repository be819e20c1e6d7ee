/** Lists of ranges as sets of offsets, in canonical form: sorted, non-empty, and with a gap
    between any two neighbours. Shared by the range pool, the page pool and the mapping code. */
module RangeSets {
  import opened MemRanges

  type Ranges = seq<MemRange>

  ghost predicate Covers(rs: Ranges, x: nat) {
    exists i :: 0 <= i < |rs| && rs[i].Has(x)
  }

  ghost predicate NonEmpty(rs: Ranges) {
    forall i :: 0 <= i < |rs| ==> rs[i].first < rs[i].last
  }

  ghost predicate Canonical(rs: Ranges) {
    NonEmpty(rs) && forall i, j :: 0 <= i < j < |rs| ==> rs[i].last < rs[j].first
  }

  ghost predicate SameBytes(a: Ranges, b: Ranges) {
    forall x: nat :: Covers(a, x) <==> Covers(b, x)
  }

  /** All ranges end at or before `len`. */
  ghost predicate Within(rs: Ranges, len: nat) {
    forall i :: 0 <= i < |rs| ==> rs[i].last <= len
  }

  lemma CoversTail(a: Ranges, x: nat)
    requires Canonical(a) && a != []
    ensures Covers(a[1..], x) <==> Covers(a, x) && !a[0].Has(x)
  {
    if Covers(a, x) && !a[0].Has(x) {
      var i :| 0 <= i < |a| && a[i].Has(x);
      assert a[1..][i - 1].Has(x);
    }
    if Covers(a[1..], x) {
      var i :| 0 <= i < |a[1..]| && a[1..][i].Has(x);
      assert a[i + 1].Has(x);
    }
  }

  /** The offset behind a range of a canonical list is not covered. */
  lemma GapAfter(rs: Ranges, i: nat)
    requires Canonical(rs) && i < |rs|
    ensures !Covers(rs, rs[i].last)
  {
    forall j | 0 <= j < |rs| ensures !rs[j].Has(rs[i].last) {
      if j < i { assert rs[j].last < rs[i].first; }
    }
  }

  lemma FirstCovered(b: Ranges)
    requires Canonical(b) && b != []
    ensures Covers(b, b[0].first)
  {
    assert b[0].Has(b[0].first);
  }

  lemma FirstBounds(a: Ranges, b: Ranges)
    requires Canonical(a) && Canonical(b) && SameBytes(a, b) && a != [] && b != []
    ensures a[0].first <= b[0].first
  {
    FirstCovered(b);
    var i :| 0 <= i < |a| && a[i].Has(b[0].first);
  }

  lemma LastBounds(a: Ranges, b: Ranges)
    requires Canonical(a) && Canonical(b) && SameBytes(a, b) && a != [] && b != [] && a[0].first == b[0].first
    ensures a[0].last >= b[0].last
  {
    GapAfter(a, 0);
    assert !Covers(b, a[0].last);
    assert !b[0].Has(a[0].last);
  }

  lemma TailsSame(a: Ranges, b: Ranges)
    requires Canonical(a) && Canonical(b) && SameBytes(a, b) && a != [] && b != [] && a[0] == b[0]
    ensures Canonical(a[1..]) && Canonical(b[1..]) && SameBytes(a[1..], b[1..])
  {
    forall x: nat ensures Covers(a[1..], x) <==> Covers(b[1..], x) {
      CoversTail(a, x);
      CoversTail(b, x);
    }
  }

  /** A set of offsets has only one canonical list. */
  lemma {:induction false} CanonicalUnique(a: Ranges, b: Ranges)
    requires Canonical(a) && Canonical(b) && SameBytes(a, b)
    ensures a == b
  {
    if a != [] { FirstCovered(a); }
    if b != [] { FirstCovered(b); }
    if a != [] && b != [] {
      FirstBounds(a, b);
      FirstBounds(b, a);
      LastBounds(a, b);
      LastBounds(b, a);
      TailsSame(a, b);
      CanonicalUnique(a[1..], b[1..]);
      assert a == [a[0]] + a[1..] && b == [b[0]] + b[1..];
    }
  }

  /** A run of covered offsets lies inside one range of a canonical list. */
  lemma RunInOneRange(rs: Ranges, o: nat, size: nat) returns (i: nat)
    requires Canonical(rs) && size > 0 && forall x :: o <= x < o + size ==> Covers(rs, x)
    ensures i < |rs| && rs[i].first <= o && o + size <= rs[i].last
  {
    assert Covers(rs, o);
    i :| 0 <= i < |rs| && rs[i].Has(o);
    GapAfter(rs, i);
  }

  lemma CoversAppend(a: Ranges, r: MemRange, x: nat)
    ensures Covers(a + [r], x) <==> Covers(a, x) || r.Has(x)
  {
    if Covers(a, x) {
      var i :| 0 <= i < |a| && a[i].Has(x);
      assert (a + [r])[i].Has(x);
    }
    if r.Has(x) { assert (a + [r])[|a|].Has(x); }
    if Covers(a + [r], x) {
      var i :| 0 <= i < |a + [r]| && (a + [r])[i].Has(x);
      if i < |a| { assert a[i].Has(x); }
    }
  }

  lemma CoversConcat(a: Ranges, b: Ranges, x: nat)
    ensures Covers(a + b, x) <==> Covers(a, x) || Covers(b, x)
  {
    if Covers(a, x) {
      var i :| 0 <= i < |a| && a[i].Has(x);
      assert (a + b)[i].Has(x);
    }
    if Covers(b, x) {
      var i :| 0 <= i < |b| && b[i].Has(x);
      assert (a + b)[|a| + i].Has(x);
    }
    if Covers(a + b, x) {
      var i :| 0 <= i < |a + b| && (a + b)[i].Has(x);
      if i < |a| { assert a[i].Has(x); } else { assert b[i - |a|].Has(x); }
    }
  }

  /** Appending behind a gap keeps a canonical list canonical. */
  lemma AppendCanonical(a: Ranges, r: MemRange)
    requires Canonical(a) && r.first < r.last && (a != [] ==> a[|a| - 1].last < r.first)
    ensures Canonical(a + [r])
  {
    forall i | 0 <= i < |a| ensures a[i].last < r.first {
      if i < |a| - 1 { assert a[i].last < a[|a| - 1].first; }
    }
  }

  /** Extending the last range by one that starts no earlier and touches it. */
  lemma ExtendCanonical(a: Ranges, r: MemRange)
    requires Canonical(a) && a != [] && r.first < r.last && a[|a| - 1].first <= r.first
    ensures a[|a| - 1].Mergeable(r) <==> r.first <= a[|a| - 1].last
    ensures a[|a| - 1].Mergeable(r) ==>
              var b := a[..|a| - 1] + [a[|a| - 1].Merged(r)];
              Canonical(b) && forall x: nat :: Covers(b, x) <==> Covers(a, x) || r.Has(x)
  {
    var front, last := a[..|a| - 1], a[|a| - 1];
    if last.Mergeable(r) {
      var m := last.Merged(r);
      AppendCanonical(front, m);
      assert a == front + [last];
      var b := a[..|a| - 1] + [m];
      forall x: nat ensures Covers(b, x) <==> Covers(a, x) || r.Has(x) {
        CoversAppend(front, m, x);
        CoversAppend(front, last, x);
        MergedHas(last, r, x);
      }
    }
  }

  lemma MergedHas(a: MemRange, r: MemRange, x: nat)
    requires a.first < a.last && r.first < r.last && a.Mergeable(r)
    ensures a.Merged(r).Has(x) <==> a.Has(x) || r.Has(x)
  {
  }

  // ----- sorting, standing for std::sort

  ghost predicate SortedByFirst(rs: Ranges) {
    forall i, j :: 0 <= i < j < |rs| ==> rs[i].first <= rs[j].first
  }

  function InsertByFirst(rs: Ranges, r: MemRange): Ranges {
    if rs == [] then [r]
    else if r.first <= rs[0].first then [r] + rs
    else [rs[0]] + InsertByFirst(rs[1..], r)
  }

  function SortByFirst(rs: Ranges): Ranges {
    if rs == [] then [] else InsertByFirst(SortByFirst(rs[1..]), rs[0])
  }

  lemma {:induction false} InsertByFirstElements(rs: Ranges, r: MemRange, e: MemRange)
    ensures e in InsertByFirst(rs, r) <==> e == r || e in rs
  {
    if rs != [] && r.first > rs[0].first {
      InsertByFirstElements(rs[1..], r, e);
      assert rs == [rs[0]] + rs[1..];
    }
  }

  lemma {:induction false} InsertByFirstPermutes(rs: Ranges, r: MemRange)
    ensures multiset(InsertByFirst(rs, r)) == multiset(rs) + multiset{r}
  {
    if rs != [] {
      InsertByFirstPermutes(rs[1..], r);
      assert rs == [rs[0]] + rs[1..];
    }
  }

  lemma {:induction false} InsertByFirstSorts(rs: Ranges, r: MemRange)
    requires SortedByFirst(rs)
    ensures SortedByFirst(InsertByFirst(rs, r))
  {
    if rs != [] && r.first > rs[0].first {
      InsertByFirstSorts(rs[1..], r);
      var rest := InsertByFirst(rs[1..], r);
      forall j | 0 <= j < |rest| ensures rs[0].first <= rest[j].first {
        InsertByFirstElements(rs[1..], r, rest[j]);
      }
    }
  }

  /** The sorted list is a permutation of the list. */
  lemma {:induction false} SortByFirstSorts(rs: Ranges)
    ensures SortedByFirst(SortByFirst(rs))
    ensures multiset(SortByFirst(rs)) == multiset(rs)
  {
    if rs != [] {
      SortByFirstSorts(rs[1..]);
      InsertByFirstSorts(SortByFirst(rs[1..]), rs[0]);
      InsertByFirstPermutes(SortByFirst(rs[1..]), rs[0]);
      assert rs == [rs[0]] + rs[1..];
    }
  }

  lemma SortKeepsBytes(rs: Ranges)
    ensures |SortByFirst(rs)| == |rs| && SameBytes(SortByFirst(rs), rs)
    ensures forall r :: r in SortByFirst(rs) <==> r in rs
  {
    SortByFirstSorts(rs);
    var s := SortByFirst(rs);
    assert |s| == |multiset(s)| == |multiset(rs)|;
    forall r ensures r in s <==> r in rs { assert r in multiset(s) <==> r in multiset(rs); }
    forall x: nat ensures Covers(s, x) <==> Covers(rs, x) {
      if Covers(s, x) {
        var i :| 0 <= i < |s| && s[i].Has(x);
        assert s[i] in rs;
      }
      if Covers(rs, x) {
        var i :| 0 <= i < |rs| && rs[i].Has(x);
        assert rs[i] in s;
      }
    }
  }

  /** The in-place sweep of `coalesceRanges`: everything before `read` has been folded into the
      canonical prefix ending at `write`; everything from `read` on is untouched. */
  ghost predicate Swept(sorted: Ranges, rs: Ranges, write: nat, read: nat) {
    write < read <= |rs| == |sorted| &&
    Canonical(rs[..write + 1]) && rs[read..] == sorted[read..] &&
    SameBytes(rs[..write + 1], sorted[..read]) &&
    forall j :: read <= j < |sorted| ==> rs[write].first <= sorted[j].first
  }

  lemma SweepStart(rs: Ranges)
    requires NonEmpty(rs) && rs != []
    ensures var sorted := SortByFirst(rs);
            |sorted| == |rs| && NonEmpty(sorted) && SortedByFirst(sorted) && Swept(sorted, sorted, 0, 1)
  {
    var sorted := SortByFirst(rs);
    SortKeepsBytes(rs);
    SortByFirstSorts(rs);
    forall i | 0 <= i < |sorted| ensures sorted[i].first < sorted[i].last { assert sorted[i] in rs; }
  }

  lemma SweepDone(rs: Ranges, swept: Ranges, write: nat)
    requires Swept(SortByFirst(rs), swept, write, |swept|)
    ensures Canonical(swept[..write + 1]) && SameBytes(swept[..write + 1], rs)
  {
    var sorted := SortByFirst(rs);
    assert sorted[..|swept|] == sorted;
    SortKeepsBytes(rs);
  }

  lemma SweepMerge(sorted: Ranges, rs: Ranges, write: nat, read: nat)
    requires Swept(sorted, rs, write, read) && read < |rs| && NonEmpty(sorted) && SortedByFirst(sorted)
    requires rs[write].Mergeable(rs[read])
    ensures Swept(sorted, rs[write := rs[write].Merged(rs[read])], write, read + 1)
  {
    var a, r := rs[..write + 1], rs[read];
    assert r == rs[read..][0] == sorted[read];
    ExtendCanonical(a, r);
    var out := rs[write := rs[write].Merged(r)];
    var left := out[..write + 1];
    assert left == a[..write] + [rs[write].Merged(r)];
    assert out[read + 1..] == rs[read..][1..] == sorted[read + 1..];
    var done := sorted[..read + 1];
    assert done == sorted[..read] + [r];
    forall x: nat ensures Covers(left, x) <==> Covers(done, x) {
      CoversAppend(sorted[..read], r, x);
    }
  }

  lemma SweepKeep(sorted: Ranges, rs: Ranges, write: nat, read: nat)
    requires Swept(sorted, rs, write, read) && read < |rs| && NonEmpty(sorted) && SortedByFirst(sorted)
    requires !rs[write].Mergeable(rs[read])
    ensures Swept(sorted, rs[write + 1 := rs[read]], write + 1, read + 1)
  {
    var a, r := rs[..write + 1], rs[read];
    assert r == rs[read..][0] == sorted[read];
    ExtendCanonical(a, r);
    AppendCanonical(a, r);
    var out := rs[write + 1 := r];
    var left := out[..write + 2];
    assert left == a + [r];
    assert out[read + 1..] == rs[read..][1..] == sorted[read + 1..];
    var done := sorted[..read + 1];
    assert done == sorted[..read] + [r];
    forall x: nat ensures Covers(left, x) <==> Covers(done, x) {
      CoversAppend(sorted[..read], r, x);
      CoversAppend(a, r, x);
    }
  }

  // ----- lists without overlaps

  ghost predicate NoOverlap(rs: Ranges) {
    forall i, j :: 0 <= i < j < |rs| ==> !rs[i].Overlaps(rs[j])
  }

  ghost predicate ClearOf(r: MemRange, rs: Ranges) {
    forall e :: e in rs ==> !r.Overlaps(e)
  }

  lemma {:induction false} InsertByFirstNoOverlap(rs: Ranges, r: MemRange)
    requires NoOverlap(rs) && ClearOf(r, rs)
    ensures NoOverlap(InsertByFirst(rs, r))
  {
    if rs != [] && r.first > rs[0].first {
      InsertByFirstNoOverlap(rs[1..], r);
      var rest := InsertByFirst(rs[1..], r);
      assert rs[0] in rs && !r.Overlaps(rs[0]);
      forall j | 0 <= j < |rest| ensures !rs[0].Overlaps(rest[j]) {
        InsertByFirstElements(rs[1..], r, rest[j]);
      }
    }
  }

  lemma {:induction false} SortNoOverlap(rs: Ranges)
    requires NoOverlap(rs)
    ensures NoOverlap(SortByFirst(rs))
  {
    if rs != [] {
      SortNoOverlap(rs[1..]);
      SortKeepsBytes(rs[1..]);
      InsertByFirstNoOverlap(SortByFirst(rs[1..]), rs[0]);
    }
  }

  /** Each range ends before the next one starts. */
  ghost predicate Ordered(rs: Ranges) {
    forall i, j :: 0 <= i < j < |rs| ==> rs[i].last <= rs[j].first
  }

  lemma SortOrders(rs: Ranges)
    requires NonEmpty(rs) && NoOverlap(rs)
    ensures NonEmpty(SortByFirst(rs)) && Ordered(SortByFirst(rs))
  {
    var s := SortByFirst(rs);
    SortNoOverlap(rs);
    SortByFirstSorts(rs);
    SortKeepsBytes(rs);
    forall i | 0 <= i < |s| ensures s[i].first < s[i].last { assert s[i] in rs; }
    forall i, j | 0 <= i < j < |s| ensures s[i].last <= s[j].first { assert !s[i].Overlaps(s[j]); }
  }

  /** A canonical list and a range with no offset of it do not overlap. */
  lemma CanonicalAndClear(rs: Ranges, r: MemRange)
    requires Canonical(rs) && r.first < r.last && forall x: nat :: r.Has(x) ==> !Covers(rs, x)
    ensures NonEmpty(rs + [r]) && NoOverlap(rs + [r])
  {
    var all := rs + [r];
    forall i, j | 0 <= i < j < |all| ensures !all[i].Overlaps(all[j]) {
      if j == |rs| {
        var x := if rs[i].first < r.first then r.first else rs[i].first;
        assert rs[i].Has(x) ==> Covers(rs, x);
        assert r.Has(x) ==> !Covers(rs, x);
      } else {
        assert rs[i].last < rs[j].first;
      }
    }
  }
}
