/**
 * The coordinate map: an interval store over one document's character
 * indices, mapping an interval's start to its stop.
 *
 * `Store` is the value of a map: its keys in dict iteration order (insertion
 * order: re-assigning a key keeps its place, deleting and re-adding moves it to
 * the end), the dict itself, the table of covered indices (`all_coords`) and
 * the pattern table (`coord2pattern`). The read-only methods of the source
 * class are functions of that value; `CoordinateMap` is the mutable object,
 * whose methods are proved to change its value as the functions say.
 */
module CoordinateMaps {
  import opened Text
  import opened Records

  datatype Store = Store(order: seq<int>, stopOf: map<int, int>, covered: set<int>,
                         patterns: map<int, seq<string>>)

  const Empty: Store := Store([], map[], {}, map[])

  /** `order` lists every key of the dict exactly once. */
  predicate Wf(st: Store) {
    && Distinct(st.order)
    && (forall i :: 0 <= i < |st.order| ==> st.order[i] in st.stopOf)
    && (forall k :: k in st.stopOf ==> k in st.order)
  }

  /** `range(a, b)` as a set. */
  function Range(a: int, b: int): (r: set<int>)
    ensures forall i :: i in r <==> a <= i < b
  {
    set i | a <= i < b && Between(a, i, b)
  }

  predicate Between(a: int, i: int, b: int) {
    a <= i < b
  }

  /** `s` without the element `x`. */
  function Without(s: seq<int>, x: int): (r: seq<int>)
    ensures forall y :: y in r <==> y in s && y != x
    ensures |r| <= |s|
  {
    if s == [] then []
    else (if s[0] == x then [] else [s[0]]) + Without(s[1..], x)
  }

  lemma DistinctCons(x: int, xs: seq<int>)
    ensures Distinct([x] + xs) <==> x !in xs && Distinct(xs)
  {
    var s := [x] + xs;
    assert forall i :: 0 <= i < |xs| ==> s[i + 1] == xs[i];
    if Distinct(s) {
      forall i | 0 <= i < |xs| ensures xs[i] != x { assert s[i + 1] == xs[i] && s[0] == x; }
      forall i, j | 0 <= i < j < |xs| ensures xs[i] != xs[j] { assert s[i + 1] != s[j + 1]; }
    }
    if x !in xs && Distinct(xs) {
      forall i, j | 0 <= i < j < |s| ensures s[i] != s[j] {
        assert s[j] == xs[j - 1];
        if i > 0 { assert s[i] == xs[i - 1]; }
      }
    }
  }

  lemma {:induction false} WithoutDistinct(s: seq<int>, x: int)
    requires Distinct(s)
    ensures Distinct(Without(s, x))
  {
    if s != [] {
      assert s == [s[0]] + s[1..];
      DistinctCons(s[0], s[1..]);
      WithoutDistinct(s[1..], x);
      var rest := Without(s[1..], x);
      if s[0] != x {
        DistinctCons(s[0], rest);
      } else {
        assert Without(s, x) == rest;
      }
    }
  }

  // ---- queries ----

  /** Stored interval `k` covers index `i`, both ends inclusive (the `does_overlap` reading). */
  predicate Touches(stopOf: map<int, int>, k: int, i: int) {
    k in stopOf && k <= i <= stopOf[k]
  }

  lemma OverlapsWitness(stopOf: map<int, int>, start: int, stop: int)
    ensures (exists k :: k in stopOf && k <= stopOf[k] && start <= stop && k <= stop && start <= stopOf[k])
        <==> (exists k, i :: start <= i <= stop && Touches(stopOf, k, i))
  {
    if k :| k in stopOf && k <= stopOf[k] && start <= stop && k <= stop && start <= stopOf[k] {
      var i := if k < start then start else k;
      assert start <= i <= stop && Touches(stopOf, k, i);
    }
  }

  /**
   * `does_overlap(start, stop)`: some index of `[start, stop]` lies in some
   * stored `[k, stopOf[k]]`, both inclusive, so touching ends count.
   */
  function Overlaps(stopOf: map<int, int>, start: int, stop: int): (b: bool)
    ensures b <==> exists k, i :: start <= i <= stop && Touches(stopOf, k, i)
  {
    OverlapsWitness(stopOf, start, stop);
    exists k :: k in stopOf && k <= stopOf[k] && start <= stop && k <= stop && start <= stopOf[k]
  }

  /** `does_exist(index)`: `index` is the start of a stored interval. */
  function DoesExist(st: Store, index: int): bool {
    index in st.stopOf
  }

  /** `get_coords(start)`; the source raises `KeyError` when `start` is not a key. */
  function GetCoords(st: Store, start: int): (r: Option<(int, int)>)
    ensures r.Some? <==> DoesExist(st, start)
    ensures r.Some? ==> r.value.0 == start && r.value.1 == st.stopOf[start]
  {
    if start in st.stopOf then Some((start, st.stopOf[start])) else None
  }

  // ---- ordered enumeration ----

  predicate StrictlyAscending(xs: seq<int>) {
    forall i, j :: 0 <= i < j < |xs| ==> xs[i] < xs[j]
  }

  predicate Distinct(xs: seq<int>) {
    forall i, j :: 0 <= i < j < |xs| ==> xs[i] != xs[j]
  }

  function InsertSorted(x: int, xs: seq<int>): (r: seq<int>)
    requires StrictlyAscending(xs) && x !in xs
    ensures StrictlyAscending(r)
    ensures forall y :: y in r <==> y == x || y in xs
    ensures |r| == |xs| + 1
  {
    if xs == [] || x < xs[0] then [x] + xs
    else
      var rest := InsertSorted(x, xs[1..]);
      TailAbove(xs);
      ConsAscending(xs[0], rest);
      [xs[0]] + rest
  }

  lemma TailAbove(xs: seq<int>)
    requires StrictlyAscending(xs) && |xs| > 0
    ensures forall y :: y in xs[1..] ==> xs[0] < y
  {
    forall y | y in xs[1..] ensures xs[0] < y {
      var j :| 0 <= j < |xs[1..]| && xs[1..][j] == y;
      assert xs[j + 1] == y;
    }
  }

  lemma ConsAscending(h: int, rest: seq<int>)
    requires StrictlyAscending(rest) && forall y :: y in rest ==> h < y
    ensures StrictlyAscending([h] + rest)
  {
    var r := [h] + rest;
    forall i, j | 0 <= i < j < |r| ensures r[i] < r[j] {
      assert r[j] == rest[j - 1];
      if i > 0 { assert r[i] == rest[i - 1]; } else { assert rest[j - 1] in rest; }
    }
  }

  /** `sorted(keys)`. */
  function SortKeys(xs: seq<int>): (r: seq<int>)
    requires Distinct(xs)
    ensures StrictlyAscending(r)
    ensures forall y :: y in r <==> y in xs
    ensures |r| == |xs|
  {
    if xs == [] then []
    else
      assert xs[0] !in xs[1..] by {
        forall j | 0 <= j < |xs[1..]| ensures xs[1..][j] != xs[0] { assert xs[1..][j] == xs[j + 1]; }
      }
      InsertSorted(xs[0], SortKeys(xs[1..]))
  }

  /** `filecoords()`: every stored `(k, stopOf[k])` exactly once, in strictly ascending `k`. */
  function FileCoords(st: Store): (r: seq<(int, int)>)
    requires Wf(st)
    ensures forall i, j :: 0 <= i < j < |r| ==> r[i].0 < r[j].0
    ensures forall i :: 0 <= i < |r| ==> r[i].0 in st.stopOf && r[i].1 == st.stopOf[r[i].0]
    ensures forall k :: k in st.stopOf ==> exists i :: 0 <= i < |r| && r[i].0 == k
  {
    var ks := SortKeys(st.order);
    forall i | 0 <= i < |ks| ensures ks[i] in st.stopOf {
      assert ks[i] in ks;
    }
    var r := KeyedStops(ks, st.stopOf);
    forall k | k in st.stopOf ensures exists i :: 0 <= i < |r| && r[i].0 == k {
      assert k in ks;
      var i :| 0 <= i < |ks| && ks[i] == k;
      assert r[i].0 == k;
    }
    r
  }

  /** The pairs `(k, stopOf[k])` for the keys `ks`, in their order. */
  function KeyedStops(ks: seq<int>, stopOf: map<int, int>): (r: seq<(int, int)>)
    requires forall i :: 0 <= i < |ks| ==> ks[i] in stopOf
    ensures |r| == |ks|
    ensures forall i :: 0 <= i < |r| ==> r[i] == (ks[i], stopOf[ks[i]])
  {
    seq(|ks|, i requires 0 <= i < |ks| => (ks[i], stopOf[ks[i]]))
  }

  // ---- merging insertion ----

  /** One element of the list `max_overlap` builds. */
  datatype Overlap = Overlap(origStart: int, origEnd: int, newStart: int, newStop: int)

  /** `max_overlap` reports stored `(s, e)` iff it contains `start` or contains `stop`. */
  predicate Reported(s: int, e: int, start: int, stop: int) {
    (s <= start <= e) || (s <= stop <= e)
  }

  /** The entry `max_overlap` builds for a reported interval `(s, e)`. */
  function Merge(s: int, e: int, start: int, stop: int): (o: Overlap)
    requires Reported(s, e, start, stop)
    ensures o.origStart == s && o.origEnd == e
    ensures o.newStart <= start && stop <= o.newStop
    ensures s <= start <= e ==>
      o.newStart == s && e <= o.newStop && (o.newStop == stop || o.newStop == e)
    ensures !(s <= start <= e) ==>
      o.newStop == e && o.newStart <= s && (o.newStart == start || o.newStart == s)
  {
    if s <= start <= e then Overlap(s, e, s, if stop >= e then stop else e)
    else Overlap(s, e, if start <= s then start else s, e)
  }

  /**
   * `max_overlap(start, stop)` over the keys in `order`: the stored intervals
   * that contain `start` or `stop`, each with the span it would merge into.
   */
  function MaxOverlap(order: seq<int>, stopOf: map<int, int>, start: int, stop: int): (r: seq<Overlap>)
    requires forall i :: 0 <= i < |order| ==> order[i] in stopOf
    ensures |r| <= |order|
    ensures forall o :: o in r ==>
      && o.origStart in stopOf
      && Reported(o.origStart, stopOf[o.origStart], start, stop)
      && o == Merge(o.origStart, stopOf[o.origStart], start, stop)
  {
    if order == [] then []
    else
      var s := order[0];
      var rest := MaxOverlap(order[1..], stopOf, start, stop);
      if Reported(s, stopOf[s], start, stop) then [Merge(s, stopOf[s], start, stop)] + rest else rest
  }

  /** `max_overlap` reports nothing when no stored interval contains `start` or `stop`. */
  lemma {:induction false} NothingReported(order: seq<int>, stopOf: map<int, int>, start: int, stop: int)
    requires forall i :: 0 <= i < |order| ==> order[i] in stopOf
    requires forall i :: 0 <= i < |order| ==> !Reported(order[i], stopOf[order[i]], start, stop)
    ensures MaxOverlap(order, stopOf, start, stop) == []
  {
    if order != [] {
      NothingReported(order[1..], stopOf, start, stop);
    }
  }

  lemma TailMember(xs: seq<int>, x: int)
    requires x in xs && x != xs[0]
    ensures x in xs[1..]
  {
    var i :| 0 <= i < |xs| && xs[i] == x;
    assert xs[1..][i - 1] == x;
  }

  /**
   * `max_overlap` reports exactly the stored keys whose interval contains
   * `start` or `stop`; an interval strictly inside `(start, stop)` is not one.
   */
  lemma {:induction false} MaxOverlapReportsExactly(order: seq<int>, stopOf: map<int, int>, start: int, stop: int)
    requires forall i :: 0 <= i < |order| ==> order[i] in stopOf
    ensures var r := MaxOverlap(order, stopOf, start, stop);
      && (forall o :: o in r ==> o.origStart in order)
      && (forall k :: k in order && Reported(k, stopOf[k], start, stop) ==> exists o :: o in r && o.origStart == k)
  {
    if order != [] {
      var tail := order[1..];
      MaxOverlapReportsExactly(tail, stopOf, start, stop);
      var r := MaxOverlap(order, stopOf, start, stop);
      var rest := MaxOverlap(tail, stopOf, start, stop);
      assert forall o :: o in rest ==> o in r;
      forall k | k in order && Reported(k, stopOf[k], start, stop)
        ensures exists o :: o in r && o.origStart == k
      {
        if k == order[0] {
          assert r[0].origStart == k;
        } else {
          TailMember(order, k);
        }
      }
      forall o | o in r ensures o.origStart in order {
        if o in rest {
          assert o.origStart in tail;
        } else {
          assert o == r[0];
        }
      }
    }
  }

  /** `x` sits at an earlier position of `order` than `y`. */
  predicate Before(order: seq<int>, x: int, y: int) {
    exists i, j :: 0 <= i < j < |order| && order[i] == x && order[j] == y
  }

  lemma BeforeTail(order: seq<int>, x: int, y: int)
    requires order != [] && Before(order[1..], x, y)
    ensures Before(order, x, y)
  {
    var i, j :| 0 <= i < j < |order[1..]| && order[1..][i] == x && order[1..][j] == y;
    assert order[i + 1] == x && order[j + 1] == y;
  }

  lemma BeforeHead(order: seq<int>, y: int)
    requires order != [] && y in order[1..]
    ensures Before(order, order[0], y)
  {
    var j :| 0 <= j < |order[1..]| && order[1..][j] == y;
    assert order[j + 1] == y;
  }

  /** Order of two records of a list that is the tail's list, possibly after one record for `order[0]`. */
  lemma RecordsBefore(order: seq<int>, r: seq<Overlap>, rest: seq<Overlap>, d: nat, a: int, b: int)
    requires order != [] && d <= 1 && |r| == |rest| + d && r[d..] == rest
    requires d == 1 ==> r[0].origStart == order[0]
    requires forall o :: o in rest ==> o.origStart in order[1..]
    requires forall a, b :: 0 <= a < b < |rest| ==> Before(order[1..], rest[a].origStart, rest[b].origStart)
    requires 0 <= a < b < |r|
    ensures Before(order, r[a].origStart, r[b].origStart)
  {
    assert r[b] == rest[b - d];
    if a < d {
      assert rest[b - d] in rest;
      BeforeHead(order, r[b].origStart);
    } else {
      assert r[a] == rest[a - d];
      BeforeTail(order, r[a].origStart, r[b].origStart);
    }
  }

  /** `max_overlap` lists the reported intervals in the dictionary's key order. */
  lemma {:induction false} MaxOverlapInOrder(order: seq<int>, stopOf: map<int, int>, start: int, stop: int)
    requires forall i :: 0 <= i < |order| ==> order[i] in stopOf
    ensures var r := MaxOverlap(order, stopOf, start, stop);
      forall a, b :: 0 <= a < b < |r| ==> Before(order, r[a].origStart, r[b].origStart)
  {
    if order != [] {
      var tail := order[1..];
      MaxOverlapInOrder(tail, stopOf, start, stop);
      MaxOverlapReportsExactly(tail, stopOf, start, stop);
      var r := MaxOverlap(order, stopOf, start, stop);
      var rest := MaxOverlap(tail, stopOf, start, stop);
      var d := |r| - |rest|;
      assert r[d..] == rest;
      forall a, b | 0 <= a < b < |r| ensures Before(order, r[a].origStart, r[b].origStart) {
        RecordsBefore(order, r, rest, d, a, b);
      }
    }
  }

  /** `add(start, stop, overlap=True, pattern)`: the unconditional part of `add`. */
  function Insert(st: Store, start: int, stop: int, pattern: string): (r: Store)
    ensures r.stopOf.Keys == st.stopOf.Keys + {start} && r.stopOf[start] == stop
    ensures forall k :: k in st.stopOf && k != start ==> r.stopOf[k] == st.stopOf[k]
    ensures r.covered == st.covered + Range(start, stop)
  {
    Store(if start in st.stopOf then st.order else st.order + [start],
          st.stopOf[start := stop],
          st.covered + Range(start, stop),
          if pattern != "" then st.patterns[start := [pattern]] else st.patterns)
  }

  lemma InsertWf(st: Store, start: int, stop: int, pattern: string)
    requires Wf(st)
    ensures Wf(Insert(st, start, stop, pattern))
  {
    var r := Insert(st, start, stop, pattern);
    if start !in st.stopOf {
      assert forall i :: 0 <= i < |st.order| ==> r.order[i] == st.order[i];
    }
  }

  /** `remove(start, stop)`: drops key `start` if present and clears `[start, stop]` from the covered table. */
  function Delete(st: Store, start: int, stop: int): (r: Store)
    ensures r.stopOf.Keys == st.stopOf.Keys - {start}
    ensures forall k :: k in r.stopOf ==> r.stopOf[k] == st.stopOf[k]
    ensures r.covered == st.covered - Range(start, stop + 1)
    ensures start !in st.stopOf ==> r.stopOf == st.stopOf
  {
    Store(Without(st.order, start), st.stopOf - {start}, st.covered - Range(start, stop + 1), st.patterns)
  }

  lemma DeleteWf(st: Store, start: int, stop: int)
    requires Wf(st)
    ensures Wf(Delete(st, start, stop))
  {
    WithoutDistinct(st.order, start);
    var r := Without(st.order, start);
    forall i | 0 <= i < |r| ensures r[i] in st.stopOf && r[i] != start {
      assert r[i] in r;
    }
  }

  /** The clearing loop of `add_extend`: `remove` every reported interval, in list order. */
  function RemoveAll(st: Store, ov: seq<Overlap>): (r: Store)
    ensures r.stopOf.Keys == st.stopOf.Keys - set o | o in ov :: o.origStart
    ensures forall k :: k in r.stopOf ==> r.stopOf[k] == st.stopOf[k]
  {
    if ov == [] then st
    else
      var prev := RemoveAll(st, ov[..|ov| - 1]);
      assert forall o :: o in ov <==> o in ov[..|ov| - 1] || o == ov[|ov| - 1];
      Delete(prev, ov[|ov| - 1].origStart, ov[|ov| - 1].origEnd)
  }

  lemma {:induction false} RemoveAllWf(st: Store, ov: seq<Overlap>)
    requires Wf(st)
    ensures Wf(RemoveAll(st, ov))
  {
    if ov != [] {
      RemoveAllWf(st, ov[..|ov| - 1]);
      DeleteWf(RemoveAll(st, ov[..|ov| - 1]), ov[|ov| - 1].origStart, ov[|ov| - 1].origEnd);
    }
  }

  /**
   * The span `add_extend` stores: the new span when nothing is reported, the one
   * reported merge, or `(overlaps[-1].new_start, overlaps[0].new_stop)`.
   */
  function MergedSpan(ov: seq<Overlap>, start: int, stop: int): (int, int) {
    if |ov| == 0 then (start, stop)
    else if |ov| == 1 then (ov[0].newStart, ov[0].newStop)
    else (ov[|ov| - 1].newStart, ov[0].newStop)
  }

  /** `add_extend(start, stop, pattern)`. */
  function Extend(st: Store, start: int, stop: int, pattern: string): Store
    requires Wf(st)
  {
    var ov := MaxOverlap(st.order, st.stopOf, start, stop);
    var span := MergedSpan(ov, start, stop);
    Insert(RemoveAll(st, ov), span.0, span.1, pattern)
  }

  lemma ExtendWf(st: Store, start: int, stop: int, pattern: string)
    requires Wf(st)
    ensures Wf(Extend(st, start, stop, pattern))
  {
    var ov := MaxOverlap(st.order, st.stopOf, start, stop);
    var span := MergedSpan(ov, start, stop);
    RemoveAllWf(st, ov);
    InsertWf(RemoveAll(st, ov), span.0, span.1, pattern);
  }

  /** The interval `add_extend` stores always covers the new span. */
  lemma ExtendCoversNew(st: Store, start: int, stop: int, pattern: string)
    requires Wf(st)
    ensures var span := MergedSpan(MaxOverlap(st.order, st.stopOf, start, stop), start, stop);
      && span.0 <= start && stop <= span.1
      && Extend(st, start, stop, pattern).stopOf[span.0] == span.1
  {
    var ov := MaxOverlap(st.order, st.stopOf, start, stop);
    if |ov| > 0 {
      assert ov[0] == Merge(ov[0].origStart, ov[0].origEnd, start, stop);
      assert ov[|ov| - 1] == Merge(ov[|ov| - 1].origStart, ov[|ov| - 1].origEnd, start, stop);
    }
  }

  /**
   * After `add_extend`, no reported interval keeps its key (unless the stored
   * span starts there), and every unreported interval is kept as it was.
   */
  lemma ExtendReplacesReported(st: Store, start: int, stop: int, pattern: string)
    requires Wf(st)
    ensures var ov := MaxOverlap(st.order, st.stopOf, start, stop);
      var span := MergedSpan(ov, start, stop);
      var r := Extend(st, start, stop, pattern);
      && (forall o :: o in ov && o.origStart != span.0 ==> o.origStart !in r.stopOf)
      && (forall k :: k in st.stopOf && k != span.0 && !Reported(k, st.stopOf[k], start, stop) ==>
            k in r.stopOf && r.stopOf[k] == st.stopOf[k])
  {
    var ov := MaxOverlap(st.order, st.stopOf, start, stop);
    var gone := set o | o in ov :: o.origStart;
    var cleared := RemoveAll(st, ov);
    assert cleared.stopOf.Keys == st.stopOf.Keys - gone;
    forall k | k in st.stopOf && !Reported(k, st.stopOf[k], start, stop)
      ensures k in cleared.stopOf && cleared.stopOf[k] == st.stopOf[k]
    {
    }
  }

  /**
   * A stored interval lying strictly inside the new span is neither reported
   * nor removed: it survives `add_extend` beside the merged interval.
   */
  lemma ExtendKeepsInner(st: Store, start: int, stop: int, pattern: string, k: int)
    requires Wf(st)
    requires k in st.stopOf && start < k && st.stopOf[k] < stop
    ensures k in Extend(st, start, stop, pattern).stopOf
    ensures Extend(st, start, stop, pattern).stopOf[k] == st.stopOf[k]
  {
    ExtendCoversNew(st, start, stop, pattern);
    ExtendReplacesReported(st, start, stop, pattern);
  }

  /** With nothing reported, `add_extend` is `add(..., overlap=True)`. */
  lemma ExtendWithoutOverlap(st: Store, start: int, stop: int, pattern: string)
    requires Wf(st)
    requires forall k :: k in st.stopOf ==> !Reported(k, st.stopOf[k], start, stop)
    ensures Extend(st, start, stop, pattern) == Insert(st, start, stop, pattern)
  {
    NothingReported(st.order, st.stopOf, start, stop);
  }

  /**
   * Two intervals inserted in ascending order and bridged by a new span: the
   * stored result is exactly the new span `(2, 6)`, not the union `(1, 7)`,
   * and both old keys are gone.
   */
  lemma ExtendAscendingGivesNewSpan()
    ensures var st := Insert(Insert(Empty, 1, 3, ""), 5, 7, "");
      Extend(st, 2, 6, "").stopOf == map[2 := 6]
  {
    var st := Insert(Insert(Empty, 1, 3, ""), 5, 7, "");
    assert st.order == [1, 5];
    var ov := MaxOverlap(st.order, st.stopOf, 2, 6);
    assert MaxOverlap(st.order[1..], st.stopOf, 2, 6) == [Overlap(5, 7, 2, 7)];
    assert ov == [Overlap(1, 3, 1, 6), Overlap(5, 7, 2, 7)];
    var cleared := RemoveAll(st, ov);
    assert cleared.stopOf == map[];
  }

  /** The same two intervals inserted in descending order merge into the union `(1, 7)`. */
  lemma ExtendDescendingGivesUnion()
    ensures var st := Insert(Insert(Empty, 5, 7, ""), 1, 3, "");
      Extend(st, 2, 6, "").stopOf == map[1 := 7]
  {
    var st := Insert(Insert(Empty, 5, 7, ""), 1, 3, "");
    assert st.order == [5, 1];
    var ov := MaxOverlap(st.order, st.stopOf, 2, 6);
    assert MaxOverlap(st.order[1..], st.stopOf, 2, 6) == [Overlap(1, 3, 1, 6)];
    assert ov == [Overlap(5, 7, 2, 7), Overlap(1, 3, 1, 6)];
    var cleared := RemoveAll(st, ov);
    assert cleared.stopOf == map[];
  }

  // ---- complement ----

  /** Index `p` lies in a stored `[k, stopOf[k])` (the half-open reading of `add` and `get_complement`). */
  predicate CoveredAt(stopOf: map<int, int>, p: int) {
    exists k :: k in stopOf && k <= p < stopOf[k]
  }

  /** An index `get_complement` keeps: inside the text, uncovered, and in `[a-zA-Z0-9*]`. */
  predicate Free(stopOf: map<int, int>, text: string, p: int) {
    0 <= p < |text| && !CoveredAt(stopOf, p) && !IsPunctuation(text[p])
  }

  /** `Free` at every index of the text. */
  function FreeMask(stopOf: map<int, int>, text: string): (m: seq<bool>)
    ensures |m| == |text|
    ensures forall p :: 0 <= p < |text| ==> m[p] == Free(stopOf, text, p)
  {
    seq(|text|, p requires 0 <= p < |text| => Free(stopOf, text, p))
  }

  /** End of the run of `true` that starts at `i`. */
  function RunEnd(m: seq<bool>, i: nat): (j: nat)
    requires i <= |m|
    ensures i <= j <= |m|
    ensures forall p :: i <= p < j ==> m[p]
    ensures j == |m| || !m[j]
    decreases |m| - i
  {
    if i == |m| || !m[i] then i else RunEnd(m, i + 1)
  }

  /** The maximal runs of `true` in `m[i..]`, as half-open `(a, b)`, left to right. */
  function RunsFrom(m: seq<bool>, i: nat): (runs: seq<(int, int)>)
    requires i <= |m|
    ensures RunsOf(m, i, runs)
    decreases |m| - i
  {
    if i == |m| then []
    else if !m[i] then RunsFrom(m, i + 1)
    else
      var j := RunEnd(m, i);
      var rest := RunsFrom(m, j);
      ConsRun(m, i, j, rest);
      [(i, j)] + rest
  }

  /**
   * Every listed run lies in `m[i..]`, is all `true`, and cannot be extended
   * on either side within `m[i..]`.
   */
  predicate RunsOf(m: seq<bool>, i: nat, runs: seq<(int, int)>) {
    RunsInside(m, i, runs) && RunsTrue(m, runs) && RunsLeftMaximal(m, i, runs) && RunsRightMaximal(m, runs)
  }

  /** Every run is a non-empty interval of `[i, |m|)`. */
  predicate RunsInside(m: seq<bool>, i: nat, runs: seq<(int, int)>) {
    forall j :: 0 <= j < |runs| ==> i <= runs[j].0 < runs[j].1 <= |m|
  }

  /** Every index of every run is set. */
  predicate RunsTrue(m: seq<bool>, runs: seq<(int, int)>) {
    forall j, p :: 0 <= j < |runs| && runs[j].0 <= p < runs[j].1 ==> 0 <= p < |m| && m[p]
  }

  /** No run can be extended to the left (except at `i`, where the scan started). */
  predicate RunsLeftMaximal(m: seq<bool>, i: nat, runs: seq<(int, int)>) {
    forall j :: 0 <= j < |runs| ==> runs[j].0 == i || (0 < runs[j].0 <= |m| && !m[runs[j].0 - 1])
  }

  /** No run can be extended to the right. */
  predicate RunsRightMaximal(m: seq<bool>, runs: seq<(int, int)>) {
    forall j :: 0 <= j < |runs| ==> runs[j].1 == |m| || (0 <= runs[j].1 < |m| && !m[runs[j].1])
  }

  /** A maximal run starting at `i`, followed by the runs from its end, are the runs from `i`. */
  lemma ConsRun(m: seq<bool>, i: nat, j: nat, rest: seq<(int, int)>)
    requires i < j <= |m| && (forall p :: i <= p < j ==> m[p]) && (j == |m| || !m[j])
    requires RunsOf(m, j, rest)
    ensures RunsOf(m, i, [(i, j)] + rest)
  {
    ConsInside(m, i, j, rest);
    ConsTrue(m, i, j, rest);
    ConsLeftMaximal(m, i, j, rest);
    ConsRightMaximal(m, i, j, rest);
  }

  lemma ConsInside(m: seq<bool>, i: nat, j: nat, rest: seq<(int, int)>)
    requires i < j <= |m| && RunsInside(m, j, rest)
    ensures RunsInside(m, i, [(i, j)] + rest)
  {
    var runs := [(i, j)] + rest;
    forall k | 0 <= k < |runs| ensures i <= runs[k].0 < runs[k].1 <= |m| {
      if k > 0 { assert runs[k] == rest[k - 1]; }
    }
  }

  lemma ConsTrue(m: seq<bool>, i: nat, j: nat, rest: seq<(int, int)>)
    requires i < j <= |m| && (forall p :: i <= p < j ==> m[p])
    requires RunsInside(m, j, rest) && RunsTrue(m, rest)
    ensures RunsTrue(m, [(i, j)] + rest)
  {
    var runs := [(i, j)] + rest;
    forall k, p | 0 <= k < |runs| && runs[k].0 <= p < runs[k].1 ensures 0 <= p < |m| && m[p] {
      if k == 0 {
        assert i <= p < j;
      } else {
        var q := k - 1;
        assert runs[k] == rest[q];
        assert rest[q].1 <= |m|;
      }
    }
  }

  lemma ConsLeftMaximal(m: seq<bool>, i: nat, j: nat, rest: seq<(int, int)>)
    requires i < j <= |m| && (j == |m| || !m[j])
    requires RunsInside(m, j, rest) && RunsTrue(m, rest) && RunsLeftMaximal(m, j, rest)
    ensures RunsLeftMaximal(m, i, [(i, j)] + rest)
  {
    var runs := [(i, j)] + rest;
    forall k | 0 <= k < |runs| ensures runs[k].0 == i || (0 < runs[k].0 <= |m| && !m[runs[k].0 - 1]) {
      if k > 0 {
        assert runs[k] == rest[k - 1];
        assert m[rest[k - 1].0];
      }
    }
  }

  lemma ConsRightMaximal(m: seq<bool>, i: nat, j: nat, rest: seq<(int, int)>)
    requires i < j <= |m| && (j == |m| || !m[j]) && RunsRightMaximal(m, rest)
    ensures RunsRightMaximal(m, [(i, j)] + rest)
  {
    var runs := [(i, j)] + rest;
    forall k | 0 <= k < |runs| ensures runs[k].1 == |m| || (0 <= runs[k].1 < |m| && !m[runs[k].1]) {
      if k > 0 { assert runs[k] == rest[k - 1]; }
    }
  }

  /** The runs are listed left to right with a gap between neighbours. */
  predicate Separated(runs: seq<(int, int)>) {
    forall a, b :: 0 <= a < b < |runs| ==> runs[a].1 < runs[b].0
  }

  /** Index `p` lies in one of the runs. */
  predicate InSomeRun(runs: seq<(int, int)>, p: int) {
    exists j :: 0 <= j < |runs| && runs[j].0 <= p < runs[j].1
  }

  lemma {:induction false} RunsFromSeparated(m: seq<bool>, i: nat)
    requires i <= |m|
    ensures Separated(RunsFrom(m, i))
    decreases |m| - i
  {
    if i < |m| {
      if !m[i] {
        RunsFromSeparated(m, i + 1);
      } else {
        var j := RunEnd(m, i);
        var rest := RunsFrom(m, j);
        RunsFromSeparated(m, j);
        var runs := RunsFrom(m, i);
        assert runs == [(i, j)] + rest;
        forall a, b | 0 <= a < b < |runs| ensures runs[a].1 < runs[b].0 {
          assert runs[b] == rest[b - 1];
          if a == 0 {
            assert runs[0] == (i, j);
            assert j <= rest[b - 1].0 < rest[b - 1].1 <= |m|;
            assert m[rest[b - 1].0];
          } else {
            assert runs[a] == rest[a - 1];
          }
        }
      }
    }
  }

  lemma {:induction false} RunsFromComplete(m: seq<bool>, i: nat, p: int)
    requires i <= p < |m| && m[p]
    ensures InSomeRun(RunsFrom(m, i), p)
    decreases |m| - i
  {
    if !m[i] {
      RunsFromComplete(m, i + 1, p);
    } else if p < RunEnd(m, i) {
      FirstRunHolds(m, i, p);
    } else {
      RunsFromComplete(m, RunEnd(m, i), p);
      LaterRunHolds(m, i, p);
    }
  }

  /** An index in the run starting at `i` lies in the first run listed from `i`. */
  lemma FirstRunHolds(m: seq<bool>, i: nat, p: int)
    requires i <= p < |m| && m[i] && p < RunEnd(m, i)
    ensures InSomeRun(RunsFrom(m, i), p)
  {
    var runs := RunsFrom(m, i);
    assert runs[0] == (i, RunEnd(m, i));
  }

  /** An index in a run listed after the run starting at `i` lies in a run listed from `i`. */
  lemma LaterRunHolds(m: seq<bool>, i: nat, p: int)
    requires i < |m| && m[i] && InSomeRun(RunsFrom(m, RunEnd(m, i)), p)
    ensures InSomeRun(RunsFrom(m, i), p)
  {
    var rest := RunsFrom(m, RunEnd(m, i));
    assert RunsFrom(m, i) == [(i, RunEnd(m, i))] + rest;
    InSomeRunCons((i, RunEnd(m, i)), rest, p);
  }

  lemma InSomeRunCons(run: (int, int), rest: seq<(int, int)>, p: int)
    requires InSomeRun(rest, p)
    ensures InSomeRun([run] + rest, p)
  {
    var b :| 0 <= b < |rest| && rest[b].0 <= p < rest[b].1;
    assert ([run] + rest)[b + 1] == rest[b];
  }

  /**
   * `get_complement(text)`: the maximal runs `[a, b)` of indices that are free
   * (below `len(text)`, covered by no stored `[k, stopOf[k])`, and in
   * `[a-zA-Z0-9*]`), ascending and separated; every free index lies in a run.
   */
  function Complement(stopOf: map<int, int>, text: string): (runs: seq<(int, int)>)
    ensures forall j :: 0 <= j < |runs| ==> 0 <= runs[j].0 < runs[j].1 <= |text|
    ensures forall j, p :: 0 <= j < |runs| && runs[j].0 <= p < runs[j].1 ==> Free(stopOf, text, p)
    ensures forall j :: 0 <= j < |runs| ==> !Free(stopOf, text, runs[j].0 - 1) && !Free(stopOf, text, runs[j].1)
    ensures Separated(runs)
    ensures forall p :: Free(stopOf, text, p) <==> InSomeRun(runs, p)
  {
    var m := FreeMask(stopOf, text);
    var runs := RunsFrom(m, 0);
    RunsFromSeparated(m, 0);
    forall p | Free(stopOf, text, p) ensures InSomeRun(runs, p) {
      RunsFromComplete(m, 0, p);
    }
    runs
  }

  // ---- the mutable object ----

  function OverlapMessage(start: int, stop: int): string {
    "Error, overlaps were found: " + IntToString(start) + " " + IntToString(stop)
  }

  class CoordinateMap {
    var order: seq<int>
    var stopOf: map<int, int>
    var allCoords: set<int>
    var coord2pattern: map<int, seq<string>>

    function State(): Store
      reads this
    {
      Store(order, stopOf, allCoords, coord2pattern)
    }

    ghost predicate Valid()
      reads this
    {
      Wf(State())
    }

    constructor ()
      ensures Valid() && State() == Empty
    {
      order := [];
      stopOf := map[];
      allCoords := {};
      coord2pattern := map[];
    }

    /**
     * `add(start, stop, overlap, pattern)`: refused, with nothing changed, when
     * `overlap` is false and the span touches a stored interval; otherwise
     * `stopOf[start] := stop` and `[start, stop)` is marked covered.
     */
    method Add(start: int, stop: int, overlap: bool, pattern: string) returns (ok: bool, msg: Option<string>)
      requires Valid()
      modifies this
      ensures Valid()
      ensures ok <==> overlap || !Overlaps(old(stopOf), start, stop)
      ensures ok ==> State() == Insert(old(State()), start, stop, pattern) && msg == None
      ensures !ok ==> State() == old(State()) && msg == Some(OverlapMessage(start, stop))
    {
      if !overlap {
        if Overlaps(stopOf, start, stop) {
          return false, Some(OverlapMessage(start, stop));
        }
      }
      InsertWf(State(), start, stop, pattern);
      if start !in stopOf {
        order := order + [start];
      }
      stopOf := stopOf[start := stop];
      ghost var keys := order;
      var i := start;
      while i < stop
        invariant start <= i && (i <= stop || i == start)
        invariant allCoords == old(allCoords) + Range(start, i)
        invariant order == keys && stopOf == old(stopOf)[start := stop]
        invariant coord2pattern == old(coord2pattern)
      {
        allCoords := allCoords + {i};
        i := i + 1;
      }
      assert Range(start, i) == Range(start, stop);
      if pattern != "" {
        AddPattern(start, stop, pattern);
      }
      return true, None;
    }

    /** `add_pattern`: the pattern list at `start` becomes `[pattern]`. */
    method AddPattern(start: int, stop: int, pattern: string)
      modifies this
      ensures coord2pattern == old(coord2pattern)[start := [pattern]]
      ensures order == old(order) && stopOf == old(stopOf) && allCoords == old(allCoords)
    {
      coord2pattern := coord2pattern[start := []];
      assert coord2pattern[start] + [pattern] == [pattern];
      coord2pattern := coord2pattern[start := coord2pattern[start] + [pattern]];
    }

    /** `remove(start, stop)`: always `(True, None)`. */
    method Remove(start: int, stop: int) returns (ok: bool, msg: Option<string>)
      requires Valid()
      modifies this
      ensures Valid()
      ensures State() == Delete(old(State()), start, stop)
      ensures ok && msg == None
    {
      DeleteWf(State(), start, stop);
      if start in stopOf {
        stopOf := stopOf - {start};
        order := Without(order, start);
      }
      ghost var keys := order;
      var i := start;
      while i < stop + 1
        invariant start <= i && (i <= stop + 1 || i == start)
        invariant allCoords == old(allCoords) - Range(start, i)
        invariant order == keys && stopOf == old(stopOf) - {start}
        invariant coord2pattern == old(coord2pattern)
      {
        if i in allCoords {
          allCoords := allCoords - {i};
        }
        i := i + 1;
      }
      assert Range(start, i) == Range(start, stop + 1);
      assert start !in old(stopOf) ==> Without(old(order), start) == old(order) by {
        if start !in old(stopOf) { WithoutAbsent(old(order), start); }
      }
      return true, None;
    }

    /** `clear_overlaps`: `remove` each reported interval, in list order. */
    method ClearOverlaps(overlaps: seq<Overlap>)
      requires Valid()
      modifies this
      ensures Valid()
      ensures State() == RemoveAll(old(State()), overlaps)
    {
      var j := 0;
      while j < |overlaps|
        invariant 0 <= j <= |overlaps|
        invariant Valid()
        invariant State() == RemoveAll(old(State()), overlaps[..j])
      {
        assert overlaps[..j + 1][..j] == overlaps[..j];
        var _, _ := Remove(overlaps[j].origStart, overlaps[j].origEnd);
        j := j + 1;
      }
      assert overlaps[..j] == overlaps;
    }

    /**
     * `add_extend(start, stop, pattern)`: removes what `max_overlap` reports and
     * stores the merged span; always `(True, None)`.
     */
    method AddExtend(start: int, stop: int, pattern: string) returns (ok: bool, msg: Option<string>)
      requires Valid()
      modifies this
      ensures Valid()
      ensures State() == Extend(old(State()), start, stop, pattern)
      ensures ok && msg == None
    {
      var overlaps := MaxOverlap(order, stopOf, start, stop);
      ghost var span := MergedSpan(overlaps, start, stop);
      if |overlaps| == 0 {
        ok, msg := Add(start, stop, true, pattern);
      } else if |overlaps| == 1 {
        ClearOverlaps(overlaps);
        var o := overlaps[0];
        ok, msg := Add(o.newStart, o.newStop, true, pattern);
      } else {
        ClearOverlaps(overlaps);
        var o1 := overlaps[0];
        var o2 := overlaps[|overlaps| - 1];
        ok, msg := Add(o2.newStart, o1.newStop, true, pattern);
      }
      ok, msg := true, None;
    }
  }

  lemma {:induction false} WithoutAbsent(s: seq<int>, x: int)
    requires x !in s
    ensures Without(s, x) == s
  {
    if s != [] {
      assert x !in s[1..];
      WithoutAbsent(s[1..], x);
    }
  }
}
