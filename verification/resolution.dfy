/**
 * `get_exclude_include_maps`: one filter's hits, walked in ascending start
 * order, are merged into the include map, the exclude map and the per-type
 * PHI map, and every admitted include hit is logged as a non-PHI entry.
 *
 * `Maps` is the value of everything the walk touches: the two maps, the PHI
 * map of the filter's type (`None` when `phi_type_dict` has no such key) and
 * the tracker's non-PHI list. `Resolve` is the walk on values, written over
 * any map type `S` and the three map operations it uses (`Ops`:
 * `does_overlap`, `add_extend` and `remove`), so that its properties are
 * proved once for every such triple; `GetExcludeIncludeMaps` is the same walk
 * over the mutable map objects, with `StoreOps`.
 */
module Resolution {
  import opened Text
  import opened Records
  import opened CoordinateMaps

  datatype Maps<S> = Maps(includeMap: S, excludeMap: S, phi: Option<S>, nonPhi: seq<NonPhiEntry>)

  /** The outcome of the walk; `ok` is false when `phi_type_dict[phi_type]` raised `KeyError`. */
  datatype Outcome<S> = Outcome(maps: Maps<S>, ok: bool)

  /** The map operations the walk uses: `m.does_overlap(start, stop)`, `m.add_extend(start, stop)`, `m.remove(start, stop)`. */
  datatype Ops<!S> = Ops(overlaps: (S, int, int) -> bool, merge: (S, int, int) -> S, remove: (S, int, int) -> S)

  /** `does_overlap(start, stop)` on a store. */
  function OverlapsSpan(st: Store, start: int, stop: int): bool {
    Overlaps(st.stopOf, start, stop)
  }

  /** `add_extend(start, stop)` on a well-formed store (which every map object holds). */
  function MergeSpan(st: Store, start: int, stop: int): (r: Store)
    ensures Wf(st) ==> Wf(r) && r == Extend(st, start, stop, "")
  {
    if Wf(st) then ExtendWf(st, start, stop, ""); Extend(st, start, stop, "") else st
  }

  /** `remove(start, stop)`: takes exactly the key `start` out. */
  function RemoveSpan(st: Store, start: int, stop: int): (r: Store)
    ensures r.stopOf.Keys == st.stopOf.Keys - {start}
    ensures Wf(st) ==> Wf(r)
  {
    if Wf(st) then DeleteWf(st, start, stop); Delete(st, start, stop) else Delete(st, start, stop)
  }

  const StoreOps: Ops<Store> := Ops(OverlapsSpan, MergeSpan, RemoveSpan)

  /** `ops` behaves as the store operations on well-formed stores. */
  ghost predicate Implements(ops: Ops<Store>) {
    && (forall st, start, stop :: ops.overlaps(st, start, stop) == Overlaps(st.stopOf, start, stop))
    && (forall st, start, stop :: Wf(st) ==> ops.merge(st, start, stop) == Extend(st, start, stop, ""))
    && (forall st, start, stop :: ops.remove(st, start, stop) == Delete(st, start, stop))
  }

  lemma StoreOpsImplement()
    ensures Implements(StoreOps)
  {
    forall st, start, stop ensures StoreOps.overlaps(st, start, stop) == Overlaps(st.stopOf, start, stop) {
      assert StoreOps.overlaps(st, start, stop) == OverlapsSpan(st, start, stop);
    }
    forall st, start, stop | Wf(st) ensures StoreOps.merge(st, start, stop) == Extend(st, start, stop, "") {
      assert StoreOps.merge(st, start, stop) == MergeSpan(st, start, stop);
    }
    forall st, start, stop ensures StoreOps.remove(st, start, stop) == Delete(st, start, stop) {
      assert StoreOps.remove(st, start, stop) == RemoveSpan(st, start, stop);
    }
  }

  /** `remove` takes exactly the key `start` out of the key set `keys`. */
  ghost predicate RemovesKey<S(!new)>(ops: Ops<S>, keys: S -> set<int>) {
    forall st, start, stop :: keys(ops.remove(st, start, stop)) == keys(st) - {start}
  }

  lemma RemoveKey<S(!new)>(ops: Ops<S>, keys: S -> set<int>, st: S, start: int, stop: int)
    requires RemovesKey(ops, keys)
    ensures keys(ops.remove(st, start, stop)) == keys(st) - {start}
  {
  }

  /** The keys of a store: the starts of its intervals. */
  function Keys(st: Store): set<int> {
    st.stopOf.Keys
  }

  lemma StoreOpsRemoveKey()
    ensures RemovesKey(StoreOps, Keys)
  {
    forall st, start, stop ensures Keys(StoreOps.remove(st, start, stop)) == Keys(st) - {start} {
      assert StoreOps.remove(st, start, stop) == RemoveSpan(st, start, stop);
    }
  }

  /** Both updates keep a map satisfying `wf`. */
  ghost predicate KeepsWf<S(!new)>(ops: Ops<S>, wf: S -> bool) {
    forall st, start, stop :: wf(st) ==> wf(ops.merge(st, start, stop)) && wf(ops.remove(st, start, stop))
  }

  lemma StoreOpsKeepWf()
    ensures KeepsWf(StoreOps, Wf)
  {
    forall st, start, stop | Wf(st)
      ensures Wf(StoreOps.merge(st, start, stop)) && Wf(StoreOps.remove(st, start, stop))
    {
      assert StoreOps.merge(st, start, stop) == MergeSpan(st, start, stop);
      assert StoreOps.remove(st, start, stop) == RemoveSpan(st, start, stop);
    }
  }

  ghost predicate MapsWf<S>(ms: Maps<S>, wf: S -> bool) {
    wf(ms.includeMap) && wf(ms.excludeMap) && (ms.phi.Some? ==> wf(ms.phi.value))
  }

  /** `pattern.phi_type`, or `"OTHER"` when it is `None` or empty. */
  function PhiTypeOf(f: Filter): (t: string)
    ensures f.phiType.Some? && f.phiType.value != "" ==> t == f.phiType.value
    ensures f.phiType.None? || f.phiType.value == "" ==> t == "OTHER"
  {
    if f.phiType.Some? && f.phiType.value != "" then f.phiType.value else "OTHER"
  }

  /** A context filter's hits bypass the overlap tests. */
  predicate IsContext(f: Filter) {
    f.typ == "regex_context"
  }

  /** The non-PHI record of an admitted span: its text and the filter's title as `filepath`. */
  function NonPhiOf(f: Filter, txt: string, start: int, stop: int): NonPhiEntry {
    NonPhiEntry(start, stop, Slice(txt, start, stop), f.title)
  }

  /**
   * One iteration of the walk, for the span `[start, stop]`:
   * - an exclude hit that touches nothing in the include map is merged into the
   *   exclude map and then into the PHI map of its type (a missing PHI map
   *   raises after the exclude map has changed);
   * - an include hit that touches nothing in the exclude map is merged into the
   *   include map and logged;
   * - a context exclude hit is merged into the exclude map, removed from the
   *   include map and merged into the PHI map, unconditionally;
   * - a context include hit is merged into the include map, removed from the
   *   exclude map and logged, unconditionally.
   */
  function Step<S>(f: Filter, txt: string, ms: Maps<S>, start: int, stop: int, ops: Ops<S>): Outcome<S> {
    if !IsContext(f) then
      if f.exclude then
        if ops.overlaps(ms.includeMap, start, stop) then Outcome(ms, true)
        else
          var ex := ops.merge(ms.excludeMap, start, stop);
          if ms.phi.None? then Outcome(ms.(excludeMap := ex), false)
          else Outcome(ms.(excludeMap := ex, phi := Some(ops.merge(ms.phi.value, start, stop))), true)
      else if ops.overlaps(ms.excludeMap, start, stop) then Outcome(ms, true)
      else
        Outcome(ms.(includeMap := ops.merge(ms.includeMap, start, stop),
                    nonPhi := ms.nonPhi + [NonPhiOf(f, txt, start, stop)]), true)
    else if f.exclude then
      var ex := ops.merge(ms.excludeMap, start, stop);
      var inc := ops.remove(ms.includeMap, start, stop);
      if ms.phi.None? then Outcome(ms.(excludeMap := ex, includeMap := inc), false)
      else Outcome(ms.(excludeMap := ex, includeMap := inc, phi := Some(ops.merge(ms.phi.value, start, stop))), true)
    else
      Outcome(ms.(includeMap := ops.merge(ms.includeMap, start, stop),
                  excludeMap := ops.remove(ms.excludeMap, start, stop),
                  nonPhi := ms.nonPhi + [NonPhiOf(f, txt, start, stop)]), true)
  }

  /** The walk over the first `n` spans; a `KeyError` ends it with the changes made so far. */
  function Resolve<S>(f: Filter, txt: string, coords: seq<(int, int)>, ms: Maps<S>, n: nat, ops: Ops<S>): Outcome<S>
    requires n <= |coords|
  {
    if n == 0 then Outcome(ms, true)
    else
      var prev := Resolve(f, txt, coords, ms, n - 1, ops);
      if !prev.ok then prev else Step(f, txt, prev.maps, coords[n - 1].0, coords[n - 1].1, ops)
  }

  /** After a `KeyError` the walk is over. */
  lemma {:induction false} ResolveStops<S>(f: Filter, txt: string, coords: seq<(int, int)>, ms: Maps<S>, i: nat, n: nat, ops: Ops<S>)
    requires i <= n <= |coords| && !Resolve(f, txt, coords, ms, i, ops).ok
    ensures Resolve(f, txt, coords, ms, n, ops) == Resolve(f, txt, coords, ms, i, ops)
  {
    if n > i {
      ResolveStops(f, txt, coords, ms, i, n - 1, ops);
    }
  }

  /** One more span: the walk so far, then one step. */
  lemma ResolveNext<S>(f: Filter, txt: string, coords: seq<(int, int)>, ms: Maps<S>, n: nat, ops: Ops<S>,
                       cur: Maps<S>, next: Outcome<S>)
    requires n < |coords| && Resolve(f, txt, coords, ms, n, ops) == Outcome(cur, true)
    requires next == Step(f, txt, cur, coords[n].0, coords[n].1, ops)
    ensures Resolve(f, txt, coords, ms, n + 1, ops) == next
  {
  }

  /** One more span of an include filter, field by field. */
  lemma IncludeNext<S>(f: Filter, txt: string, coords: seq<(int, int)>, ms: Maps<S>, n: nat, ops: Ops<S>)
    requires n < |coords| && !IsContext(f) && !f.exclude && Resolve(f, txt, coords, ms, n, ops).ok
    ensures Resolve(f, txt, coords, ms, n + 1, ops).ok
    ensures Resolve(f, txt, coords, ms, n + 1, ops).maps.excludeMap == Resolve(f, txt, coords, ms, n, ops).maps.excludeMap
    ensures Resolve(f, txt, coords, ms, n + 1, ops).maps.phi == Resolve(f, txt, coords, ms, n, ops).maps.phi
    ensures ops.overlaps(Resolve(f, txt, coords, ms, n, ops).maps.excludeMap, coords[n].0, coords[n].1) ==>
      Resolve(f, txt, coords, ms, n + 1, ops).maps.nonPhi == Resolve(f, txt, coords, ms, n, ops).maps.nonPhi
    ensures ops.overlaps(Resolve(f, txt, coords, ms, n, ops).maps.excludeMap, coords[n].0, coords[n].1) ==>
      Resolve(f, txt, coords, ms, n + 1, ops).maps.includeMap == Resolve(f, txt, coords, ms, n, ops).maps.includeMap
    ensures !ops.overlaps(Resolve(f, txt, coords, ms, n, ops).maps.excludeMap, coords[n].0, coords[n].1) ==>
      Resolve(f, txt, coords, ms, n + 1, ops).maps.includeMap
        == ops.merge(Resolve(f, txt, coords, ms, n, ops).maps.includeMap, coords[n].0, coords[n].1)
    ensures !ops.overlaps(Resolve(f, txt, coords, ms, n, ops).maps.excludeMap, coords[n].0, coords[n].1) ==>
      Resolve(f, txt, coords, ms, n + 1, ops).maps.nonPhi
        == Resolve(f, txt, coords, ms, n, ops).maps.nonPhi + [NonPhiOf(f, txt, coords[n].0, coords[n].1)]
  {
  }

  /** One more span of an exclude filter, field by field. */
  lemma ExcludeNext<S>(f: Filter, txt: string, coords: seq<(int, int)>, ms: Maps<S>, n: nat, ops: Ops<S>)
    requires n < |coords| && !IsContext(f) && f.exclude && Resolve(f, txt, coords, ms, n, ops).ok
    ensures Resolve(f, txt, coords, ms, n + 1, ops).maps.includeMap == Resolve(f, txt, coords, ms, n, ops).maps.includeMap
    ensures Resolve(f, txt, coords, ms, n + 1, ops).maps.nonPhi == Resolve(f, txt, coords, ms, n, ops).maps.nonPhi
    ensures ops.overlaps(Resolve(f, txt, coords, ms, n, ops).maps.includeMap, coords[n].0, coords[n].1) ==>
      Resolve(f, txt, coords, ms, n + 1, ops) == Resolve(f, txt, coords, ms, n, ops)
    ensures !ops.overlaps(Resolve(f, txt, coords, ms, n, ops).maps.includeMap, coords[n].0, coords[n].1) ==>
      && Resolve(f, txt, coords, ms, n + 1, ops).maps.excludeMap
           == ops.merge(Resolve(f, txt, coords, ms, n, ops).maps.excludeMap, coords[n].0, coords[n].1)
      && (Resolve(f, txt, coords, ms, n + 1, ops).ok <==> Resolve(f, txt, coords, ms, n, ops).maps.phi.Some?)
      && (Resolve(f, txt, coords, ms, n, ops).maps.phi.None? ==>
            Resolve(f, txt, coords, ms, n + 1, ops).maps.phi.None?)
      && (Resolve(f, txt, coords, ms, n, ops).maps.phi.Some? ==>
            Resolve(f, txt, coords, ms, n + 1, ops).maps.phi
              == Some(ops.merge(Resolve(f, txt, coords, ms, n, ops).maps.phi.value, coords[n].0, coords[n].1)))
  {
  }

  /** One more span of a context include filter, field by field. */
  lemma ContextIncludeNext<S>(f: Filter, txt: string, coords: seq<(int, int)>, ms: Maps<S>, n: nat, ops: Ops<S>)
    requires n < |coords| && IsContext(f) && !f.exclude && Resolve(f, txt, coords, ms, n, ops).ok
    ensures Resolve(f, txt, coords, ms, n + 1, ops).ok
    ensures Resolve(f, txt, coords, ms, n + 1, ops).maps.includeMap
        == ops.merge(Resolve(f, txt, coords, ms, n, ops).maps.includeMap, coords[n].0, coords[n].1)
    ensures Resolve(f, txt, coords, ms, n + 1, ops).maps.excludeMap
        == ops.remove(Resolve(f, txt, coords, ms, n, ops).maps.excludeMap, coords[n].0, coords[n].1)
    ensures Resolve(f, txt, coords, ms, n + 1, ops).maps.phi == Resolve(f, txt, coords, ms, n, ops).maps.phi
    ensures Resolve(f, txt, coords, ms, n + 1, ops).maps.nonPhi
        == Resolve(f, txt, coords, ms, n, ops).maps.nonPhi + [NonPhiOf(f, txt, coords[n].0, coords[n].1)]
  {
  }

  /** One more span of a context exclude filter, field by field. */
  lemma ContextExcludeNext<S>(f: Filter, txt: string, coords: seq<(int, int)>, ms: Maps<S>, n: nat, ops: Ops<S>)
    requires n < |coords| && IsContext(f) && f.exclude && Resolve(f, txt, coords, ms, n, ops).ok
    ensures Resolve(f, txt, coords, ms, n + 1, ops).ok <==> Resolve(f, txt, coords, ms, n, ops).maps.phi.Some?
    ensures Resolve(f, txt, coords, ms, n + 1, ops).maps.excludeMap
        == ops.merge(Resolve(f, txt, coords, ms, n, ops).maps.excludeMap, coords[n].0, coords[n].1)
    ensures Resolve(f, txt, coords, ms, n + 1, ops).maps.includeMap
        == ops.remove(Resolve(f, txt, coords, ms, n, ops).maps.includeMap, coords[n].0, coords[n].1)
    ensures Resolve(f, txt, coords, ms, n + 1, ops).maps.nonPhi == Resolve(f, txt, coords, ms, n, ops).maps.nonPhi
    ensures Resolve(f, txt, coords, ms, n, ops).maps.phi.None? ==>
      Resolve(f, txt, coords, ms, n + 1, ops).maps.phi.None?
    ensures Resolve(f, txt, coords, ms, n, ops).maps.phi.Some? ==>
      Resolve(f, txt, coords, ms, n + 1, ops).maps.phi
        == Some(ops.merge(Resolve(f, txt, coords, ms, n, ops).maps.phi.value, coords[n].0, coords[n].1))
  {
  }

  /** The walk keeps the maps well-formed. */
  lemma {:induction false} ResolveWf<S(!new)>(f: Filter, txt: string, coords: seq<(int, int)>, ms: Maps<S>, n: nat,
                                        ops: Ops<S>, wf: S -> bool)
    requires n <= |coords| && MapsWf(ms, wf) && KeepsWf(ops, wf)
    ensures MapsWf(Resolve(f, txt, coords, ms, n, ops).maps, wf)
  {
    if n > 0 {
      ResolveWf(f, txt, coords, ms, n - 1, ops, wf);
    }
  }

  // ---- properties of the walk ----

  /** An exclude filter never touches the include map or the non-PHI list. */
  lemma {:induction false} ExcludeKeepsInclude<S>(f: Filter, txt: string, coords: seq<(int, int)>, ms: Maps<S>, n: nat, ops: Ops<S>)
    requires n <= |coords| && !IsContext(f) && f.exclude
    ensures Resolve(f, txt, coords, ms, n, ops).maps.includeMap == ms.includeMap
    ensures Resolve(f, txt, coords, ms, n, ops).maps.nonPhi == ms.nonPhi
  {
    if n > 0 {
      ExcludeKeepsInclude(f, txt, coords, ms, n - 1, ops);
    }
  }

  /**
   * An exclude filter changes nothing for spans that touch the include map:
   * when all of them do, the walk is the identity.
   */
  lemma {:induction false} ExcludeYieldsToInclude<S>(f: Filter, txt: string, coords: seq<(int, int)>, ms: Maps<S>, n: nat, ops: Ops<S>)
    requires n <= |coords| && !IsContext(f) && f.exclude
    requires forall i :: 0 <= i < n ==> ops.overlaps(ms.includeMap, coords[i].0, coords[i].1)
    ensures Resolve(f, txt, coords, ms, n, ops) == Outcome(ms, true)
  {
    if n > 0 {
      ExcludeYieldsToInclude(f, txt, coords, ms, n - 1, ops);
    }
  }

  /**
   * An exclude filter raises `KeyError` exactly when its type has no PHI map
   * and some span does not touch the include map.
   */
  lemma {:induction false} ExcludeOk<S>(f: Filter, txt: string, coords: seq<(int, int)>, ms: Maps<S>, n: nat, ops: Ops<S>)
    requires n <= |coords| && !IsContext(f) && f.exclude
    ensures Resolve(f, txt, coords, ms, n, ops).ok
        <==> ms.phi.Some? || forall i :: 0 <= i < n ==> ops.overlaps(ms.includeMap, coords[i].0, coords[i].1)
    ensures Resolve(f, txt, coords, ms, n, ops).maps.phi.Some? == ms.phi.Some?
  {
    if n > 0 {
      ExcludeOk(f, txt, coords, ms, n - 1, ops);
      ExcludeKeepsInclude(f, txt, coords, ms, n - 1, ops);
    }
  }

  /** An include filter never raises and never touches the exclude map or the PHI map. */
  lemma {:induction false} IncludeKeepsExclude<S>(f: Filter, txt: string, coords: seq<(int, int)>, ms: Maps<S>, n: nat, ops: Ops<S>)
    requires n <= |coords| && !IsContext(f) && !f.exclude
    ensures Resolve(f, txt, coords, ms, n, ops).ok
    ensures Resolve(f, txt, coords, ms, n, ops).maps.excludeMap == ms.excludeMap
    ensures Resolve(f, txt, coords, ms, n, ops).maps.phi == ms.phi
  {
    if n > 0 {
      IncludeKeepsExclude(f, txt, coords, ms, n - 1, ops);
      IncludeNext(f, txt, coords, ms, n - 1, ops);
    }
  }

  /**
   * The non-PHI records an include filter adds, in walk order: one for each
   * span that touches nothing in the exclude map `excluded`.
   */
  function Admitted<S>(f: Filter, txt: string, coords: seq<(int, int)>, excluded: S, n: nat, ops: Ops<S>): seq<NonPhiEntry>
    requires n <= |coords|
  {
    if n == 0 then []
    else if ops.overlaps(excluded, coords[n - 1].0, coords[n - 1].1) then Admitted(f, txt, coords, excluded, n - 1, ops)
    else Admitted(f, txt, coords, excluded, n - 1, ops) + [NonPhiOf(f, txt, coords[n - 1].0, coords[n - 1].1)]
  }

  /** Every admitted record is the record of a span that touches nothing excluded. */
  lemma {:induction false} AdmittedSound<S>(f: Filter, txt: string, coords: seq<(int, int)>, excluded: S,
                                            n: nat, ops: Ops<S>, e: NonPhiEntry) returns (i: nat)
    requires n <= |coords| && e in Admitted(f, txt, coords, excluded, n, ops)
    ensures i < n && !ops.overlaps(excluded, coords[i].0, coords[i].1) && e == NonPhiOf(f, txt, coords[i].0, coords[i].1)
  {
    var c := coords[n - 1];
    if e in Admitted(f, txt, coords, excluded, n - 1, ops) {
      i := AdmittedSound(f, txt, coords, excluded, n - 1, ops, e);
    } else {
      assert !ops.overlaps(excluded, c.0, c.1) && e == NonPhiOf(f, txt, c.0, c.1);
      i := n - 1;
    }
  }

  /** The record of every span that touches nothing excluded is admitted. */
  lemma {:induction false} AdmittedComplete<S>(f: Filter, txt: string, coords: seq<(int, int)>, excluded: S,
                                               n: nat, ops: Ops<S>, i: nat)
    requires i < n <= |coords| && !ops.overlaps(excluded, coords[i].0, coords[i].1)
    ensures NonPhiOf(f, txt, coords[i].0, coords[i].1) in Admitted(f, txt, coords, excluded, n, ops)
  {
    var rest := Admitted(f, txt, coords, excluded, n - 1, ops);
    var e := NonPhiOf(f, txt, coords[i].0, coords[i].1);
    var c := coords[n - 1];
    if i < n - 1 {
      AdmittedComplete(f, txt, coords, excluded, n - 1, ops, i);
      if ops.overlaps(excluded, c.0, c.1) {
        assert Admitted(f, txt, coords, excluded, n, ops) == rest;
      } else {
        assert Admitted(f, txt, coords, excluded, n, ops) == rest + [NonPhiOf(f, txt, c.0, c.1)];
        InLeft(e, rest, [NonPhiOf(f, txt, c.0, c.1)]);
      }
    } else {
      assert c == coords[i];
      assert Admitted(f, txt, coords, excluded, n, ops) == rest + [e];
      InRight(e, rest, [e], 0);
    }
  }

  /**
   * An include filter appends to the non-PHI list exactly the admitted
   * records, in order: the exclude map takes precedence.
   */
  lemma {:induction false} IncludeLogsAdmitted<S>(f: Filter, txt: string, coords: seq<(int, int)>, ms: Maps<S>, n: nat, ops: Ops<S>)
    requires n <= |coords| && !IsContext(f) && !f.exclude
    ensures Resolve(f, txt, coords, ms, n, ops).maps.nonPhi == ms.nonPhi + Admitted(f, txt, coords, ms.excludeMap, n, ops)
  {
    if n > 0 {
      IncludeLogsAdmitted(f, txt, coords, ms, n - 1, ops);
      IncludeKeepsExclude(f, txt, coords, ms, n - 1, ops);
      IncludeNext(f, txt, coords, ms, n - 1, ops);
      var c := coords[n - 1];
      if !ops.overlaps(ms.excludeMap, c.0, c.1) {
        AppendAssoc(ms.nonPhi, Admitted(f, txt, coords, ms.excludeMap, n - 1, ops), [NonPhiOf(f, txt, c.0, c.1)]);
      }
    }
  }

  lemma SubtractOneMore(a: set<int>, b: set<int>, x: int)
    ensures (a - b) - {x} == a - (b + {x})
  {
  }

  /** The starts of the first `n` spans: the keys `remove` takes out. */
  function Starts(coords: seq<(int, int)>, n: nat): set<int>
    requires n <= |coords|
  {
    if n == 0 then {} else Starts(coords, n - 1) + {coords[n - 1].0}
  }

  lemma {:induction false} StartsMembers(coords: seq<(int, int)>, n: nat, k: int)
    requires n <= |coords|
    ensures k in Starts(coords, n) <==> exists i :: 0 <= i < n && coords[i].0 == k
  {
    if n > 0 {
      StartsMembers(coords, n - 1, k);
      if coords[n - 1].0 == k {
        assert exists i :: 0 <= i < n && coords[i].0 == k by { assert coords[n - 1].0 == k; }
      } else if exists i :: 0 <= i < n && coords[i].0 == k {
        var i :| 0 <= i < n && coords[i].0 == k;
        assert i < n - 1;
      }
    }
  }

  /**
   * A context exclude filter removes every span's start from the include map,
   * never logs, and raises exactly when its type has no PHI map and there is
   * a span.
   */
  lemma {:induction false} ContextExcludeRemoves<S(!new)>(f: Filter, txt: string, coords: seq<(int, int)>, ms: Maps<S>, n: nat,
                                                    ops: Ops<S>, keys: S -> set<int>)
    requires n <= |coords| && IsContext(f) && f.exclude && RemovesKey(ops, keys)
    ensures Resolve(f, txt, coords, ms, n, ops).ok <==> ms.phi.Some? || n == 0
    ensures Resolve(f, txt, coords, ms, n, ops).ok ==>
      keys(Resolve(f, txt, coords, ms, n, ops).maps.includeMap) == keys(ms.includeMap) - Starts(coords, n)
    ensures Resolve(f, txt, coords, ms, n, ops).maps.nonPhi == ms.nonPhi
  {
    if n > 0 {
      ContextExcludeRemoves(f, txt, coords, ms, n - 1, ops, keys);
      var prev := Resolve(f, txt, coords, ms, n - 1, ops).maps.includeMap;
      RemoveKey(ops, keys, prev, coords[n - 1].0, coords[n - 1].1);
      SubtractOneMore(keys(ms.includeMap), Starts(coords, n - 1), coords[n - 1].0);
      assert Starts(coords, n) == Starts(coords, n - 1) + {coords[n - 1].0};
    } else {
      assert keys(ms.includeMap) - Starts(coords, 0) == keys(ms.includeMap);
    }
  }

  /** A context include filter never raises and never touches the PHI map. */
  lemma {:induction false} ContextIncludeOk<S>(f: Filter, txt: string, coords: seq<(int, int)>, ms: Maps<S>, n: nat, ops: Ops<S>)
    requires n <= |coords| && IsContext(f) && !f.exclude
    ensures Resolve(f, txt, coords, ms, n, ops).ok
    ensures Resolve(f, txt, coords, ms, n, ops).maps.phi == ms.phi
  {
    if n > 0 {
      ContextIncludeOk(f, txt, coords, ms, n - 1, ops);
      ContextIncludeNext(f, txt, coords, ms, n - 1, ops);
    }
  }

  /** A context include filter logs every span, in order. */
  lemma {:induction false} ContextIncludeLogsAll<S>(f: Filter, txt: string, coords: seq<(int, int)>, ms: Maps<S>, n: nat, ops: Ops<S>)
    requires n <= |coords| && IsContext(f) && !f.exclude
    ensures |Resolve(f, txt, coords, ms, n, ops).maps.nonPhi| == |ms.nonPhi| + n
    ensures forall i :: 0 <= i < n ==>
      Resolve(f, txt, coords, ms, n, ops).maps.nonPhi[|ms.nonPhi| + i] == NonPhiOf(f, txt, coords[i].0, coords[i].1)
  {
    if n > 0 {
      ContextIncludeLogsAll(f, txt, coords, ms, n - 1, ops);
      ContextIncludeOk(f, txt, coords, ms, n - 1, ops);
      ContextIncludeNext(f, txt, coords, ms, n - 1, ops);
      var prev := Resolve(f, txt, coords, ms, n - 1, ops).maps.nonPhi;
      var cur := Resolve(f, txt, coords, ms, n, ops).maps.nonPhi;
      forall i | 0 <= i < n
        ensures cur[|ms.nonPhi| + i] == NonPhiOf(f, txt, coords[i].0, coords[i].1)
      {
        if i < n - 1 {
          assert cur[|ms.nonPhi| + i] == prev[|ms.nonPhi| + i];
        }
      }
    }
  }

  /** One more context include span takes its start out of the exclude map's keys. */
  lemma ContextIncludeRemovesNext<S(!new)>(f: Filter, txt: string, coords: seq<(int, int)>, ms: Maps<S>, n: nat,
                                           ops: Ops<S>, keys: S -> set<int>)
    requires 0 < n <= |coords| && IsContext(f) && !f.exclude && RemovesKey(ops, keys)
    requires Resolve(f, txt, coords, ms, n - 1, ops).ok
    requires keys(Resolve(f, txt, coords, ms, n - 1, ops).maps.excludeMap) == keys(ms.excludeMap) - Starts(coords, n - 1)
    ensures keys(Resolve(f, txt, coords, ms, n, ops).maps.excludeMap) == keys(ms.excludeMap) - Starts(coords, n)
  {
    ContextIncludeNext(f, txt, coords, ms, n - 1, ops);
    var prev := Resolve(f, txt, coords, ms, n - 1, ops).maps.excludeMap;
    RemoveKey(ops, keys, prev, coords[n - 1].0, coords[n - 1].1);
    SubtractOneMore(keys(ms.excludeMap), Starts(coords, n - 1), coords[n - 1].0);
  }

  /** A context include walk takes every span start out of the exclude map's keys. */
  lemma {:induction false} ContextIncludeRemoves<S(!new)>(f: Filter, txt: string, coords: seq<(int, int)>, ms: Maps<S>, n: nat,
                                                    ops: Ops<S>, keys: S -> set<int>)
    requires n <= |coords| && IsContext(f) && !f.exclude && RemovesKey(ops, keys)
    ensures keys(Resolve(f, txt, coords, ms, n, ops).maps.excludeMap)
        == keys(ms.excludeMap) - Starts(coords, n)
  {
    if n > 0 {
      ContextIncludeRemoves(f, txt, coords, ms, n - 1, ops, keys);
      ContextIncludeOk(f, txt, coords, ms, n - 1, ops);
      ContextIncludeRemovesNext(f, txt, coords, ms, n, ops, keys);
    } else {
      assert keys(ms.excludeMap) - Starts(coords, 0) == keys(ms.excludeMap);
    }
  }

  // ---- the walk over the map objects ----

  /** The value of the PHI map object, `None` for a missing key. */
  function PhiState(phiMap: CoordinateMap?): Option<Store>
    reads phiMap
  {
    if phiMap == null then None else Some(phiMap.State())
  }

  /** One iteration of the loop of `get_exclude_include_maps`. */
  method ApplySpan(f: Filter, txt: string, start: int, stop: int,
                   includeMap: CoordinateMap, excludeMap: CoordinateMap, phiMap: CoordinateMap?,
                   nonPhi: seq<NonPhiEntry>, ghost ops: Ops<Store>) returns (nonPhi': seq<NonPhiEntry>, ok: bool)
    requires Implements(ops)
    requires includeMap.Valid() && excludeMap.Valid() && (phiMap != null ==> phiMap.Valid())
    requires includeMap != excludeMap && phiMap != includeMap && phiMap != excludeMap
    modifies includeMap, excludeMap, phiMap
    ensures includeMap.Valid() && excludeMap.Valid() && (phiMap != null ==> phiMap.Valid())
    ensures Outcome(Maps(includeMap.State(), excludeMap.State(), PhiState(phiMap), nonPhi'), ok)
      == Step(f, txt, Maps(old(includeMap.State()), old(excludeMap.State()), old(PhiState(phiMap)), nonPhi), start, stop, ops)
  {
    if !IsContext(f) {
      nonPhi', ok := ApplyPlainSpan(f, txt, start, stop, includeMap, excludeMap, phiMap, nonPhi, ops);
    } else {
      nonPhi', ok := ApplyContextSpan(f, txt, start, stop, includeMap, excludeMap, phiMap, nonPhi, ops);
    }
  }

  /** The iteration for a filter other than `regex_context`: the other map decides. */
  method ApplyPlainSpan(f: Filter, txt: string, start: int, stop: int,
                   includeMap: CoordinateMap, excludeMap: CoordinateMap, phiMap: CoordinateMap?,
                   nonPhi: seq<NonPhiEntry>, ghost ops: Ops<Store>) returns (nonPhi': seq<NonPhiEntry>, ok: bool)
    requires Implements(ops) && !IsContext(f)
    requires includeMap.Valid() && excludeMap.Valid() && (phiMap != null ==> phiMap.Valid())
    requires includeMap != excludeMap && phiMap != includeMap && phiMap != excludeMap
    modifies includeMap, excludeMap, phiMap
    ensures includeMap.Valid() && excludeMap.Valid() && (phiMap != null ==> phiMap.Valid())
    ensures Outcome(Maps(includeMap.State(), excludeMap.State(), PhiState(phiMap), nonPhi'), ok)
      == Step(f, txt, Maps(old(includeMap.State()), old(excludeMap.State()), old(PhiState(phiMap)), nonPhi), start, stop, ops)
  {
    nonPhi', ok := nonPhi, true;
    if f.exclude {
      if !Overlaps(includeMap.stopOf, start, stop) {
        var _, _ := excludeMap.AddExtend(start, stop, "");
        if phiMap == null {
          return nonPhi', false;
        }
        var _, _ := phiMap.AddExtend(start, stop, "");
      }
    } else {
      if !Overlaps(excludeMap.stopOf, start, stop) {
        var _, _ := includeMap.AddExtend(start, stop, "");
        nonPhi' := nonPhi' + [NonPhiEntry(start, stop, Slice(txt, start, stop), f.title)];
      }
    }
  }

  /** The iteration for a `regex_context` filter: the span moves from one map to the other. */
  method ApplyContextSpan(f: Filter, txt: string, start: int, stop: int,
                   includeMap: CoordinateMap, excludeMap: CoordinateMap, phiMap: CoordinateMap?,
                   nonPhi: seq<NonPhiEntry>, ghost ops: Ops<Store>) returns (nonPhi': seq<NonPhiEntry>, ok: bool)
    requires Implements(ops) && IsContext(f)
    requires includeMap.Valid() && excludeMap.Valid() && (phiMap != null ==> phiMap.Valid())
    requires includeMap != excludeMap && phiMap != includeMap && phiMap != excludeMap
    modifies includeMap, excludeMap, phiMap
    ensures includeMap.Valid() && excludeMap.Valid() && (phiMap != null ==> phiMap.Valid())
    ensures Outcome(Maps(includeMap.State(), excludeMap.State(), PhiState(phiMap), nonPhi'), ok)
      == Step(f, txt, Maps(old(includeMap.State()), old(excludeMap.State()), old(PhiState(phiMap)), nonPhi), start, stop, ops)
  {
    nonPhi', ok := nonPhi, true;
    if f.exclude {
      var _, _ := excludeMap.AddExtend(start, stop, "");
      var _, _ := includeMap.Remove(start, stop);
      if phiMap == null {
        return nonPhi', false;
      }
      var _, _ := phiMap.AddExtend(start, stop, "");
    } else {
      var _, _ := includeMap.AddExtend(start, stop, "");
      var _, _ := excludeMap.Remove(start, stop);
      nonPhi' := nonPhi' + [NonPhiEntry(start, stop, Slice(txt, start, stop), f.title)];
    }
  }

  /** The loop of `get_exclude_include_maps` over the spans `coords`, with the PHI map already looked up. */
  method Walk(f: Filter, txt: string, coords: seq<(int, int)>,
              includeMap: CoordinateMap, excludeMap: CoordinateMap, phiMap: CoordinateMap?,
              nonPhi0: seq<NonPhiEntry>) returns (nonPhi: seq<NonPhiEntry>, ok: bool)
    requires includeMap.Valid() && excludeMap.Valid() && (phiMap != null ==> phiMap.Valid())
    requires includeMap != excludeMap && phiMap != includeMap && phiMap != excludeMap
    modifies includeMap, excludeMap, phiMap
    ensures includeMap.Valid() && excludeMap.Valid() && (phiMap != null ==> phiMap.Valid())
    ensures Outcome(Maps(includeMap.State(), excludeMap.State(), PhiState(phiMap), nonPhi), ok)
      == Resolve(f, txt, coords, Maps(old(includeMap.State()), old(excludeMap.State()), old(PhiState(phiMap)), nonPhi0),
                 |coords|, StoreOps)
  {
    StoreOpsImplement();
    ghost var ms0 := Maps(includeMap.State(), excludeMap.State(), PhiState(phiMap), nonPhi0);
    nonPhi := nonPhi0;
    var i := 0;
    while i < |coords|
      invariant 0 <= i <= |coords|
      invariant includeMap.Valid() && excludeMap.Valid() && (phiMap != null ==> phiMap.Valid())
      invariant Resolve(f, txt, coords, ms0, i, StoreOps).ok
      invariant Resolve(f, txt, coords, ms0, i, StoreOps).maps == Maps(includeMap.State(), excludeMap.State(), PhiState(phiMap), nonPhi)
    {
      ghost var before := Maps(includeMap.State(), excludeMap.State(), PhiState(phiMap), nonPhi);
      var stepOk;
      nonPhi, stepOk := ApplySpan(f, txt, coords[i].0, coords[i].1, includeMap, excludeMap, phiMap, nonPhi, StoreOps);
      ResolveNext(f, txt, coords, ms0, i, StoreOps, before,
                  Outcome(Maps(includeMap.State(), excludeMap.State(), PhiState(phiMap), nonPhi), stepOk));
      i := i + 1;
      if !stepOk {
        ResolveStops(f, txt, coords, ms0, i, |coords|, StoreOps);
        return nonPhi, false;
      }
    }
    ok := true;
  }

  /**
   * `get_exclude_include_maps(pattern, txt, coord_map, include_map,
   * exclude_map, phi_type_dict, data_tracker)`: walks `coord_map.filecoords()`
   * and updates the maps in place; the tracker comes back with its non-PHI
   * list extended. `ok` is false when `phi_type_dict[phi_type]` raised.
   */
  method GetExcludeIncludeMaps(f: Filter, txt: string, coordMap: CoordinateMap,
                               includeMap: CoordinateMap, excludeMap: CoordinateMap,
                               phiTypeDict: map<string, CoordinateMap>, tracker: DataTracker)
    returns (tracker': DataTracker, ok: bool)
    requires coordMap.Valid() && includeMap.Valid() && excludeMap.Valid()
    requires PhiTypeOf(f) in phiTypeDict ==> phiTypeDict[PhiTypeOf(f)].Valid()
    requires includeMap != excludeMap && coordMap != includeMap && coordMap != excludeMap
    requires PhiTypeOf(f) in phiTypeDict ==>
      phiTypeDict[PhiTypeOf(f)] !in {includeMap, excludeMap, coordMap}
    modifies includeMap, excludeMap, if PhiTypeOf(f) in phiTypeDict then {phiTypeDict[PhiTypeOf(f)]} else {}
    ensures includeMap.Valid() && excludeMap.Valid()
    ensures tracker'.text == tracker.text && tracker'.phi == tracker.phi
    ensures Outcome(Maps(includeMap.State(), excludeMap.State(),
                         PhiState(if PhiTypeOf(f) in phiTypeDict then phiTypeDict[PhiTypeOf(f)] else null),
                         tracker'.nonPhi), ok)
      == Resolve(f, txt, FileCoords(old(coordMap.State())),
                 Maps(old(includeMap.State()), old(excludeMap.State()),
                      old(PhiState(if PhiTypeOf(f) in phiTypeDict then phiTypeDict[PhiTypeOf(f)] else null)),
                      tracker.nonPhi),
                 |FileCoords(old(coordMap.State()))|, StoreOps)
  {
    var phiType := PhiTypeOf(f);
    var phiMap: CoordinateMap? := if phiType in phiTypeDict then phiTypeDict[phiType] else null;
    var nonPhi;
    nonPhi, ok := Walk(f, txt, FileCoords(coordMap.State()), includeMap, excludeMap, phiMap, tracker.nonPhi);
    tracker' := tracker.(nonPhi := nonPhi);
  }
}
