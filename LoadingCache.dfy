/** Model of `utils::loading_cache` (utils/loading_cache.hh): a cache of
    loaded values kept in two LRU lists, the "unprivileged" section that new
    entries enter and the "privileged" section that entries touched more than
    `SectionHitThreshold` times move to. The cache keeps the total size of its
    entries (by `EntrySize`) in `_current_size`, evicts from the back of the
    unprivileged list first when it is full, and drops entries that were not
    read (or, with reload enabled, not loaded) within the expiry period. */
module LoadingCache {
  import opened Util

  /** A cached value with its LRU anchor (`timestamped_val` plus its
      `lru_entry`): key, value, size by `EntrySize`, load and last-read
      times, and the number of times it was touched. */
  datatype Entry<K, V> = Entry(key: K, value: V, size: nat, loaded: int, lastRead: int, touchCount: nat)

  /** The two intrusive lists; the front of each is its most recently used entry. */
  datatype Sections<K, V> = Sections(unprivileged: seq<Entry<K, V>>, privileged: seq<Entry<K, V>>)

  // ----- list vocabulary -------------------------------------------------

  /** Sum of the entry sizes of a list. */
  function Footprint<K(==), V(==)>(s: seq<Entry<K, V>>): nat
  {
    if s == [] then 0 else s[0].size + Footprint(s[1..])
  }

  function Keys<K(==), V(==)>(s: seq<Entry<K, V>>): set<K>
  {
    if s == [] then {} else {s[0].key} + Keys(s[1..])
  }

  predicate DistinctKeys<K(==), V(==)>(s: seq<Entry<K, V>>)
  {
    s == [] || (s[0].key !in Keys(s[1..]) && DistinctKeys(s[1..]))
  }

  /** The entry a key maps to in a list, if any. */
  function Lookup<K(==), V(==)>(s: seq<Entry<K, V>>, k: K): (r: Option<Entry<K, V>>)
    ensures r.Some? <==> k in Keys(s)
    ensures r.Some? ==> r.value.key == k && r.value in s
  {
    if s == [] then None
    else if s[0].key == k then Some(s[0])
    else Lookup(s[1..], k)
  }

  /** The list with the entry of `k` unlinked (`erase(iterator_to(entry))`). */
  function RemoveKey<K(==), V(==)>(s: seq<Entry<K, V>>, k: K): seq<Entry<K, V>>
  {
    if s == [] then []
    else if s[0].key == k then s[1..]
    else [s[0]] + RemoveKey(s[1..], k)
  }

  /** The entries of a list that `keep` accepts, in order (`remove_and_dispose_if`
      with the negated condition). */
  function KeepIf<K(==), V(==)>(s: seq<Entry<K, V>>, keep: Entry<K, V> -> bool): seq<Entry<K, V>>
  {
    if s == [] then []
    else if keep(s[0]) then [s[0]] + KeepIf(s[1..], keep)
    else KeepIf(s[1..], keep)
  }

  /** The list with the value of `k` replaced in place (`timestamped_val::operator=`). */
  function Reassign<K(==), V(==)>(s: seq<Entry<K, V>>, k: K, v: V, size: nat, now: int): seq<Entry<K, V>>
  {
    if s == [] then []
    else if s[0].key == k then [s[0].(value := v, size := size, loaded := now)] + s[1..]
    else [s[0]] + Reassign(s[1..], k, v, size, now)
  }

  lemma {:induction false} ConsFacts<K, V>(t: Entry<K, V>, s: seq<Entry<K, V>>)
    ensures Keys([t] + s) == {t.key} + Keys(s)
    ensures Footprint([t] + s) == t.size + Footprint(s)
    ensures DistinctKeys([t] + s) <==> t.key !in Keys(s) && DistinctKeys(s)
  {
    assert ([t] + s)[1..] == s;
  }

  lemma {:induction false} DropLastFacts<K, V>(s: seq<Entry<K, V>>)
    requires s != []
    ensures Footprint(s) == Footprint(s[..|s| - 1]) + s[|s| - 1].size
    ensures Keys(s[..|s| - 1]) <= Keys(s)
    ensures DistinctKeys(s) ==> DistinctKeys(s[..|s| - 1])
    ensures forall e :: e in s[..|s| - 1] ==> e in s
    decreases |s|
  {
    if |s| > 1 {
      var init := s[..|s| - 1];
      DropLastFacts(s[1..]);
      assert s[1..][..|s[1..]| - 1] == init[1..];
      assert init[0] == s[0];
    }
  }

  lemma {:induction false} RemoveKeyFacts<K, V>(s: seq<Entry<K, V>>, k: K)
    ensures k !in Keys(s) ==> RemoveKey(s, k) == s
    ensures k in Keys(s) ==> Footprint(RemoveKey(s, k)) + Lookup(s, k).value.size == Footprint(s)
    ensures Keys(RemoveKey(s, k)) <= Keys(s)
    ensures DistinctKeys(s) ==> Keys(RemoveKey(s, k)) == Keys(s) - {k} && DistinctKeys(RemoveKey(s, k))
    ensures forall e :: e in RemoveKey(s, k) ==> e in s
    decreases |s|
  {
    if s != [] && s[0].key != k {
      RemoveKeyFacts(s[1..], k);
      ConsFacts(s[0], RemoveKey(s[1..], k));
    }
  }

  lemma {:induction false} KeepIfFacts<K, V>(s: seq<Entry<K, V>>, keep: Entry<K, V> -> bool)
    ensures forall e :: e in KeepIf(s, keep) <==> e in s && keep(e)
    ensures Keys(KeepIf(s, keep)) <= Keys(s)
    ensures DistinctKeys(s) ==> DistinctKeys(KeepIf(s, keep))
    decreases |s|
  {
    if s != [] {
      KeepIfFacts(s[1..], keep);
      if keep(s[0]) {
        ConsFacts(s[0], KeepIf(s[1..], keep));
      }
    }
  }

  lemma {:induction false} ReassignFacts<K, V>(s: seq<Entry<K, V>>, k: K, v: V, size: nat, now: int)
    ensures |Reassign(s, k, v, size, now)| == |s|
    ensures forall j :: 0 <= j < |s| ==> Reassign(s, k, v, size, now)[j].key == s[j].key
    ensures Keys(Reassign(s, k, v, size, now)) == Keys(s)
    ensures DistinctKeys(s) ==> DistinctKeys(Reassign(s, k, v, size, now))
    ensures k !in Keys(s) ==> Reassign(s, k, v, size, now) == s
    ensures k in Keys(s) ==>
      var old_ := Lookup(s, k).value;
      Footprint(Reassign(s, k, v, size, now)) + old_.size == Footprint(s) + size &&
      Lookup(Reassign(s, k, v, size, now), k) == Some(old_.(value := v, size := size, loaded := now))
    decreases |s|
  {
    if s != [] {
      var r := Reassign(s, k, v, size, now);
      if s[0].key == k {
        ConsFacts(s[0].(value := v, size := size, loaded := now), s[1..]);
        assert r[1..] == s[1..];
      } else {
        ReassignFacts(s[1..], k, v, size, now);
        ConsFacts(s[0], Reassign(s[1..], k, v, size, now));
        assert r[1..] == Reassign(s[1..], k, v, size, now);
      }
    }
  }

  /** Reassigning a value leaves every touch count where it was. */
  lemma {:induction false} ReassignCounts<K, V>(s: seq<Entry<K, V>>, k: K, v: V, size: nat, now: int, threshold: nat)
    ensures UnprivilegedCounts(s, threshold) ==> UnprivilegedCounts(Reassign(s, k, v, size, now), threshold)
    ensures PrivilegedCounts(s, threshold) ==> PrivilegedCounts(Reassign(s, k, v, size, now), threshold)
    decreases |s|
  {
    if s != [] {
      ReassignCounts(s[1..], k, v, size, now, threshold);
      var r := Reassign(s, k, v, size, now);
      forall e | e in r ensures e == r[0] || e in Reassign(s[1..], k, v, size, now) || e in s[1..] {
        if s[0].key == k {
          assert r == [r[0]] + s[1..];
        } else {
          assert r == [r[0]] + Reassign(s[1..], k, v, size, now);
        }
      }
      assert r[0].touchCount == s[0].touchCount;
    }
  }

  lemma {:induction false} DistinctCount<K, V>(s: seq<Entry<K, V>>)
    requires DistinctKeys(s)
    ensures |Keys(s)| == |s|
    decreases |s|
  {
    if s != [] {
      DistinctCount(s[1..]);
    }
  }

  // ----- sections and touch counts ---------------------------------------

  /** `container_list`: the privileged list holds the entries touched more
      than `threshold` times. */
  predicate InPrivileged<K(==), V(==)>(e: Entry<K, V>, threshold: nat)
  {
    e.touchCount > threshold
  }

  /** Every unprivileged entry was touched between once and `threshold` times. */
  predicate UnprivilegedCounts<K(==), V(==)>(s: seq<Entry<K, V>>, threshold: nat)
  {
    forall e :: e in s ==> 0 < e.touchCount <= threshold
  }

  /** Every privileged entry carries the capped count `threshold + 1`. */
  predicate PrivilegedCounts<K(==), V(==)>(s: seq<Entry<K, V>>, threshold: nat)
  {
    forall e :: e in s ==> e.touchCount == threshold + 1
  }

  /** The entry after `touch_lru_entry_2_sections` bumped its count: one more
      touch below the threshold, bumped once more on reaching it, and never
      beyond. */
  function Touched<K(==), V(==)>(e: Entry<K, V>, threshold: nat): (t: Entry<K, V>)
    ensures t.key == e.key && t.value == e.value && t.size == e.size
    ensures t.loaded == e.loaded && t.lastRead == e.lastRead
    ensures e.touchCount <= threshold + 1 ==> 0 < t.touchCount <= threshold + 1
    // pushed to the unprivileged list iff `container_list` then names it
    ensures e.touchCount < threshold <==> !InPrivileged(t, threshold)
  {
    e.(touchCount := if e.touchCount <= threshold then e.touchCount + 1 else e.touchCount)
  }

  /** The touch count of an entry touched `n` times since it was created. */
  function CountAfter(n: nat, threshold: nat): nat
  {
    if n == 0 then 0
    else
      var c := CountAfter(n - 1, threshold);
      if c <= threshold then c + 1 else c
  }

  /** An entry stays unprivileged until it has been touched more than
      `threshold` times, then stays privileged with its count capped. */
  lemma {:induction false} CountAfterCapped(n: nat, threshold: nat)
    ensures CountAfter(n, threshold) == if n <= threshold + 1 then n else threshold + 1
    ensures InPrivileged(Entry(0, 0, 0, 0, 0, CountAfter(n, threshold)), threshold) <==> n > threshold
  {
    if n > 0 {
      CountAfterCapped(n - 1, threshold);
    }
  }

  // ----- the cache invariant on values -----------------------------------

  /** `_current_size` is the total size of the linked entries; each key is
      linked in exactly one list, once; the counts match the sections. */
  predicate Inv<K(==), V(==)>(u: seq<Entry<K, V>>, p: seq<Entry<K, V>>, currentSize: int, threshold: nat)
  {
    currentSize == Footprint(u) + Footprint(p)
    && DistinctKeys(u) && DistinctKeys(p) && Keys(u) !! Keys(p)
    && UnprivilegedCounts(u, threshold) && PrivilegedCounts(p, threshold)
  }

  /** The entry of a cached key, looked up in the list that holds it. */
  function Find<K(==), V(==)>(u: seq<Entry<K, V>>, p: seq<Entry<K, V>>, k: K): (r: Option<Entry<K, V>>)
    ensures r.Some? <==> k in Keys(u) + Keys(p)
    ensures r.Some? ==> r.value.key == k
  {
    if k in Keys(u) then Lookup(u, k) else Lookup(p, k)
  }

  /** The list `container_list` picks for a linked entry is the one holding it. */
  lemma ContainerHoldsEntry<K, V>(u: seq<Entry<K, V>>, p: seq<Entry<K, V>>, c: int, threshold: nat, k: K)
    requires Inv(u, p, c, threshold) && k in Keys(u) + Keys(p)
    ensures InPrivileged(Find(u, p, k).value, threshold) <==> k in Keys(p)
  {
  }

  /** Unlinking a cached entry (and subtracting its size) keeps the invariant. */
  lemma UnlinkInv<K, V>(u: seq<Entry<K, V>>, p: seq<Entry<K, V>>, c: int, threshold: nat, k: K)
    requires Inv(u, p, c, threshold) && k in Keys(u) + Keys(p)
    ensures Inv(RemoveKey(u, k), RemoveKey(p, k), c - Find(u, p, k).value.size, threshold)
    ensures Keys(RemoveKey(u, k)) + Keys(RemoveKey(p, k)) == Keys(u) + Keys(p) - {k}
  {
    RemoveKeyFacts(u, k);
    RemoveKeyFacts(p, k);
  }

  /** Pushing a touched entry on the front of the list its count selects (and
      adding its size) keeps the invariant. */
  lemma LinkInv<K, V>(u: seq<Entry<K, V>>, p: seq<Entry<K, V>>, c: int, threshold: nat, t: Entry<K, V>)
    requires Inv(u, p, c, threshold) && t.key !in Keys(u) + Keys(p)
    requires 0 < t.touchCount <= threshold + 1
    ensures InPrivileged(t, threshold) ==> Inv(u, [t] + p, c + t.size, threshold)
    ensures !InPrivileged(t, threshold) ==> Inv([t] + u, p, c + t.size, threshold)
  {
    ConsFacts(t, u);
    ConsFacts(t, p);
  }

  /** The entry `touch_lru_entry_2_sections` moves after stamping its read time. */
  function TouchedAt<K(==), V(==)>(u: seq<Entry<K, V>>, p: seq<Entry<K, V>>, k: K, now: int, threshold: nat): Entry<K, V>
    requires k in Keys(u) + Keys(p)
  {
    Touched(Find(u, p, k).value.(lastRead := now), threshold)
  }

  /** `touch_lru_entry_2_sections` unlinks a linked entry from the list
      `container_list` names, which is the list holding it, and pushes it on
      the unprivileged list exactly when the touched count keeps it there. */
  lemma TouchShape<K, V>(u: seq<Entry<K, V>>, p: seq<Entry<K, V>>, c: int, threshold: nat, k: K, now: int)
    requires Inv(u, p, c, threshold) && k in Keys(u) + Keys(p)
    ensures var e := Find(u, p, k).value;
      (InPrivileged(e, threshold) ==> RemoveKey(u, k) == u) &&
      (!InPrivileged(e, threshold) ==> RemoveKey(p, k) == p) &&
      (e.touchCount < threshold <==> !InPrivileged(TouchedAt(u, p, k, now, threshold), threshold))
  {
    ContainerHoldsEntry(u, p, c, threshold, k);
    RemoveKeyFacts(u, k);
    RemoveKeyFacts(p, k);
  }

  /** A touch that leaves the entry at the front of the privileged list keeps
      the invariant, the cached keys and the footprint. */
  lemma TouchToPrivileged<K, V>(u: seq<Entry<K, V>>, p: seq<Entry<K, V>>, c: int, threshold: nat, k: K, now: int)
    requires Inv(u, p, c, threshold) && k in Keys(u) + Keys(p)
    requires InPrivileged(TouchedAt(u, p, k, now, threshold), threshold)
    ensures var t, u1, p1 := TouchedAt(u, p, k, now, threshold), RemoveKey(u, k), RemoveKey(p, k);
      Inv(u1, [t] + p1, c, threshold) && Find(u1, [t] + p1, k) == Some(t) &&
      Keys(u1) + Keys([t] + p1) == Keys(u) + Keys(p)
  {
    var e := Find(u, p, k).value;
    var t, u1, p1 := TouchedAt(u, p, k, now, threshold), RemoveKey(u, k), RemoveKey(p, k);
    UnlinkInv(u, p, c, threshold, k);
    LinkInv(u1, p1, c - e.size, threshold, t);
    ConsFacts(t, p1);
    assert ([t] + p1)[0] == t;
  }

  /** A touch that leaves the entry at the front of the unprivileged list
      keeps the invariant, the cached keys and the footprint. */
  lemma TouchToUnprivileged<K, V>(u: seq<Entry<K, V>>, p: seq<Entry<K, V>>, c: int, threshold: nat, k: K, now: int)
    requires Inv(u, p, c, threshold) && k in Keys(u) + Keys(p)
    requires !InPrivileged(TouchedAt(u, p, k, now, threshold), threshold)
    ensures var t, u1, p1 := TouchedAt(u, p, k, now, threshold), RemoveKey(u, k), RemoveKey(p, k);
      Inv([t] + u1, p1, c, threshold) && Find([t] + u1, p1, k) == Some(t) &&
      Keys([t] + u1) + Keys(p1) == Keys(u) + Keys(p)
  {
    var e := Find(u, p, k).value;
    var t, u1, p1 := TouchedAt(u, p, k, now, threshold), RemoveKey(u, k), RemoveKey(p, k);
    UnlinkInv(u, p, c, threshold, k);
    LinkInv(u1, p1, c - e.size, threshold, t);
    ConsFacts(t, u1);
    assert ([t] + u1)[0] == t;
  }

  lemma DropLastInv<K, V>(u: seq<Entry<K, V>>, p: seq<Entry<K, V>>, c: int, threshold: nat)
    requires Inv(u, p, c, threshold)
    ensures u != [] ==> Inv(u[..|u| - 1], p, c - u[|u| - 1].size, threshold)
    ensures p != [] ==> Inv(u, p[..|p| - 1], c - p[|p| - 1].size, threshold)
  {
    if u != [] {
      DropLastFacts(u);
    }
    if p != [] {
      DropLastFacts(p);
    }
  }

  lemma KeepIfInv<K, V>(u: seq<Entry<K, V>>, p: seq<Entry<K, V>>, c: int, threshold: nat, keep: Entry<K, V> -> bool)
    requires Inv(u, p, c, threshold)
    ensures Inv(KeepIf(u, keep), KeepIf(p, keep), Footprint(KeepIf(u, keep)) + Footprint(KeepIf(p, keep)), threshold)
  {
    KeepIfFacts(u, keep);
    KeepIfFacts(p, keep);
    var ku, kp := KeepIf(u, keep), KeepIf(p, keep);
    assert Keys(ku) !! Keys(kp);
    assert UnprivilegedCounts(ku, threshold) by {
      forall e | e in ku ensures 0 < e.touchCount <= threshold {
        assert e in u;
      }
    }
    assert PrivilegedCounts(kp, threshold) by {
      forall e | e in kp ensures e.touchCount == threshold + 1 {
        assert e in p;
      }
    }
  }

  lemma ReassignInv<K, V>(u: seq<Entry<K, V>>, p: seq<Entry<K, V>>, c: int, threshold: nat, k: K, v: V, size: nat, now: int)
    requires Inv(u, p, c, threshold) && k in Keys(u) + Keys(p)
    ensures Inv(Reassign(u, k, v, size, now), Reassign(p, k, v, size, now),
                c - Find(u, p, k).value.size + size, threshold)
    ensures Find(Reassign(u, k, v, size, now), Reassign(p, k, v, size, now), k) ==
            Some(Find(u, p, k).value.(value := v, size := size, loaded := now))
    ensures Find(u, p, k).value.size <= c
  {
    ReassignCounts(u, k, v, size, now, threshold);
    ReassignCounts(p, k, v, size, now, threshold);
    if k in Keys(u) {
      ReassignSide(u, p, k, v, size, now);
    } else {
      ReassignSide(p, u, k, v, size, now);
    }
  }

  /** Reassigning a key held by `s` and not by `other`: the keys stay
      disjoint and distinct, `other` is unchanged, and the footprint moves by
      the difference of the sizes. */
  lemma ReassignSide<K, V>(s: seq<Entry<K, V>>, other: seq<Entry<K, V>>, k: K, v: V, size: nat, now: int)
    requires DistinctKeys(s) && DistinctKeys(other) && Keys(s) !! Keys(other) && k in Keys(s)
    ensures var r := Reassign(s, k, v, size, now);
      Keys(r) !! Keys(other) && DistinctKeys(r) && Reassign(other, k, v, size, now) == other &&
      Footprint(r) + Lookup(s, k).value.size == Footprint(s) + size &&
      Lookup(r, k) == Some(Lookup(s, k).value.(value := v, size := size, loaded := now)) &&
      Lookup(s, k).value.size <= Footprint(s)
  {
    ReassignFacts(s, k, v, size, now);
    ReassignFacts(other, k, v, size, now);
    LookupWithinFootprint(s, k);
  }

  /** A linked entry is no larger than the footprint of its list. */
  lemma {:induction false} LookupWithinFootprint<K, V>(s: seq<Entry<K, V>>, k: K)
    requires k in Keys(s)
    ensures Lookup(s, k).value.size <= Footprint(s)
    decreases |s|
  {
    if s[0].key != k {
      LookupWithinFootprint(s[1..], k);
    }
  }

  /** Reassigning keeps both lists' lengths and keys, and changes nothing
      when the key is in neither. */
  lemma ReassignShape<K, V>(u: seq<Entry<K, V>>, p: seq<Entry<K, V>>, k: K, v: V, size: nat, now: int)
    ensures |Reassign(u, k, v, size, now)| == |u| && |Reassign(p, k, v, size, now)| == |p|
    ensures Keys(Reassign(u, k, v, size, now)) + Keys(Reassign(p, k, v, size, now)) == Keys(u) + Keys(p)
    ensures k !in Keys(u) + Keys(p) ==> Reassign(u, k, v, size, now) == u && Reassign(p, k, v, size, now) == p
  {
    ReassignFacts(u, k, v, size, now);
    ReassignFacts(p, k, v, size, now);
  }

  // ----- shrink ----------------------------------------------------------

  /** The lists `shrink()` leaves when it evicts while the footprint is at
      least `limit`: the back of the unprivileged list first, the back of the
      privileged list only once the unprivileged one is empty. */
  function ShrinkSections<K(==), V(==)>(u: seq<Entry<K, V>>, p: seq<Entry<K, V>>, limit: int): Sections<K, V>
    decreases |u| + |p|
  {
    if Footprint(u) + Footprint(p) < limit then Sections(u, p)
    else if u != [] then ShrinkSections(u[..|u| - 1], p, limit)
    else if p != [] then ShrinkSections(u, p[..|p| - 1], limit)
    else Sections(u, p)
  }

  lemma ShrinkStep<K, V>(u: seq<Entry<K, V>>, p: seq<Entry<K, V>>, limit: int)
    requires Footprint(u) + Footprint(p) >= limit
    ensures u != [] ==> ShrinkSections(u, p, limit) == ShrinkSections(u[..|u| - 1], p, limit)
    ensures u == [] && p != [] ==> ShrinkSections(u, p, limit) == ShrinkSections(u, p[..|p| - 1], limit)
  {
  }

  function Total<K(==), V(==)>(s: Sections<K, V>): nat
  {
    Footprint(s.unprivileged) + Footprint(s.privileged)
  }

  /** Shrinking keeps a prefix (the most recently used part) of each list and
      touches the privileged list only after emptying the unprivileged one. */
  lemma {:induction false} ShrinkKeepsPrefixes<K, V>(u: seq<Entry<K, V>>, p: seq<Entry<K, V>>, limit: int)
    ensures var r := ShrinkSections(u, p, limit);
      |r.unprivileged| <= |u| && r.unprivileged == u[..|r.unprivileged|] &&
      |r.privileged| <= |p| && r.privileged == p[..|r.privileged|] &&
      (|r.privileged| < |p| ==> r.unprivileged == [])
    ensures Footprint(u) + Footprint(p) < limit ==> ShrinkSections(u, p, limit) == Sections(u, p)
    decreases |u| + |p|
  {
    if Footprint(u) + Footprint(p) >= limit {
      if u != [] {
        ShrinkKeepsPrefixes(u[..|u| - 1], p, limit);
      } else if p != [] {
        ShrinkKeepsPrefixes(u, p[..|p| - 1], limit);
      }
    }
  }

  /** With a positive limit the footprint ends below it. */
  lemma {:induction false} ShrinkBelowLimit<K, V>(u: seq<Entry<K, V>>, p: seq<Entry<K, V>>, limit: int)
    requires limit > 0
    ensures Total(ShrinkSections(u, p, limit)) < limit
    decreases |u| + |p|
  {
    if Footprint(u) + Footprint(p) >= limit {
      if u != [] {
        DropLastFacts(u);
        ShrinkBelowLimit(u[..|u| - 1], p, limit);
      } else if p != [] {
        DropLastFacts(p);
        ShrinkBelowLimit(u, p[..|p| - 1], limit);
      }
    }
  }

  /** Shrinking evicts no entry it did not need to: had the last evicted entry
      stayed, the footprint would still have been at least `limit`. */
  lemma {:induction false} ShrinkEvictsNoMoreThanNeeded<K, V>(u: seq<Entry<K, V>>, p: seq<Entry<K, V>>, limit: int)
    ensures var r := ShrinkSections(u, p, limit);
      (|r.unprivileged| < |u| && r.privileged == p ==> Total(r) + u[|r.unprivileged|].size >= limit) &&
      (|r.privileged| < |p| ==> Total(r) + p[|r.privileged|].size >= limit)
    decreases |u| + |p|
  {
    var r := ShrinkSections(u, p, limit);
    if Footprint(u) + Footprint(p) >= limit {
      if u != [] {
        var init := u[..|u| - 1];
        DropLastFacts(u);
        ShrinkEvictsNoMoreThanNeeded(init, p, limit);
        ShrinkKeepsPrefixes(init, p, limit);
        if |r.unprivileged| == |init| && r.privileged == p {
          assert r.unprivileged == init;
        }
        if |r.unprivileged| < |init| {
          assert u[|r.unprivileged|] == init[|r.unprivileged|];
        }
      } else if p != [] {
        var init := p[..|p| - 1];
        DropLastFacts(p);
        ShrinkEvictsNoMoreThanNeeded(u, init, limit);
        ShrinkKeepsPrefixes(u, init, limit);
        if |r.privileged| == |init| {
          assert r.privileged == init;
        } else if |r.privileged| < |init| {
          assert p[|r.privileged|] == init[|r.privileged|];
        }
      }
    }
  }

  // ----- the footprint after a load --------------------------------------

  /** The footprint right after `get_ptr` links a new entry of `size`, as
      written: `shrink()` evicts until the footprint is below `maxSize`
      without counting the new entry, so the result stays below
      `maxSize + size` but not below `maxSize`. */
  function LoadFootprintAsWritten<K(==), V(==)>(u: seq<Entry<K, V>>, p: seq<Entry<K, V>>, maxSize: nat, size: nat): (r: nat)
    ensures maxSize > 0 ==> r < maxSize + size
  {
    if maxSize > 0 then
      ShrinkBelowLimit(u, p, maxSize);
      Total(ShrinkSections(u, p, maxSize)) + size
    else
      Total(ShrinkSections(u, p, maxSize)) + size
  }

  /** One cached entry of size 9, `max_size` 10, a new value of size 10:
      `shrink()` evicts nothing and the footprint becomes 19. */
  lemma LoadCanExceedMaxSize<K, V>(k: K, v: V)
    ensures var e := Entry(k, v, 9, 0, 0, 1);
      LoadFootprintAsWritten([], [e], 10, 10) == 19 > 10
  {
    var e := Entry(k, v, 9, 0, 0, 1);
    assert Footprint([e]) == 9 by {
      assert [e][1..] == [];
    }
  }

  /** The shrink limit that leaves room for an entry of `size`: evict while
      the footprint plus `size` would exceed `maxSize`. */
  function RoomFor(maxSize: nat, size: nat): (limit: int)
    requires size <= maxSize
    ensures limit > 0
  {
    maxSize - size + 1
  }

  /** The footprint after a load that shrinks to make room for the new entry
      first: never above `maxSize`. */
  function LoadFootprint<K(==), V(==)>(u: seq<Entry<K, V>>, p: seq<Entry<K, V>>, maxSize: nat, size: nat): (r: nat)
    requires size <= maxSize
    ensures r <= maxSize
  {
    ShrinkBelowLimit(u, p, RoomFor(maxSize, size));
    Total(ShrinkSections(u, p, RoomFor(maxSize, size))) + size
  }

  // ----- configuration ---------------------------------------------------

  /** Caching is enabled iff the expiry period is not zero. */
  predicate CachingEnabled(expiry: nat)
  {
    expiry != 0
  }

  /** The constructor's sanity check: with caching enabled both the refresh
      period and the maximal size must be positive. */
  function CheckConfig(maxSize: nat, expiry: nat, refresh: nat): (r: Outcome)
    ensures !CachingEnabled(expiry) ==> r == Pass
    ensures maxSize > 0 && refresh > 0 ==> r == Pass
    ensures r == Pass && CachingEnabled(expiry) ==> maxSize > 0 && refresh > 0
    ensures r.Fail? ==> r.error == "configuration_exception"
  {
    if CachingEnabled(expiry) && (refresh == 0 || maxSize == 0) then Fail("configuration_exception") else Pass
  }

  /** The period the timer is armed with when caching is enabled: the expiry,
      and with reload enabled the shorter of expiry and refresh. */
  function TimerPeriod(expiry: nat, refresh: nat, reloadEnabled: bool): (r: nat)
    ensures r <= expiry
    ensures reloadEnabled ==> r <= refresh && (r == expiry || r == refresh)
    ensures !reloadEnabled ==> r == expiry
  {
    if reloadEnabled && refresh < expiry then refresh else expiry
  }

  /** `drop_expired`'s condition: not read within `expiry`, or, with reload
      enabled, not loaded within `expiry`. */
  predicate Expired<K(==), V(==)>(e: Entry<K, V>, now: int, expiry: nat, reloadEnabled: bool)
  {
    expiry < now - e.lastRead || (reloadEnabled && expiry < now - e.loaded)
  }

  /** `loading_cache`: the two lists, `_current_size`, the configuration and
      the `inc_unprivileged_on_cache_size_eviction` statistic. Times are
      passed in as `now`. */
  class Cache<K(==,!new), V(==,!new)> {
    const maxSize: nat
    const expiry: nat
    const refresh: nat
    const threshold: nat
    const reloadEnabled: bool
    var unprivileged: seq<Entry<K, V>>
    var privileged: seq<Entry<K, V>>
    var currentSize: nat
    var unprivilegedEvictions: nat

    predicate Valid()
      reads this
    {
      Inv(unprivileged, privileged, currentSize, threshold)
      && (CachingEnabled(expiry) ==> maxSize > 0 && refresh > 0)
    }

    function CachedKeys(): set<K>
      reads this
    {
      Keys(unprivileged) + Keys(privileged)
    }

    function Get(k: K): (r: Option<Entry<K, V>>)
      reads this
      ensures r.Some? <==> k in CachedKeys()
    {
      Find(unprivileged, privileged, k)
    }

    /** Constructs an empty cache; the sanity check has passed. */
    constructor(maxSize: nat, expiry: nat, refresh: nat, threshold: nat, reloadEnabled: bool)
      requires CheckConfig(maxSize, expiry, refresh) == Pass
      ensures Valid()
      ensures this.maxSize == maxSize && this.expiry == expiry && this.refresh == refresh
      ensures this.threshold == threshold && this.reloadEnabled == reloadEnabled
      ensures unprivileged == [] && privileged == [] && currentSize == 0 && unprivilegedEvictions == 0
    {
      this.maxSize := maxSize;
      this.expiry := expiry;
      this.refresh := refresh;
      this.threshold := threshold;
      this.reloadEnabled := reloadEnabled;
      unprivileged := [];
      privileged := [];
      currentSize := 0;
      unprivilegedEvictions := 0;
    }

    /** `size()`: the number of cached keys. */
    function Size(): (n: nat)
      reads this
      ensures Valid() ==> n == |CachedKeys()|
    {
      if Valid() then
        DistinctCount(unprivileged);
        DistinctCount(privileged);
        |unprivileged| + |privileged|
      else
        |unprivileged| + |privileged|
    }

    /** `memory_footprint()`: the total size of the cached entries. */
    function MemoryFootprint(): (n: nat)
      reads this
      ensures Valid() ==> n == Footprint(unprivileged) + Footprint(privileged)
    {
      currentSize
    }

    /** The entries `on_timer` hands to `reload`: loaded more than `refresh`
        ago, unprivileged ones first. */
    function DueForReload(now: int): (r: seq<Entry<K, V>>)
      reads this
      ensures forall e :: e in r <==> (e in unprivileged || e in privileged) && e.loaded + refresh < now
    {
      var refresh := this.refresh;
      var due := (e: Entry<K, V>) => e.loaded + refresh < now;
      KeepIfFacts(unprivileged + privileged, due);
      KeepIf(unprivileged + privileged, due)
    }

    /** `touch_lru_entry_2_sections` after `timestamped_val::touch` stamped the
        read time: the entry leaves the list `container_list` names and
        becomes the front of the list its new count selects. */
    method Touch(k: K, now: int) returns (t: Entry<K, V>)
      requires Valid() && k in CachedKeys()
      modifies this`unprivileged, this`privileged
      ensures Valid()
      ensures t == Touched(old(Get(k)).value.(lastRead := now), threshold)
      ensures InPrivileged(t, threshold) ==>
        privileged == [t] + RemoveKey(old(privileged), k) && unprivileged == RemoveKey(old(unprivileged), k)
      ensures !InPrivileged(t, threshold) ==>
        unprivileged == [t] + RemoveKey(old(unprivileged), k) && privileged == old(privileged)
      ensures CachedKeys() == old(CachedKeys()) && Get(k) == Some(t)
    {
      var e := Get(k).value;
      TouchShape(unprivileged, privileged, currentSize, threshold, k, now);
      if e.touchCount < threshold {
        TouchToUnprivileged(unprivileged, privileged, currentSize, threshold, k, now);
      } else {
        TouchToPrivileged(unprivileged, privileged, currentSize, threshold, k, now);
      }
      if InPrivileged(e, threshold) {
        privileged := RemoveKey(privileged, k);
      } else {
        unprivileged := RemoveKey(unprivileged, k);
      }
      t := Touched(e.(lastRead := now), threshold);
      if e.touchCount < threshold {
        unprivileged := [t] + unprivileged;
      } else {
        privileged := [t] + privileged;
      }
    }

    /** `find`: the ready entry of `k`, touched by the `value_ptr` built
        around it, or nothing (a null `value_ptr`) when the key is not cached. */
    method FindEntry(k: K, now: int) returns (r: Option<Entry<K, V>>)
      requires Valid()
      modifies this`unprivileged, this`privileged
      ensures Valid()
      ensures r.Some? <==> k in old(CachedKeys())
      ensures r.Some? ==> r.value == Touched(old(Get(k)).value.(lastRead := now), threshold) && Get(k) == r
      ensures r.None? ==> unprivileged == old(unprivileged) && privileged == old(privileged)
      ensures CachedKeys() == old(CachedKeys())
    {
      if k in CachedKeys() {
        var t := Touch(k, now);
        r := Some(t);
      } else {
        r := None;
      }
    }

    /** `shrink()` with the eviction limit as a parameter: evicts from the
        back of the unprivileged list while the footprint is at least
        `limit`, then from the back of the privileged list. */
    method ShrinkBelow(limit: int)
      requires Valid() && limit > 0
      modifies this`unprivileged, this`privileged, this`currentSize, this`unprivilegedEvictions
      ensures Valid()
      ensures Sections(unprivileged, privileged) == ShrinkSections(old(unprivileged), old(privileged), limit)
      ensures currentSize < limit
      ensures unprivilegedEvictions == old(unprivilegedEvictions) + |old(unprivileged)| - |unprivileged|
    {
      EvictUnprivileged(limit);
      EvictPrivileged(limit);
    }

    /** The first loop of `shrink()`: evicts the back of the unprivileged list
        while the footprint is at least `limit`, counting each eviction. */
    method EvictUnprivileged(limit: int)
      requires Valid() && limit > 0
      modifies this`unprivileged, this`currentSize, this`unprivilegedEvictions
      ensures Valid()
      ensures ShrinkSections(unprivileged, privileged, limit) == ShrinkSections(old(unprivileged), privileged, limit)
      ensures unprivileged == [] || currentSize < limit
      ensures unprivilegedEvictions == old(unprivilegedEvictions) + |old(unprivileged)| - |unprivileged|
    {
      while currentSize >= limit && unprivileged != []
        invariant Valid()
        invariant ShrinkSections(unprivileged, privileged, limit) == ShrinkSections(old(unprivileged), privileged, limit)
        invariant |unprivileged| <= |old(unprivileged)|
        invariant unprivilegedEvictions == old(unprivilegedEvictions) + |old(unprivileged)| - |unprivileged|
        decreases |unprivileged|
      {
        var victim := unprivileged[|unprivileged| - 1];
        DropLastInv(unprivileged, privileged, currentSize, threshold);
        ShrinkStep(unprivileged, privileged, limit);
        unprivileged := unprivileged[..|unprivileged| - 1];
        currentSize := currentSize - victim.size;
        unprivilegedEvictions := unprivilegedEvictions + 1;
      }
    }

    /** The second loop of `shrink()`: evicts the back of the privileged list
        while the footprint is at least `limit`; the list is never empty
        there because an empty cache has footprint 0. */
    method EvictPrivileged(limit: int)
      requires Valid() && limit > 0
      requires unprivileged == [] || currentSize < limit
      modifies this`privileged, this`currentSize
      ensures Valid()
      ensures Sections(unprivileged, privileged) == ShrinkSections(unprivileged, old(privileged), limit)
      ensures currentSize < limit
    {
      while currentSize >= limit
        invariant Valid()
        invariant unprivileged == [] || currentSize < limit
        invariant ShrinkSections(unprivileged, privileged, limit) == ShrinkSections(unprivileged, old(privileged), limit)
        decreases |privileged|
      {
        var victim := privileged[|privileged| - 1];
        DropLastInv(unprivileged, privileged, currentSize, threshold);
        ShrinkStep(unprivileged, privileged, limit);
        privileged := privileged[..|privileged| - 1];
        currentSize := currentSize - victim.size;
      }
    }

    /** `shrink()` as written: evicts until the footprint is below `max_size`. */
    method Shrink()
      requires Valid() && CachingEnabled(expiry)
      modifies this`unprivileged, this`privileged, this`currentSize, this`unprivilegedEvictions
      ensures Valid()
      ensures Sections(unprivileged, privileged) == ShrinkSections(old(unprivileged), old(privileged), maxSize)
      ensures currentSize < maxSize
    {
      ShrinkBelow(maxSize);
    }

    /** `get_ptr` as written: a cached key is touched and returned; otherwise
        a value larger than `max_size` fails with `entry_is_too_big`, and any
        other value is linked as a new entry after `shrink()`, which does not
        count the new entry's size. */
    method GetPtr(k: K, v: V, size: nat, now: int) returns (r: Result<Entry<K, V>>)
      requires Valid() && CachingEnabled(expiry)
      modifies this`unprivileged, this`privileged, this`currentSize, this`unprivilegedEvictions
      ensures Valid()
      ensures r.Err? <==> k !in old(CachedKeys()) && size > maxSize
      ensures r.Err? ==> r.error == "entry_is_too_big"
      ensures r.Err? ==>
        unprivileged == old(unprivileged) && privileged == old(privileged) && currentSize == old(currentSize)
      ensures r.Ok? ==> Get(k) == Some(r.value) && r.value.lastRead == now
      ensures k in old(CachedKeys()) ==>
        r == Ok(Touched(old(Get(k)).value.(lastRead := now), threshold)) && currentSize == old(currentSize)
      ensures k !in old(CachedKeys()) && r.Ok? ==>
        r.value == Touched(Entry(k, v, size, now, now, 0), threshold)
        && currentSize == LoadFootprintAsWritten(old(unprivileged), old(privileged), maxSize, size)
        && currentSize < maxSize + size
    {
      if k in CachedKeys() {
        var t := Touch(k, now);
        return Ok(t);
      }
      if size > maxSize {
        return Err("entry_is_too_big");
      }
      var t := LoadNew(k, v, size, now, maxSize);
      r := Ok(t);
    }

    /** `get_ptr` with the correction of the footprint finding: the cache makes
        room for the new entry before linking it, so the footprint never
        exceeds `max_size`. */
    method GetPtrCorrected(k: K, v: V, size: nat, now: int) returns (r: Result<Entry<K, V>>)
      requires Valid() && CachingEnabled(expiry)
      modifies this`unprivileged, this`privileged, this`currentSize, this`unprivilegedEvictions
      ensures Valid()
      ensures r.Err? <==> k !in old(CachedKeys()) && size > maxSize
      ensures r.Err? ==> r.error == "entry_is_too_big"
      ensures r.Err? ==>
        unprivileged == old(unprivileged) && privileged == old(privileged) && currentSize == old(currentSize)
      ensures r.Ok? ==> Get(k) == Some(r.value) && r.value.lastRead == now
      ensures k in old(CachedKeys()) ==>
        r == Ok(Touched(old(Get(k)).value.(lastRead := now), threshold)) && currentSize == old(currentSize)
      ensures k !in old(CachedKeys()) && r.Ok? ==>
        r.value == Touched(Entry(k, v, size, now, now, 0), threshold)
        && currentSize == LoadFootprint(old(unprivileged), old(privileged), maxSize, size)
        && currentSize <= maxSize
    {
      if k in CachedKeys() {
        var t := Touch(k, now);
        return Ok(t);
      }
      if size > maxSize {
        return Err("entry_is_too_big");
      }
      var t := LoadNew(k, v, size, now, RoomFor(maxSize, size));
      r := Ok(t);
    }

    /** The insertion branch of `get_ptr`: shrink below `limit`, then link the
        new entry at the front of the list its count selects. */
    method LoadNew(k: K, v: V, size: nat, now: int, limit: int) returns (t: Entry<K, V>)
      requires Valid() && limit > 0 && k !in CachedKeys()
      modifies this`unprivileged, this`privileged, this`currentSize, this`unprivilegedEvictions
      ensures Valid()
      ensures t == Touched(Entry(k, v, size, now, now, 0), threshold) && Get(k) == Some(t)
      ensures currentSize == Total(ShrinkSections(old(unprivileged), old(privileged), limit)) + size
      ensures InPrivileged(t, threshold) ==> privileged != [] && privileged[0] == t
      ensures !InPrivileged(t, threshold) ==> unprivileged != [] && unprivileged[0] == t
    {
      ShrinkBelow(limit);
      ShrinkKeepsPrefixes(old(unprivileged), old(privileged), limit);
      DropPrefixKeys(old(unprivileged), |unprivileged|);
      DropPrefixKeys(old(privileged), |privileged|);
      t := Touched(Entry(k, v, size, now, now, 0), threshold);
      LinkInv(unprivileged, privileged, currentSize, threshold, t);
      currentSize := currentSize + size;
      if InPrivileged(t, threshold) {
        privileged := [t] + privileged;
      } else {
        unprivileged := [t] + unprivileged;
      }
      ConsFacts(t, unprivileged);
      ConsFacts(t, privileged);
    }

    /** `remove`: unlinks and destroys the entry of a cached key, if any. */
    method Remove(k: K)
      requires Valid()
      modifies this`unprivileged, this`privileged, this`currentSize
      ensures Valid()
      ensures unprivileged == RemoveKey(old(unprivileged), k) && privileged == RemoveKey(old(privileged), k)
      ensures CachedKeys() == old(CachedKeys()) - {k}
      ensures currentSize == old(currentSize) - (if k in old(CachedKeys()) then old(Get(k)).value.size else 0)
    {
      RemoveKeyFacts(unprivileged, k);
      RemoveKeyFacts(privileged, k);
      if k !in CachedKeys() {
        return;
      }
      var e := Get(k).value;
      UnlinkInv(unprivileged, privileged, currentSize, threshold, k);
      ContainerHoldsEntry(unprivileged, privileged, currentSize, threshold, k);
      if InPrivileged(e, threshold) {
        privileged := RemoveKey(privileged, k);
      } else {
        unprivileged := RemoveKey(unprivileged, k);
      }
      currentSize := currentSize - e.size;
    }

    /** Both lists filtered by `keep`, with the sizes of the dropped entries
        subtracted (`remove_and_dispose_if` on each list). */
    method Filter(keep: Entry<K, V> -> bool)
      requires Valid()
      modifies this`unprivileged, this`privileged, this`currentSize
      ensures Valid()
      ensures unprivileged == KeepIf(old(unprivileged), keep) && privileged == KeepIf(old(privileged), keep)
      ensures forall e :: (e in unprivileged || e in privileged) <==>
        (e in old(unprivileged) || e in old(privileged)) && keep(e)
    {
      KeepIfInv(unprivileged, privileged, currentSize, threshold, keep);
      KeepIfFacts(unprivileged, keep);
      KeepIfFacts(privileged, keep);
      unprivileged := KeepIf(unprivileged, keep);
      privileged := KeepIf(privileged, keep);
      currentSize := Footprint(unprivileged) + Footprint(privileged);
    }

    /** `remove_if`: drops the entries whose value satisfies `pred`. */
    method RemoveIf(pred: V -> bool)
      requires Valid()
      modifies this`unprivileged, this`privileged, this`currentSize
      ensures Valid()
      ensures forall e :: (e in unprivileged || e in privileged) <==>
        (e in old(unprivileged) || e in old(privileged)) && !pred(e.value)
    {
      Filter((e: Entry<K, V>) => !pred(e.value));
    }

    /** `drop_expired`: drops the entries not read within `expiry` and, with
        reload enabled, those not loaded within `expiry`. */
    method DropExpired(now: int)
      requires Valid()
      modifies this`unprivileged, this`privileged, this`currentSize
      ensures Valid()
      ensures forall e :: (e in unprivileged || e in privileged) <==>
        (e in old(unprivileged) || e in old(privileged)) && !Expired(e, now, expiry, reloadEnabled)
    {
      var expiry, reloadEnabled := this.expiry, this.reloadEnabled;
      Filter((e: Entry<K, V>) => !Expired(e, now, expiry, reloadEnabled));
    }

    /** `reload` storing a freshly loaded value (`timestamped_val::operator=`):
        a key dropped meanwhile is left alone; otherwise the value, its size
        and its load time are replaced in place and `_current_size` moves by
        the difference of the sizes. */
    method Reload(k: K, v: V, size: nat, now: int)
      requires Valid()
      modifies this`unprivileged, this`privileged, this`currentSize
      ensures Valid()
      ensures k !in old(CachedKeys()) ==>
        unprivileged == old(unprivileged) && privileged == old(privileged) && currentSize == old(currentSize)
      ensures k in old(CachedKeys()) ==>
        Get(k) == Some(old(Get(k)).value.(value := v, size := size, loaded := now)) &&
        currentSize == old(currentSize) - old(Get(k)).value.size + size
      ensures CachedKeys() == old(CachedKeys())
      ensures |unprivileged| == |old(unprivileged)| && |privileged| == |old(privileged)|
    {
      ReassignShape(unprivileged, privileged, k, v, size, now);
      if k !in CachedKeys() {
        return;
      }
      var e := Get(k).value;
      ReassignInv(unprivileged, privileged, currentSize, threshold, k, v, size, now);
      var newSize: nat := currentSize - e.size + size;
      unprivileged := Reassign(unprivileged, k, v, size, now);
      privileged := Reassign(privileged, k, v, size, now);
      currentSize := newSize;
    }
  }

  lemma DropPrefixKeys<K, V>(s: seq<Entry<K, V>>, n: nat)
    requires n <= |s|
    ensures Keys(s[..n]) <= Keys(s)
    decreases |s|
  {
    if n < |s| {
      DropLastFacts(s);
      DropPrefixKeys(s[..|s| - 1], n);
      assert s[..|s| - 1][..n] == s[..n];
    } else {
      assert s[..n] == s;
    }
  }

  /** `loading_cache`'s constructors: the sanity check throws, otherwise the
      cache starts empty. */
  method NewCache<K(==,!new), V(==,!new)>(maxSize: nat, expiry: nat, refresh: nat, threshold: nat, reloadEnabled: bool)
    returns (r: Result<Cache<K, V>>)
    ensures r.Err? <==> CheckConfig(maxSize, expiry, refresh).Fail?
    ensures r.Err? ==> r.error == "configuration_exception"
    ensures r.Ok? ==> fresh(r.value) && r.value.Valid() && r.value.CachedKeys() == {} && r.value.MemoryFootprint() == 0
  {
    var check := CheckConfig(maxSize, expiry, refresh);
    if check.Fail? {
      return Err(check.error);
    }
    var c := new Cache(maxSize, expiry, refresh, threshold, reloadEnabled);
    r := Ok(c);
  }
}
