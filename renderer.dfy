/**
 * The resource caches of src/renderer.c. The render thread keeps three
 * fixed-size tables (shaders keyed by their info pointer, meshes keyed by
 * their info pointer, instances keyed by the entity), each holding
 * `count` live entries at the front of an array of RENDERER_MAX_DRAW_AMOUNT
 * slots. A draw command looks its keys up, appending on a miss, and stamps
 * the entries with the current frame; at the end of each frame the entries
 * not stamped within the last gpu_frame_count frames are evicted by
 * swap-remove. The GPU objects an entry owns are not modelled.
 *
 * The three tables share their logic, so one generic class `Table` models
 * each of them.
 */
module Renderer {
  import opened Wrappers
  import opened CInt

  /** RENDERER_MAX_DRAW_AMOUNT: slots per table. */
  const Capacity: nat := 1024

  /** A gpu_shader_info_t pointer, the key of the shader table. */
  datatype ShaderInfo = ShaderInfo(addr: nat)
  /** A gpu_mesh_info_t pointer, the key of the mesh table. */
  datatype MeshInfo = MeshInfo(addr: nat)
  /** ecs_entity_t, compared byte-wise, i.e. field by field. */
  datatype Entity = Entity(entity: int, sequence: int)

  /** A table entry: its key and the frame it was last used in. */
  datatype Entry<K> = Entry(key: K, stamp: int)

  /** An entry is stale once gpu_frame_count frames have passed since it was last used. */
  predicate Stale<K>(e: Entry<K>, frameCount: int, frame: int) {
    e.stamp + frameCount <= frame
  }

  /** The first position holding `key`, if any. */
  function IndexOf<K(==)>(entries: seq<Entry<K>>, key: K): (r: Option<nat>)
    ensures r.None? <==> forall k :: 0 <= k < |entries| ==> entries[k].key != key
    ensures r.Some? ==> r.value < |entries| && entries[r.value].key == key
    ensures r.Some? ==> forall k :: 0 <= k < r.value ==> entries[k].key != key
  {
    if entries == [] then None
    else if entries[0].key == key then Some(0)
    else match IndexOf(entries[1..], key)
      case None => None
      case Some(j) => Some(j + 1)
  }

  ghost predicate DistinctKeys<K>(entries: seq<Entry<K>>) {
    forall i, j :: 0 <= i < j < |entries| ==> entries[i].key != entries[j].key
  }

  /** The keys present in a table. */
  ghost function Keys<K>(entries: seq<Entry<K>>): set<K> {
    set e | e in entries :: e.key
  }

  /**
   * The lookup of a draw command: the entry for `key` is stamped with
   * `frame`, appended first if there is none.
   */
  function Touch<K(==)>(entries: seq<Entry<K>>, key: K, frame: int): (r: seq<Entry<K>>)
  {
    match IndexOf(entries, key)
    case Some(j) => entries[j := Entry(key, frame)]
    case None => entries + [Entry(key, frame)]
  }

  /** A lookup adds its key and no other, keeps the keys distinct, and changes only the entry it stamps. */
  lemma TouchKeepsTable<K>(entries: seq<Entry<K>>, key: K, frame: int)
    requires DistinctKeys(entries)
    ensures DistinctKeys(Touch(entries, key, frame))
    ensures Keys(Touch(entries, key, frame)) == Keys(entries) + {key}
    ensures IndexOf(entries, key).Some? ==> |Touch(entries, key, frame)| == |entries|
    ensures IndexOf(entries, key).None? ==> |Touch(entries, key, frame)| == |entries| + 1
    ensures forall k :: 0 <= k < |entries| && entries[k].key != key ==> Touch(entries, key, frame)[k] == entries[k]
    ensures Entry(key, frame) in Touch(entries, key, frame)
    ensures forall i :: 0 <= i < |Touch(entries, key, frame)| ==>
              Touch(entries, key, frame)[i] == Entry(key, frame) || Touch(entries, key, frame)[i] in entries
  {
    TouchShape(entries, key, frame);
    TouchKeys(entries, key, frame);
  }

  /** Where a lookup puts its entry: at the key's first position, or appended. */
  function TouchedAt<K(==)>(entries: seq<Entry<K>>, key: K): (j: nat)
    ensures j <= |entries|
  {
    match IndexOf(entries, key)
    case Some(j) => j
    case None => |entries|
  }

  /** A lookup writes one position and leaves the others as they were. */
  lemma TouchShape<K>(entries: seq<Entry<K>>, key: K, frame: int)
    ensures TouchedAt(entries, key) < |Touch(entries, key, frame)|
    ensures Touch(entries, key, frame)[TouchedAt(entries, key)] == Entry(key, frame)
    ensures IndexOf(entries, key).Some? ==> |Touch(entries, key, frame)| == |entries|
    ensures IndexOf(entries, key).None? ==> |Touch(entries, key, frame)| == |entries| + 1
    ensures forall k :: 0 <= k < |entries| && k != TouchedAt(entries, key) ==> Touch(entries, key, frame)[k] == entries[k]
    ensures forall k :: 0 <= k < |entries| && entries[k].key != key ==> Touch(entries, key, frame)[k] == entries[k]
    ensures forall k :: 0 <= k < |entries| ==> Touch(entries, key, frame)[k].key == entries[k].key
    ensures Entry(key, frame) in Touch(entries, key, frame)
    ensures forall i :: 0 <= i < |Touch(entries, key, frame)| ==>
              Touch(entries, key, frame)[i] == Entry(key, frame) || Touch(entries, key, frame)[i] in entries
  {
    var r := Touch(entries, key, frame);
    var j := TouchedAt(entries, key);
    assert r[j] in r;
    forall i | 0 <= i < |r| && i != j ensures r[i] in entries {
      assert r[i] == entries[i];
    }
  }

  /** A lookup keeps the keys distinct and adds its own key to them. */
  lemma TouchKeys<K>(entries: seq<Entry<K>>, key: K, frame: int)
    requires DistinctKeys(entries)
    ensures DistinctKeys(Touch(entries, key, frame))
    ensures Keys(Touch(entries, key, frame)) == Keys(entries) + {key}
  {
    var r := Touch(entries, key, frame);
    var n := |entries|;
    var j := TouchedAt(entries, key);
    TouchShape(entries, key, frame);
    assert j == n ==> forall k :: 0 <= k < n ==> entries[k].key != key;
    forall x | x in Keys(r) ensures x in Keys(entries) + {key} {
      var e :| e in r && e.key == x;
      var i :| 0 <= i < |r| && r[i] == e;
      if i < n {
        assert entries[i] in entries;
      }
    }
    forall x | x in Keys(entries) + {key} ensures x in Keys(r) {
      if x == key {
        assert r[j] in r;
      } else {
        var e :| e in entries && e.key == x;
        var i :| 0 <= i < n && entries[i] == e;
        assert r[i] in r;
      }
    }
  }

  /** The lookup's answer is determined by the first position holding the key. */
  lemma IndexOfIs<K>(entries: seq<Entry<K>>, key: K, j: nat)
    requires j < |entries| && entries[j].key == key
    requires forall k :: 0 <= k < j ==> entries[k].key != key
    ensures IndexOf(entries, key) == Some(j)
  {
  }

  /** A lookup keeps the keys distinct. */
  lemma TouchKeepsDistinct<K>(entries: seq<Entry<K>>, key: K, frame: int)
    requires DistinctKeys(entries)
    ensures DistinctKeys(Touch(entries, key, frame))
  {
    TouchKeys(entries, key, frame);
  }

  /** A lookup that hits stamps the entry the table already had and appends nothing. */
  lemma TouchTwiceAppendsOnce<K>(entries: seq<Entry<K>>, key: K, frame: int, later: int)
    ensures |Touch(Touch(entries, key, frame), key, later)| == |Touch(entries, key, frame)|
    ensures IndexOf(Touch(Touch(entries, key, frame), key, later), key) == IndexOf(Touch(entries, key, frame), key)
  {
    var once := Touch(entries, key, frame);
    var j := match IndexOf(entries, key) case Some(j) => j case None => |entries|;
    assert once[j] == Entry(key, frame);
    assert forall k :: 0 <= k < j ==> once[k] == entries[k];
    IndexOfIs(once, key, j);
    var twice := Touch(once, key, later);
    assert twice == once[j := Entry(key, later)];
    IndexOfIs(twice, key, j);
  }

  /** The live entries of a table, in order: the reference for an eviction sweep. */
  function Fresh<K>(entries: seq<Entry<K>>, frameCount: int, frame: int): (r: seq<Entry<K>>)
    ensures |r| <= |entries|
  {
    if entries == [] then []
    else if Stale(entries[0], frameCount, frame) then Fresh(entries[1..], frameCount, frame)
    else [entries[0]] + Fresh(entries[1..], frameCount, frame)
  }

  /** The reference keeps exactly the live entries. */
  lemma {:induction false} FreshMembers<K>(entries: seq<Entry<K>>, frameCount: int, frame: int)
    ensures forall i :: 0 <= i < |Fresh(entries, frameCount, frame)| ==>
              Fresh(entries, frameCount, frame)[i] in entries && !Stale(Fresh(entries, frameCount, frame)[i], frameCount, frame)
    ensures forall i :: 0 <= i < |entries| && !Stale(entries[i], frameCount, frame) ==>
              entries[i] in Fresh(entries, frameCount, frame)
  {
    if entries != [] {
      FreshMembers(entries[1..], frameCount, frame);
      assert forall i :: 1 <= i < |entries| ==> entries[i] == entries[1..][i - 1];
    }
  }

  /** Removing position x by moving the last entry into it. */
  function SwapRemove<E>(s: seq<E>, x: nat): (r: seq<E>)
    requires x < |s|
    ensures |r| == |s| - 1
    ensures r[..x] == s[..x]
    ensures x < |r| ==> r[x] == s[|s| - 1]
    ensures forall k :: x < k < |r| ==> r[k] == s[k]
  {
    s[x := s[|s| - 1]][..|s| - 1]
  }

  /** Swap-remove takes exactly the removed entry out of the table. */
  lemma SwapRemoveMultiset<E>(s: seq<E>, x: nat)
    requires x < |s|
    ensures multiset(SwapRemove(s, x)) == multiset(s) - multiset{s[x]}
  {
    var n := |s|;
    var u := s[x := s[n - 1]];
    var r := SwapRemove(s, x);
    var removed := multiset(s) - multiset{s[x]};
    assert multiset(u) == removed + multiset{s[n - 1]};
    assert u == r + [s[n - 1]];
    assert multiset(r) + multiset{s[n - 1]} == removed + multiset{s[n - 1]};
    forall e ensures multiset(r)[e] == removed[e] {
      assert (multiset(r) + multiset{s[n - 1]})[e] == (removed + multiset{s[n - 1]})[e];
    }
    assert multiset(r) == removed;
  }

  /** One step of the sweep against the reference: the examined entry joins the kept ones if it is live. */
  lemma FreshStep<K>(o: seq<Entry<K>>, x: nat, frameCount: int, frame: int)
    requires x < |o|
    ensures multiset(o[..x + 1]) == multiset(o[..x]) + multiset{o[x]}
    ensures Stale(o[x], frameCount, frame) ==> Fresh(o[x..], frameCount, frame) == Fresh(o[x + 1..], frameCount, frame)
    ensures !Stale(o[x], frameCount, frame) ==> Fresh(o[x..], frameCount, frame) == [o[x]] + Fresh(o[x + 1..], frameCount, frame)
  {
    assert o[..x + 1] == o[..x] + [o[x]];
    assert o[x..][1..] == o[x + 1..];
  }

  /** Swap-removing a stale entry keeps the keys distinct, and keeps live every entry above it. */
  lemma SwapRemoveKeeps<K>(before: seq<Entry<K>>, x: nat, frameCount: int, frame: int)
    requires x < |before| && DistinctKeys(before)
    requires forall k :: x < k < |before| ==> !Stale(before[k], frameCount, frame)
    ensures DistinctKeys(SwapRemove(before, x))
    ensures forall k :: x <= k < |SwapRemove(before, x)| ==> !Stale(SwapRemove(before, x)[k], frameCount, frame)
    ensures multiset(SwapRemove(before, x)) == multiset(before) - multiset{before[x]}
  {
    SwapRemoveMultiset(before, x);
    var r := SwapRemove(before, x);
    forall i, j | 0 <= i < j < |r| ensures r[i].key != r[j].key {
      var bi := if i == x then |before| - 1 else i;
      var bj := if j == x then |before| - 1 else j;
      assert r[i] == before[bi] && r[j] == before[bj];
    }
  }

  /**
   * The sweep's loop invariant: below x the entries are untouched, from x up
   * they are live, keys stay distinct, and the entries are those below x plus
   * the live ones among those examined.
   */
  ghost predicate SweepInv<K>(o: seq<Entry<K>>, x: nat, cur: seq<Entry<K>>, frameCount: int, frame: int) {
    && x <= |cur| && x <= |o|
    && cur[..x] == o[..x]
    && (forall k :: x <= k < |cur| ==> !Stale(cur[k], frameCount, frame))
    && DistinctKeys(cur)
    && multiset(cur) == multiset(o[..x]) + multiset(Fresh(o[x..], frameCount, frame))
  }

  lemma SweepStart<K>(o: seq<Entry<K>>, frameCount: int, frame: int)
    requires DistinctKeys(o)
    ensures SweepInv(o, |o|, o, frameCount, frame)
  {
    assert o[..|o|] == o && o[|o|..] == [];
  }

  lemma PrefixStep<E>(a: seq<E>, b: seq<E>, x: nat)
    requires x < |a| && x < |b| && a[..x + 1] == b[..x + 1]
    ensures a[x] == b[x] && a[..x] == b[..x]
  {
    assert a[..x + 1][x] == b[..x + 1][x];
    assert a[..x] == a[..x + 1][..x] && b[..x] == b[..x + 1][..x];
  }

  /** Examining entry x keeps the invariant, whether it is removed or kept. */
  lemma SweepInvStep<K>(o: seq<Entry<K>>, x: nat, cur: seq<Entry<K>>, frameCount: int, frame: int)
    requires SweepInv(o, x + 1, cur, frameCount, frame)
    ensures x < |cur| && cur[x] == o[x]
    ensures Stale(cur[x], frameCount, frame) ==> SweepInv(o, x, SwapRemove(cur, x), frameCount, frame)
    ensures !Stale(cur[x], frameCount, frame) ==> SweepInv(o, x, cur, frameCount, frame)
  {
    PrefixStep(cur, o, x);
    FreshStep(o, x, frameCount, frame);
    if Stale(cur[x], frameCount, frame) {
      SwapRemoveKeeps(cur, x, frameCount, frame);
    }
  }

  /** When the sweep reaches index 0, the table holds exactly the live entries. */
  lemma SweepDone<K>(o: seq<Entry<K>>, cur: seq<Entry<K>>, frameCount: int, frame: int)
    requires SweepInv(o, 0, cur, frameCount, frame)
    ensures DistinctKeys(cur)
    ensures multiset(cur) == multiset(Fresh(o, frameCount, frame))
    ensures forall i :: 0 <= i < |cur| ==> !Stale(cur[i], frameCount, frame)
    ensures forall i :: 0 <= i < |o| && !Stale(o[i], frameCount, frame) ==> o[i] in cur
    ensures forall i :: 0 <= i < |cur| ==> cur[i] in o
  {
    assert o[..0] == [] && o[0..] == o;
    FreshMembers(o, frameCount, frame);
    SameMultisetSameMembers(cur, Fresh(o, frameCount, frame));
  }

  lemma SameMultisetSameMembers<E>(a: seq<E>, b: seq<E>)
    requires multiset(a) == multiset(b)
    ensures forall i :: 0 <= i < |a| ==> a[i] in b
    ensures forall i :: 0 <= i < |b| ==> b[i] in a
  {
    forall i | 0 <= i < |a| ensures a[i] in b {
      assert a[i] in multiset(a);
    }
    forall i | 0 <= i < |b| ensures b[i] in a {
      assert b[i] in multiset(b);
    }
  }

  /**
   * rendererDestroyStaleData as written, for one table: the sweep starts at
   * index `count` and moves down to 0, swap-removing every stale entry it
   * finds. `slots` is the whole array, live entries and left-overs alike.
   */
  datatype Sweep<K> = Swept(slots: seq<Entry<K>>, count: int) | OutOfBounds(index: int)

  function SweepAsWritten<K>(slots: seq<Entry<K>>, count: int, x: int, frameCount: int, frame: int): (r: Sweep<K>)
    requires 0 <= count <= |slots| && -1 <= x <= count
    ensures r.Swept? ==> |r.slots| == |slots| && 0 <= r.count <= count
    decreases x + 1
  {
    if x < 0 then Swept(slots, count)
    else if x >= |slots| then OutOfBounds(x)
    else if !Stale(slots[x], frameCount, frame) then SweepAsWritten(slots, count, x - 1, frameCount, frame)
    else if count == 0 then OutOfBounds(-1)
    else SweepAsWritten(slots[x := slots[count - 1]], count - 1, x - 1, frameCount, frame)
  }

  /**
   * The sweep as written drops a live entry: slot `count` still holds an
   * entry evicted earlier, its stale stamp triggers a copy of the last live
   * entry into it, and the live entry is never examined again.
   */
  lemma SweepAsWrittenDropsLiveEntry()
    ensures !Stale(Entry(1, 10), 2, 10)
    ensures SweepAsWritten([Entry(1, 10), Entry(2, 0)], 1, 1, 2, 10) == Swept([Entry(1, 10), Entry(1, 10)], 0)
  {
    var s := [Entry(1, 10), Entry(2, 0)];
    assert Stale(s[1], 2, 10);
    assert s[1 := s[0]] == [Entry(1, 10), Entry(1, 10)];
  }

  /** On an empty table whose slot 0 holds a stale left-over, the sweep reads index -1. */
  lemma SweepAsWrittenUnderflows()
    ensures SweepAsWritten([Entry(7, 0)], 0, 0, 2, 10) == OutOfBounds(-1)
  {
  }

  /** On a full table the first index read, 1024, is past the array. */
  lemma SweepAsWrittenOverflows<K>(slots: seq<Entry<K>>, frameCount: int, frame: int)
    requires |slots| == Capacity
    ensures SweepAsWritten(slots, Capacity, Capacity, frameCount, frame) == OutOfBounds(Capacity)
  {
  }

  /**
   * What the sweep as written keeps when it stays in bounds: distinct keys,
   * no stale entry, and no entry it did not have before.
   */
  ghost predicate SweptKeeps<K>(o: seq<Entry<K>>, r: Sweep<K>, frameCount: int, frame: int) {
    && r.Swept? && 0 <= r.count <= |r.slots|
    && DistinctKeys(r.slots[..r.count])
    && (forall i :: 0 <= i < r.count ==> !Stale(r.slots[i], frameCount, frame))
    && multiset(r.slots[..r.count]) <= multiset(o)
  }

  /**
   * The sweep as written from index x: the entries between x and count have
   * been examined and are live, and the sweep keeps only live entries.
   */
  lemma {:induction false} SweepAsWrittenSound<K>(slots: seq<Entry<K>>, count: int, x: int, frameCount: int, frame: int)
    requires 0 <= count <= |slots| && -1 <= x <= count
    requires forall i :: x < i < count ==> !Stale(slots[i], frameCount, frame)
    requires DistinctKeys(slots[..count])
    ensures SweepAsWritten(slots, count, x, frameCount, frame).Swept? ==>
              SweptKeeps(slots[..count], SweepAsWritten(slots, count, x, frameCount, frame), frameCount, frame)
    decreases x + 1
  {
    if x < 0 || x >= |slots| {
    } else if !Stale(slots[x], frameCount, frame) {
      SweepAsWrittenSound(slots, count, x - 1, frameCount, frame);
    } else if count > 0 {
      var next := slots[x := slots[count - 1]];
      SweepStaleStep(slots, count, x, next, frameCount, frame);
      SweepAsWrittenSound(next, count - 1, x - 1, frameCount, frame);
    }
  }

  /**
   * One removal of the sweep as written: below count it is a swap-remove;
   * at index count it drops the last entry from the table.
   */
  lemma SweepStaleStep<K>(slots: seq<Entry<K>>, count: int, x: int, next: seq<Entry<K>>, frameCount: int, frame: int)
    requires 0 < count <= |slots| && 0 <= x <= count && x < |slots|
    requires next == slots[x := slots[count - 1]]
    requires forall i :: x < i < count ==> !Stale(slots[i], frameCount, frame)
    requires DistinctKeys(slots[..count])
    ensures DistinctKeys(next[..count - 1])
    ensures forall i :: x - 1 < i < count - 1 ==> !Stale(next[i], frameCount, frame)
    ensures multiset(next[..count - 1]) <= multiset(slots[..count])
  {
    if x < count {
      assert next[..count - 1] == SwapRemove(slots[..count], x);
      SwapRemoveKeeps(slots[..count], x, frameCount, frame);
    } else {
      assert next[..count - 1] == slots[..count - 1];
      assert slots[..count] == slots[..count - 1] + [slots[count - 1]];
    }
  }

  /** An entry that is not stale occurs as often among the live entries as in the table. */
  lemma {:induction false} FreshCount<K>(o: seq<Entry<K>>, e: Entry<K>, frameCount: int, frame: int)
    requires !Stale(e, frameCount, frame)
    ensures multiset(Fresh(o, frameCount, frame))[e] == multiset(o)[e]
  {
    if o != [] {
      FreshCount(o[1..], e, frameCount, frame);
      assert o == [o[0]] + o[1..];
    }
  }

  /**
   * When the sweep as written stays in bounds, the table it leaves has
   * distinct keys, holds no stale entry, and holds only live entries it held
   * before, each at most as often: a sub-multiset of the reference. The
   * sweep may lose live entries (SweepAsWrittenDropsLiveEntry).
   */
  lemma SweepAsWrittenKeepsOnlyFresh<K>(slots: seq<Entry<K>>, count: int, frameCount: int, frame: int)
    requires 0 <= count <= |slots| && DistinctKeys(slots[..count])
    ensures SweepAsWritten(slots, count, count, frameCount, frame).Swept? ==>
              SweptKeeps(slots[..count], SweepAsWritten(slots, count, count, frameCount, frame), frameCount, frame)
    ensures SweepAsWritten(slots, count, count, frameCount, frame).Swept? ==>
              var r := SweepAsWritten(slots, count, count, frameCount, frame);
              multiset(r.slots[..r.count]) <= multiset(Fresh(slots[..count], frameCount, frame))
    ensures SweepAsWritten(slots, count, count, frameCount, frame).Swept? ==>
              var r := SweepAsWritten(slots, count, count, frameCount, frame);
              forall i :: 0 <= i < r.count ==> r.slots[i] in slots[..count]
  {
    var r := SweepAsWritten(slots, count, count, frameCount, frame);
    SweepAsWrittenSound(slots, count, count, frameCount, frame);
    if r.Swept? {
      var kept, o := r.slots[..r.count], slots[..count];
      forall e ensures multiset(kept)[e] <= multiset(Fresh(o, frameCount, frame))[e] {
        if e in kept {
          var i :| 0 <= i < |kept| && kept[i] == e;
          FreshCount(o, e, frameCount, frame);
        }
      }
      forall i | 0 <= i < r.count ensures r.slots[i] in o {
        assert kept[i] in multiset(kept);
      }
    }
  }

  /**
   * When the slots up to and including index count are all stale, as at
   * shutdown with a stale left-over past the last entry, the sweep as
   * written ends by reading index -1.
   */
  lemma {:induction false} SweepAsWrittenAllStaleUnderflows<K>(slots: seq<Entry<K>>, count: int, frameCount: int, frame: int)
    requires 0 <= count < |slots|
    requires forall i :: 0 <= i <= count ==> Stale(slots[i], frameCount, frame)
    ensures SweepAsWritten(slots, count, count, frameCount, frame) == OutOfBounds(-1)
    decreases count
  {
    if count > 0 {
      var next := slots[count := slots[count - 1]];
      SweepAsWrittenAllStaleUnderflows(next, count - 1, frameCount, frame);
    }
  }

  /** The first out-of-bounds index of three sweeps run one after the other. */
  function FirstFault<A, B, C>(a: Sweep<A>, b: Sweep<B>, c: Sweep<C>): (r: Option<int>)
    ensures r.None? <==> a.Swept? && b.Swept? && c.Swept?
    ensures a.OutOfBounds? ==> r == Some(a.index)
    ensures a.Swept? && b.OutOfBounds? ==> r == Some(b.index)
    ensures a.Swept? && b.Swept? && c.OutOfBounds? ==> r == Some(c.index)
  {
    if a.OutOfBounds? then Some(a.index)
    else if b.OutOfBounds? then Some(b.index)
    else if c.OutOfBounds? then Some(c.index)
    else None
  }

  /** One of the three caches: `count` live entries at the front of `slots`. */
  class Table<K(==)> {
    const slots: array<Entry<K>>
    var count: int

    ghost function Entries(): seq<Entry<K>>
      reads this, slots
      requires 0 <= count <= slots.Length
    {
      slots[..count]
    }

    /** Never more entries than slots, never two entries for one key. */
    ghost predicate Valid()
      reads this, slots
    {
      slots.Length == Capacity && 0 <= count <= Capacity && DistinctKeys(Entries())
    }

    /** The table of a freshly created renderer: no entries; the slots hold `filler`. */
    constructor Init(filler: Entry<K>)
      ensures Valid() && fresh(slots) && Entries() == []
    {
      slots := new Entry<K>[Capacity](_ => filler);
      count := 0;
    }

    /**
     * The lookup of rendererShaderModelCommand, rendererMeshModelCommand and
     * rendererInstanceModelCommand: find the entry for `key`, append one on a
     * miss (the source asserts there is room), stamp it with `frame` and
     * return its index.
     */
    method FindOrAppend(key: K, frame: int) returns (i: nat)
      requires Valid()
      requires IndexOf(Entries(), key).Some? || count < Capacity
      modifies this, slots
      ensures Valid()
      ensures Entries() == Touch(old(Entries()), key, frame)
      ensures i < count && slots[i] == Entry(key, frame)
      ensures slots[..] == old(slots[..])[i := Entry(key, frame)]
      ensures IndexOf(old(Entries()), key).Some? ==> Some(i) == IndexOf(old(Entries()), key)
      ensures IndexOf(old(Entries()), key).None? ==> i == old(count)
    {
      var x := 0;
      while x < count
        invariant 0 <= x <= count
        invariant forall k :: 0 <= k < x ==> slots[k].key != key
      {
        if slots[x].key == key {
          break;
        }
        x := x + 1;
      }
      ghost var before := Entries();
      TouchKeepsDistinct(before, key, frame);
      if x == count {
        slots[count] := Entry(key, frame);
        count := count + 1;
        assert Entries() == before + [Entry(key, frame)];
      } else {
        IndexOfIs(before, key, x);
        slots[x] := Entry(key, frame);
        assert Entries() == before[x := Entry(key, frame)];
      }
      i := x;
    }

    /** The swap-remove of the sweep: the last of the first n entries is copied into slot x. */
    method MoveLastInto(x: nat, n: nat)
      requires x < n <= slots.Length
      modifies slots
      ensures slots[..n - 1] == SwapRemove(old(slots[..n]), x)
    {
      slots[x] := slots[n - 1];
      assert slots[..n - 1] == SwapRemove(old(slots[..n]), x);
    }

    /** The outcome of the sweep as written on this table. */
    ghost function SweepOutcome(frameCount: int, frame: int): Sweep<K>
      reads this, slots
      requires 0 <= count <= slots.Length
    {
      SweepAsWritten(slots[..], count, count, frameCount, frame)
    }

    /**
     * One table's loop of rendererDestroyStaleData as written: from index
     * count down to 0, each stale entry is overwritten by the entry at
     * count - 1 and the count drops. The first out-of-bounds read, whose
     * effect C leaves undefined, ends the sweep and is reported.
     */
    method DestroyStale(frameCount: int, frame: int) returns (fault: Option<int>)
      requires Valid()
      modifies this, slots
      ensures fault.Some? ==> old(SweepOutcome(frameCount, frame)) == OutOfBounds(fault.value)
      ensures fault.None? ==> Valid() && SweptTo(this, old(SweepOutcome(frameCount, frame)), old(Entries()), frameCount, frame)
      ensures fault.None? ==> forall i :: 0 <= i < |Entries()| ==> Entries()[i] in old(Entries())
    {
      ghost var target := SweepOutcome(frameCount, frame);
      SweepAsWrittenKeepsOnlyFresh(slots[..], count, frameCount, frame);
      assert slots[..][..count] == Entries();
      var x := count;
      while x >= 0
        invariant -1 <= x <= count <= slots.Length && 0 <= count
        invariant SweepAsWritten(slots[..], count, x, frameCount, frame) == target
        decreases x + 1
      {
        if x == slots.Length {
          return Some(x);
        }
        if Stale(slots[x], frameCount, frame) {
          if count == 0 {
            return Some(-1);
          }
          slots[x] := slots[count - 1];
          count := count - 1;
        }
        x := x - 1;
      }
      assert slots[..][..count] == Entries();
      return None;
    }

    /**
     * The intended sweep: from the last live entry (index count - 1) down
     * to 0, swap-removing each stale entry.
     */
    method DestroyStaleFixed(frameCount: int, frame: int)
      requires Valid()
      modifies this, slots
      ensures Valid()
      ensures multiset(Entries()) == multiset(Fresh(old(Entries()), frameCount, frame))
      ensures forall i :: 0 <= i < |Entries()| ==> !Stale(Entries()[i], frameCount, frame)
      ensures forall i :: 0 <= i < |old(Entries())| && !Stale(old(Entries())[i], frameCount, frame) ==>
                old(Entries())[i] in Entries()
      ensures forall i :: 0 <= i < |Entries()| ==> Entries()[i] in old(Entries())
    {
      ghost var o := Entries();
      var n := count;
      var x := n;
      ghost var cur := o;
      SweepStart(o, frameCount, frame);
      while x > 0
        invariant 0 <= x <= n <= slots.Length == Capacity
        invariant cur == slots[..n]
        invariant SweepInv(o, x, cur, frameCount, frame)
      {
        x := x - 1;
        SweepInvStep(o, x, cur, frameCount, frame);
        if Stale(slots[x], frameCount, frame) {
          MoveLastInto(x, n);
          n := n - 1;
          cur := SwapRemove(cur, x);
        }
      }
      count := n;
      SweepDone(o, cur, frameCount, frame);
    }
  }

  /** No entry of a table is stamped later than `bound`. */
  ghost predicate StampsAtMost<K>(entries: seq<Entry<K>>, bound: int) {
    forall i :: 0 <= i < |entries| ==> entries[i].stamp <= bound
  }

  /** A bound on the stamps stays a bound when the frame advances. */
  lemma StampsLater<K>(entries: seq<Entry<K>>, bound: int)
    requires StampsAtMost(entries, bound)
    ensures StampsAtMost(entries, bound + 1)
  {
  }

  /** Keeping only entries that were already there keeps every stamp within the bound. */
  lemma StampsKept<K>(before: seq<Entry<K>>, after: seq<Entry<K>>, bound: int)
    requires StampsAtMost(before, bound)
    requires forall i :: 0 <= i < |after| ==> after[i] in before
    ensures StampsAtMost(after, bound)
  {
    forall i | 0 <= i < |after| ensures after[i].stamp <= bound {
      var k :| 0 <= k < |before| && before[k] == after[i];
    }
  }

  /** When every entry is stale, the live entries are none. */
  lemma AllStaleNoneFresh<K>(entries: seq<Entry<K>>, frameCount: int, frame: int)
    requires forall i :: 0 <= i < |entries| ==> Stale(entries[i], frameCount, frame)
    ensures Fresh(entries, frameCount, frame) == []
  {
    FreshMembers(entries, frameCount, frame);
  }

  /** The slot of the per-frame GPU resources: frame_counter % gpu_frame_count. */
  function FrameSlot(frameCounter: int, frameCount: int): (r: int)
    requires frameCounter >= 0 && frameCount > 0
    ensures 0 <= r < frameCount
    ensures frameCounter < frameCount ==> r == frameCounter
  {
    frameCounter % frameCount
  }

  /**
   * Frames less than gpu_frame_count apart use different slots, so an
   * instance's per-frame uniform buffer is not rewritten while an earlier
   * frame in flight may still read it.
   */
  lemma FrameSlotsDistinct(f: int, g: int, frameCount: int)
    requires 0 <= f < g < f + frameCount
    ensures FrameSlot(f, frameCount) != FrameSlot(g, frameCount)
  {
    ModDistinct(f, g, frameCount);
  }

  /** The render thread's caches and frame counter. */
  class Renderer {
    const shaders: Table<ShaderInfo>
    const meshes: Table<MeshInfo>
    const instances: Table<Entity>
    var frameCounter: int
    const gpuFrameCount: int

    /** Each table is sound and no entry is stamped with a frame not yet reached. */
    ghost predicate Valid()
      reads this, shaders, meshes, instances, shaders.slots, meshes.slots, instances.slots
    {
      && shaders.Valid() && meshes.Valid() && instances.Valid()
      && frameCounter >= 0 && gpuFrameCount > 0
      && StampsAtMost(shaders.Entries(), frameCounter)
      && StampsAtMost(meshes.Entries(), frameCounter)
      && StampsAtMost(instances.Entries(), frameCounter)
    }

    /**
     * rendererCreate with the frame count the GPU reports: empty tables and
     * frame 0. The slots are uninitialised heap memory; `shader`, `mesh` and
     * `instance` stand for whatever they hold.
     */
    constructor Create(gpuFrameCount: int, shader: Entry<ShaderInfo>, mesh: Entry<MeshInfo>, instance: Entry<Entity>)
      requires gpuFrameCount > 0
      ensures Valid() && frameCounter == 0 && this.gpuFrameCount == gpuFrameCount
      ensures shaders.Entries() == [] && meshes.Entries() == [] && instances.Entries() == []
      ensures fresh(shaders) && fresh(meshes) && fresh(instances)
      ensures fresh(shaders.slots) && fresh(meshes.slots) && fresh(instances.slots)
    {
      shaders := new Table.Init(shader);
      meshes := new Table.Init(mesh);
      instances := new Table.Init(instance);
      frameCounter := 0;
      this.gpuFrameCount := gpuFrameCount;
    }

    /** rendererShaderModelCommand: the shader entry for the command, stamped with this frame. */
    method ShaderModelCommand(shader: ShaderInfo) returns (i: nat)
      requires Valid()
      requires IndexOf(shaders.Entries(), shader).Some? || shaders.count < Capacity
      modifies shaders, shaders.slots
      ensures Valid()
      ensures shaders.Entries() == Touch(old(shaders.Entries()), shader, frameCounter)
      ensures i < shaders.count && shaders.slots[i] == Entry(shader, frameCounter)
      ensures shaders.slots[..] == old(shaders.slots[..])[i := Entry(shader, frameCounter)]
    {
      i := shaders.FindOrAppend(shader, frameCounter);
      KeepStamps(old(shaders.Entries()), shader, frameCounter);
    }

    /** rendererMeshModelCommand: the mesh entry for the command, stamped with this frame. */
    method MeshModelCommand(mesh: MeshInfo) returns (i: nat)
      requires Valid()
      requires IndexOf(meshes.Entries(), mesh).Some? || meshes.count < Capacity
      modifies meshes, meshes.slots
      ensures Valid()
      ensures meshes.Entries() == Touch(old(meshes.Entries()), mesh, frameCounter)
      ensures i < meshes.count && meshes.slots[i] == Entry(mesh, frameCounter)
      ensures meshes.slots[..] == old(meshes.slots[..])[i := Entry(mesh, frameCounter)]
    {
      i := meshes.FindOrAppend(mesh, frameCounter);
      KeepStamps(old(meshes.Entries()), mesh, frameCounter);
    }

    /**
     * rendererInstanceModelCommand: the instance entry for the entity, stamped
     * with this frame, and the per-frame slot whose uniform buffer it updates.
     */
    method InstanceModelCommand(entity: Entity) returns (i: nat, frameIndex: int)
      requires Valid()
      requires IndexOf(instances.Entries(), entity).Some? || instances.count < Capacity
      modifies instances, instances.slots
      ensures Valid()
      ensures instances.Entries() == Touch(old(instances.Entries()), entity, frameCounter)
      ensures i < instances.count && instances.slots[i] == Entry(entity, frameCounter)
      ensures instances.slots[..] == old(instances.slots[..])[i := Entry(entity, frameCounter)]
      ensures frameIndex == FrameSlot(frameCounter, gpuFrameCount)
    {
      i := instances.FindOrAppend(entity, frameCounter);
      KeepStamps(old(instances.Entries()), entity, frameCounter);
      frameIndex := frameCounter % gpuFrameCount;
    }

    /**
     * rendererDestroyStaleData as written: the instance table, then the mesh
     * table, then the shader table. The first out-of-bounds read ends it and
     * is reported; otherwise every table is left with live entries only.
     */
    method DestroyStaleData() returns (fault: Option<int>)
      requires Valid()
      modifies shaders, shaders.slots, meshes, meshes.slots, instances, instances.slots
      ensures fault == FirstFault(old(instances.SweepOutcome(gpuFrameCount, frameCounter)),
                                  old(meshes.SweepOutcome(gpuFrameCount, frameCounter)),
                                  old(shaders.SweepOutcome(gpuFrameCount, frameCounter)))
      ensures fault.None? ==> Valid()
      ensures fault.None? ==> SweptTo(instances, old(instances.SweepOutcome(gpuFrameCount, frameCounter)), old(instances.Entries()), gpuFrameCount, frameCounter)
      ensures fault.None? ==> SweptTo(meshes, old(meshes.SweepOutcome(gpuFrameCount, frameCounter)), old(meshes.Entries()), gpuFrameCount, frameCounter)
      ensures fault.None? ==> SweptTo(shaders, old(shaders.SweepOutcome(gpuFrameCount, frameCounter)), old(shaders.Entries()), gpuFrameCount, frameCounter)
    {
      ghost var ss, ms := shaders.slots[..], meshes.slots[..];
      ghost var so, mo := shaders.SweepOutcome(gpuFrameCount, frameCounter), meshes.SweepOutcome(gpuFrameCount, frameCounter);
      fault := SweepTable(instances, gpuFrameCount, frameCounter, frameCounter);
      if fault.Some? {
        return;
      }
      assert shaders.slots[..] == ss && meshes.slots[..] == ms;
      assert meshes.SweepOutcome(gpuFrameCount, frameCounter) == mo;
      fault := SweepTable(meshes, gpuFrameCount, frameCounter, frameCounter);
      if fault.Some? {
        return;
      }
      assert shaders.slots[..] == ss;
      assert shaders.SweepOutcome(gpuFrameCount, frameCounter) == so;
      fault := SweepTable(shaders, gpuFrameCount, frameCounter, frameCounter);
    }

    /**
     * The end of a frame on the render thread: the stale sweep runs, the
     * frame counter advances, and the next per-frame slot is returned.
     */
    method FrameComplete() returns (frameIndex: int, fault: Option<int>)
      requires Valid()
      modifies this, shaders, shaders.slots, meshes, meshes.slots, instances, instances.slots
      ensures frameCounter == old(frameCounter) + 1
      ensures fault == FirstFault(old(instances.SweepOutcome(gpuFrameCount, frameCounter)),
                                  old(meshes.SweepOutcome(gpuFrameCount, frameCounter)),
                                  old(shaders.SweepOutcome(gpuFrameCount, frameCounter)))
      ensures fault.None? ==> Valid()
      ensures fault.None? ==> SweptTo(instances, old(instances.SweepOutcome(gpuFrameCount, frameCounter)), old(instances.Entries()), gpuFrameCount, old(frameCounter))
      ensures fault.None? ==> SweptTo(meshes, old(meshes.SweepOutcome(gpuFrameCount, frameCounter)), old(meshes.Entries()), gpuFrameCount, old(frameCounter))
      ensures fault.None? ==> SweptTo(shaders, old(shaders.SweepOutcome(gpuFrameCount, frameCounter)), old(shaders.Entries()), gpuFrameCount, old(frameCounter))
      ensures frameIndex == FrameSlot(frameCounter, gpuFrameCount)
    {
      fault := DestroyStaleData();
      if fault.None? {
        StampsLater(shaders.Entries(), frameCounter);
        StampsLater(meshes.Entries(), frameCounter);
        StampsLater(instances.Entries(), frameCounter);
      }
      frameCounter := frameCounter + 1;
      frameIndex := frameCounter % gpuFrameCount;
    }

    /**
     * The render thread's shutdown: the frame counter jumps past every
     * stamp by more than gpu_frame_count and the sweep runs once more. When
     * it stays in bounds it empties all three tables; when the slot past the
     * last entry is stale too, it reads index -1
     * (SweepAsWrittenAllStaleUnderflows).
     */
    method Shutdown() returns (fault: Option<int>)
      requires Valid()
      modifies this, shaders, shaders.slots, meshes, meshes.slots, instances, instances.slots
      ensures frameCounter == old(frameCounter) + gpuFrameCount + 1
      ensures fault == FirstFault(old(instances.SweepOutcome(gpuFrameCount, frameCounter + gpuFrameCount + 1)),
                                  old(meshes.SweepOutcome(gpuFrameCount, frameCounter + gpuFrameCount + 1)),
                                  old(shaders.SweepOutcome(gpuFrameCount, frameCounter + gpuFrameCount + 1)))
      ensures fault.None? ==> Valid()
      ensures fault.None? ==> shaders.Entries() == [] && meshes.Entries() == [] && instances.Entries() == []
    {
      frameCounter := frameCounter + gpuFrameCount + 1;
      ghost var s0, m0, i0 := shaders.Entries(), meshes.Entries(), instances.Entries();
      AllStaleNoneFresh(s0, gpuFrameCount, frameCounter);
      AllStaleNoneFresh(m0, gpuFrameCount, frameCounter);
      AllStaleNoneFresh(i0, gpuFrameCount, frameCounter);
      fault := DestroyStaleData();
      if fault.None? {
        NoneLeft(shaders.Entries(), s0, gpuFrameCount, frameCounter);
        NoneLeft(meshes.Entries(), m0, gpuFrameCount, frameCounter);
        NoneLeft(instances.Entries(), i0, gpuFrameCount, frameCounter);
      }
    }
  }

  /** One table's sweep as written, keeping a bound on its stamps. */
  method SweepTable<K>(t: Table<K>, frameCount: int, frame: int, ghost bound: int) returns (fault: Option<int>)
    requires t.Valid() && StampsAtMost(t.Entries(), bound)
    modifies t, t.slots
    ensures fault.Some? ==> old(t.SweepOutcome(frameCount, frame)) == OutOfBounds(fault.value)
    ensures fault.None? ==> t.Valid() && StampsAtMost(t.Entries(), bound)
    ensures fault.None? ==> SweptTo(t, old(t.SweepOutcome(frameCount, frame)), old(t.Entries()), frameCount, frame)
  {
    ghost var before := t.Entries();
    fault := t.DestroyStale(frameCount, frame);
    if fault.None? {
      StampsKept(before, t.Entries(), bound);
    }
  }

  /**
   * A table after the sweep as written stayed in bounds: its array and
   * count are the sweep's outcome, and it keeps only live entries it had.
   */
  ghost predicate SweptTo<K>(t: Table<K>, outcome: Sweep<K>, before: seq<Entry<K>>, frameCount: int, frame: int)
    reads t, t.slots
  {
    && 0 <= t.count <= t.slots.Length
    && outcome == Swept(t.slots[..], t.count)
    && LiveSubset(t.Entries(), before, frameCount, frame)
  }

  /** A table after a sweep: no entry is stale, and the entries are among the live ones before it. */
  ghost predicate LiveSubset<K>(after: seq<Entry<K>>, before: seq<Entry<K>>, frameCount: int, frame: int) {
    && (forall i :: 0 <= i < |after| ==> !Stale(after[i], frameCount, frame))
    && multiset(after) <= multiset(Fresh(before, frameCount, frame))
  }

  /** When nothing was live, a sweep that keeps only live entries leaves none. */
  lemma NoneLeft<K>(after: seq<Entry<K>>, before: seq<Entry<K>>, frameCount: int, frame: int)
    requires LiveSubset(after, before, frameCount, frame) && Fresh(before, frameCount, frame) == []
    ensures after == []
  {
    assert |multiset(after)| == 0;
  }

  /** A lookup stamped with the current frame keeps every stamp at most that frame. */
  lemma KeepStamps<K>(entries: seq<Entry<K>>, key: K, frame: int)
    requires DistinctKeys(entries) && StampsAtMost(entries, frame)
    ensures StampsAtMost(Touch(entries, key, frame), frame)
  {
    TouchKeepsTable(entries, key, frame);
  }
}
