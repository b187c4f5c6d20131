/** The open-addressing HashMap of structures/HashMap.hpp: a slot array,
    triangular probing from hash % capacity, growth by doubling when more
    than 60% of the slots are used. The hash functor is a parameter. */
module OpenHashMap {

  import opened Wrappers
  import opened IntArith

  datatype Slot<K, V> = Empty | Full(key: K, value: V)

  /** The C++ `_capacity` is the length of `slots`. */
  datatype HashMap<!K, V> = HashMap(hash: K -> nat, slots: seq<Slot<K, V>>, size: nat)

  /** Triangular numbers: the offset of the j-th probe from the home slot. */
  function Tri(j: nat): nat {
    if j == 0 then 0 else Tri(j - 1) + j
  }

  /** The j-th slot getMapIndex inspects for hash value h. */
  function Probe(h: nat, j: nat, c: nat): (p: nat)
    requires c > 0
    ensures p < c
  {
    (h + Tri(j)) % c
  }

  /** A probe stops at a free slot or at the slot holding the key. */
  predicate Stops<K(==,!new), V>(s: Slot<K, V>, k: K) {
    s.Empty? || s.key == k
  }

  /** The probe sequence repeats with period 2c, so the first 2c probes
      are all the slots it will ever inspect. */
  function FindFrom<K(==,!new), V>(slots: seq<Slot<K, V>>, k: K, h: nat, j: nat): (r: Option<nat>)
    requires |slots| > 0
    ensures r.Some? ==> r.value < |slots| && Stops(slots[r.value], k)
    ensures r.None? ==> forall j' | j <= j' < 2 * |slots| :: !Stops(slots[Probe(h, j', |slots|)], k)
    decreases 2 * |slots| - j
  {
    if j >= 2 * |slots| then None
    else if Stops(slots[Probe(h, j, |slots|)], k) then Some(Probe(h, j, |slots|))
    else FindFrom(slots, k, h, j + 1)
  }

  /** getMapIndex; None when the C++ loop never ends (see ProbingNeverEnds). */
  function FindSlot<K(==,!new), V>(m: HashMap<K, V>, k: K): Option<nat>
    requires |m.slots| > 0
  {
    FindFrom(m.slots, k, m.hash(k), 0)
  }

  /** The reference content of the map: the value of the last slot that
      holds key k, read left to right with no hashing at all. */
  function Scan<K(==,!new), V>(slots: seq<Slot<K, V>>, k: K): (r: Option<V>)
    ensures r.Some? <==> exists i | 0 <= i < |slots| :: slots[i].Full? && slots[i].key == k
  {
    if slots == [] then None
    else
      var last := slots[|slots| - 1];
      if last.Full? && last.key == k then Some(last.value)
      else
        var r := Scan(slots[..|slots| - 1], k);
        assert forall i | 0 <= i < |slots| - 1 :: slots[..|slots| - 1][i] == slots[i];
        r
  }

  function CountFull<K, V>(slots: seq<Slot<K, V>>): (n: nat)
    ensures n <= |slots|
  {
    if slots == [] then 0
    else CountFull(slots[..|slots| - 1]) + (if slots[|slots| - 1].Full? then 1 else 0)
  }

  /** No key sits in two slots. */
  predicate UniqueKeys<K(==,!new), V>(slots: seq<Slot<K, V>>) {
    forall i, j | 0 <= i < j < |slots| && slots[i].Full? && slots[j].Full? :: slots[i].key != slots[j].key
  }

  /** The class invariant: a positive capacity, `size` counts the used
      slots, and every stored key is where getMapIndex looks for it. */
  predicate Valid<K(==,!new), V>(m: HashMap<K, V>) {
    && |m.slots| > 0
    && m.size == CountFull(m.slots)
    && forall i | 0 <= i < |m.slots| && m.slots[i].Full? :: FindSlot(m, m.slots[i].key) == Some(i)
  }

  /** The constructor: `capacity` free slots. A zero capacity would make
      every later operation divide by zero. */
  function New<K(==,!new), V>(hash: K -> nat, capacity: nat): (m: HashMap<K, V>)
    requires capacity > 0
    ensures Valid(m) && m.hash == hash && |m.slots| == capacity && m.size == 0
    ensures forall i | 0 <= i < |m.slots| :: m.slots[i].Empty?
    ensures forall k :: Scan(m.slots, k) == None
  {
    var slots := seq(capacity, _ => Empty);
    CountEmpty(slots);
    HashMap(hash, slots, 0)
  }

  lemma {:induction false} CountEmpty<K, V>(slots: seq<Slot<K, V>>)
    requires forall i | 0 <= i < |slots| :: slots[i].Empty?
    ensures CountFull(slots) == 0
  {
    if slots != [] {
      CountEmpty(slots[..|slots| - 1]);
    }
  }

  /** The growth test `_size > _capacity*0.6`, with 0.6 taken exactly. */
  predicate NeedsResize<K, V>(m: HashMap<K, V>) {
    5 * m.size > 3 * |m.slots|
  }

  /** The store at the end of add: the slot gets the key and the value and
      the size grows when the slot was free. */
  function Insert<K, V>(m: HashMap<K, V>, k: K, v: V, p: nat): HashMap<K, V>
    requires p < |m.slots|
  {
    m.(slots := m.slots[p := Full(k, v)], size := m.size + (if m.slots[p].Empty? then 1 else 0))
  }

  // ---------------------------------------------------------------------
  // Probing

  lemma ProbeStep(h: nat, j: nat, c: nat)
    requires c > 0
    ensures Probe(h, j + 1, c) == (Probe(h, j, c) + j + 1) % c
  {
    var t := h + Tri(j);
    assert h + Tri(j + 1) == t + (j + 1);
    ModAdd(t, j + 1, c);
    assert (t % c + (j + 1)) % c == (t + (j + 1)) % c;
  }

  lemma {:induction false} TriShift(j: nat, n: nat)
    ensures Tri(j + n) == Tri(j) + n * j + Tri(n)
  {
    if n > 0 {
      TriShift(j, n - 1);
      MulSucc(n - 1, j);
    }
  }

  lemma {:induction false} TriTwice(n: nat)
    ensures 2 * Tri(n) == n * (n + 1)
  {
    if n > 0 {
      TriTwice(n - 1);
      assert n * (n + 1) == (n - 1) * n + 2 * n;
    }
  }

  lemma ProbePeriodic(h: nat, j: nat, c: nat)
    requires c > 0
    ensures Probe(h, j + 2 * c, c) == Probe(h, j, c)
  {
    var k := 2 * j + 2 * c + 1;
    TriOfTwoPeriods(j, c);
    assert h + Tri(j + 2 * c) == (h + Tri(j)) + k * c;
    ModAddMultiple(h + Tri(j), k, c);
  }

  /** The products of TriOfTwoPeriods in terms of c * j and c * c. */
  lemma Expand(c: nat, j: nat, m: nat, q: nat)
    requires m == c * j && q == c * c
    ensures 2 * c * j == 2 * m
    ensures 2 * c * (2 * c + 1) == 2 * (2 * q + c)
    ensures (2 * j + 2 * c + 1) * c == 2 * m + 2 * q + c
  {
  }

  /** 2c more probes add a multiple of c to the triangular offset. */
  lemma TriOfTwoPeriods(j: nat, c: nat)
    ensures Tri(j + 2 * c) == Tri(j) + (2 * j + 2 * c + 1) * c
  {
    TriShift(j, 2 * c);
    TriTwice(2 * c);
    var m, q := c * j, c * c;
    Expand(c, j, m, q);
    assert Tri(2 * c) == 2 * q + c;
  }

  /** Every probe repeats one of the first 2c. */
  lemma {:induction false} ProbeReduce(h: nat, j: nat, c: nat) returns (j0: nat)
    requires c > 0
    ensures j0 < 2 * c && Probe(h, j, c) == Probe(h, j0, c)
    decreases j
  {
    if j < 2 * c {
      j0 := j;
    } else {
      ProbePeriodic(h, j - 2 * c, c);
      j0 := ProbeReduce(h, j - 2 * c, c);
    }
  }

  /** getMapIndex as written: the incremental `index = (index + i++) % cap`
      walk, cut off after 2c probes. It computes FindSlot. */
  method GetMapIndex<K(==,!new), V>(m: HashMap<K, V>, k: K) returns (r: Option<nat>)
    requires |m.slots| > 0
    ensures r == FindSlot(m, k)
  {
    var c := |m.slots|;
    var h := m.hash(k);
    var index := h % c;
    var i := 1;
    while !Stops(m.slots[index], k)
      invariant 1 <= i <= 2 * c
      invariant index == Probe(h, i - 1, c)
      invariant FindFrom(m.slots, k, h, i - 1) == FindSlot(m, k)
      decreases 2 * c - i
    {
      if i == 2 * c {
        return None;
      }
      ProbeStep(h, i - 1, c);
      index := (index + i) % c;
      i := i + 1;
    }
    r := Some(index);
  }

  /** FindSlot fails exactly when no probe, however far, would stop: the
      C++ loop then runs forever. */
  lemma ProbingNeverEnds<K(!new), V>(m: HashMap<K, V>, k: K)
    requires |m.slots| > 0
    ensures FindSlot(m, k).None? <==>
            forall j: nat :: !Stops(m.slots[Probe(m.hash(k), j, |m.slots|)], k)
  {
    var c := |m.slots|;
    var h := m.hash(k);
    if FindSlot(m, k).None? {
      forall j: nat ensures !Stops(m.slots[Probe(h, j, c)], k) {
        var j0 := ProbeReduce(h, j, c);
      }
    } else {
      FindSlotReached(m.slots, k, h, 0);
    }
  }

  lemma {:induction false} FindSlotReached<K(!new), V>(slots: seq<Slot<K, V>>, k: K, h: nat, j: nat)
    requires |slots| > 0 && FindFrom(slots, k, h, j).Some?
    ensures exists j' | j <= j' :: FindFrom(slots, k, h, j).value == Probe(h, j', |slots|)
    decreases 2 * |slots| - j
  {
    if !Stops(slots[Probe(h, j, |slots|)], k) {
      FindSlotReached(slots, k, h, j + 1);
    }
  }

  // ---------------------------------------------------------------------
  // Lookup

  lemma ValidKeysUnique<K(!new), V>(m: HashMap<K, V>)
    requires Valid(m)
    ensures UniqueKeys(m.slots)
  {
  }

  /** With unique keys, the scan finds the value of the slot holding the key. */
  lemma {:induction false} ScanAt<K(!new), V>(slots: seq<Slot<K, V>>, i: nat)
    requires UniqueKeys(slots) && i < |slots| && slots[i].Full?
    ensures Scan(slots, slots[i].key) == Some(slots[i].value)
  {
    var n := |slots| - 1;
    if i < n {
      var pre := slots[..n];
      assert pre[i] == slots[i];
      assert UniqueKeys(pre) by {
        forall a, b | 0 <= a < b < |pre| && pre[a].Full? && pre[b].Full?
          ensures pre[a].key != pre[b].key
        {
          assert pre[a] == slots[a] && pre[b] == slots[b];
        }
      }
      ScanAt(pre, i);
    }
  }

  /** Where getMapIndex stops tells whether the key is stored. */
  lemma FoundSlotMeaning<K(!new), V>(m: HashMap<K, V>, k: K, p: nat)
    requires Valid(m) && FindSlot(m, k) == Some(p)
    ensures m.slots[p].Empty? <==> Scan(m.slots, k).None?
    ensures m.slots[p].Full? ==> Scan(m.slots, k) == Some(m.slots[p].value)
  {
    if m.slots[p].Full? {
      ScanAt(m.slots, p);
    }
  }

  /** A stored key is always found. */
  lemma PresentIsFound<K(!new), V>(m: HashMap<K, V>, k: K)
    requires Valid(m)
    ensures Scan(m.slots, k).Some? ==> FindSlot(m, k).Some?
  {
  }

  /** HashMap::get: the stored value, or the default value when the key is
      absent. Failure stands for a probe loop that never ends. */
  function Get<K(==,!new), V>(m: HashMap<K, V>, k: K, default: V): (r: Result<V>)
    requires Valid(m)
    ensures r.Success? ==> r.value == Scan(m.slots, k).GetOr(default)
    ensures Scan(m.slots, k).Some? ==> r.Success?
  {
    match FindSlot(m, k)
    case None => Failure("probing never reaches a free slot")
    case Some(p) =>
      FoundSlotMeaning(m, k, p);
      Success(if m.slots[p].Empty? then default else m.slots[p].value)
  }

  /** HashMap::contain. */
  function Contain<K(==,!new), V>(m: HashMap<K, V>, k: K): (r: Result<bool>)
    requires Valid(m)
    ensures r.Success? ==> (r.value <==> Scan(m.slots, k).Some?)
    ensures Scan(m.slots, k).Some? ==> r.Success?
  {
    match FindSlot(m, k)
    case None => Failure("probing never reaches a free slot")
    case Some(p) =>
      FoundSlotMeaning(m, k, p);
      Success(!m.slots[p].Empty?)
  }

  // ---------------------------------------------------------------------
  // Insertion

  /** Writing a slot that is off the probe path, or that keeps its key,
      leaves the result of probing unchanged. */
  lemma {:induction false} FindFromUpdate<K(!new), V>(slots: seq<Slot<K, V>>, k: K, h: nat, j: nat,
                                                     i: nat, x: Slot<K, V>, p: nat)
    requires |slots| > 0 && i < |slots| && x.Full?
    requires FindFrom(slots, k, h, j) == Some(p)
    requires i == p ==> x.key == k
    requires i != p ==> slots[i].Empty? || slots[i].key == x.key
    ensures FindFrom(slots[i := x], k, h, j) == Some(p)
    decreases 2 * |slots| - j
  {
    var q := Probe(h, j, |slots|);
    if !Stops(slots[q], k) {
      FindFromUpdate(slots, k, h, j + 1, i, x, p);
    }
  }

  lemma {:induction false} CountUpdate<K, V>(slots: seq<Slot<K, V>>, p: nat, x: Slot<K, V>)
    requires p < |slots| && x.Full?
    ensures CountFull(slots[p := x]) == CountFull(slots) + (if slots[p].Empty? then 1 else 0)
  {
    var n := |slots| - 1;
    var s2 := slots[p := x];
    if p < n {
      assert s2[..n] == slots[..n][p := x];
      CountUpdate(slots[..n], p, x);
    } else {
      assert s2[..n] == slots[..n];
    }
  }

  /** Writing a slot that neither held nor receives key k does not change
      what the scan finds for k. */
  lemma {:induction false} ScanUpdateOther<K(!new), V>(slots: seq<Slot<K, V>>, p: nat, x: Slot<K, V>, k: K)
    requires p < |slots|
    requires !(slots[p].Full? && slots[p].key == k) && !(x.Full? && x.key == k)
    ensures Scan(slots[p := x], k) == Scan(slots, k)
  {
    var n := |slots| - 1;
    var s2 := slots[p := x];
    if p < n {
      assert s2[..n] == slots[..n][p := x];
      ScanUpdateOther(slots[..n], p, x, k);
    } else {
      assert s2[..n] == slots[..n];
    }
  }

  /** Storing at the slot getMapIndex returned keeps the invariant, binds
      the key to the value and leaves every other key's binding alone. */
  lemma InsertCorrect<K(!new), V>(m: HashMap<K, V>, k: K, v: V, p: nat)
    requires Valid(m) && FindSlot(m, k) == Some(p)
    ensures Valid(Insert(m, k, v, p))
    ensures Insert(m, k, v, p).size == m.size + (if Scan(m.slots, k).None? then 1 else 0)
    ensures Scan(Insert(m, k, v, p).slots, k) == Some(v)
    ensures forall k' | k' != k :: Scan(Insert(m, k, v, p).slots, k') == Scan(m.slots, k')
  {
    var m2 := Insert(m, k, v, p);
    var x := Full(k, v);
    FoundSlotMeaning(m, k, p);
    CountUpdate(m.slots, p, x);
    forall q | 0 <= q < |m2.slots| && m2.slots[q].Full?
      ensures FindSlot(m2, m2.slots[q].key) == Some(q)
    {
      if q == p {
        FindFromUpdate(m.slots, k, m.hash(k), 0, p, x, p);
      } else {
        var k2 := m.slots[q].key;
        FindFromUpdate(m.slots, k2, m.hash(k2), 0, p, x, q);
      }
    }
    assert Valid(m2);
    ScanAt(m2.slots, p);
    forall k' | k' != k ensures Scan(m2.slots, k') == Scan(m.slots, k') {
      ScanUpdateOther(m.slots, p, x, k');
    }
  }

  /** The store at the end of add: probe, then write the slot. */
  function Store<K(==,!new), V>(m: HashMap<K, V>, k: K, v: V): (r: Result<HashMap<K, V>>)
    requires Valid(m)
    ensures r.Success? ==> Valid(r.value) && r.value.hash == m.hash && |r.value.slots| == |m.slots|
    ensures r.Success? ==> Scan(r.value.slots, k) == Some(v)
    ensures r.Success? ==> forall k' | k' != k :: Scan(r.value.slots, k') == Scan(m.slots, k')
    ensures r.Success? ==> r.value.size == m.size + (if Scan(m.slots, k).None? then 1 else 0)
    ensures Scan(m.slots, k).Some? ==> r.Success?
  {
    match FindSlot(m, k)
    case None =>
      PresentIsFound(m, k);
      Failure("probing never reaches a free slot")
    case Some(p) =>
      InsertCorrect(m, k, v, p);
      Success(Insert(m, k, v, p))
  }

  /** While the old entries are re-added to a table of twice the capacity,
      that table is never more than half full, so the growth test inside
      the nested add is false and each re-add is a plain store. */
  lemma RehashNeverGrows<K, V>(m: HashMap<K, V>, t: HashMap<K, V>, i: nat)
    requires i <= |m.slots| && |t.slots| == 2 * |m.slots|
    requires t.size == CountFull(m.slots[..i])
    ensures 2 * t.size <= |t.slots|
    ensures |m.slots| > 0 ==> !NeedsResize(t)
  {
  }

  /** A key stored at slot i does not occur in the slots before it. */
  lemma ScanNoneBefore<K(!new), V>(m: HashMap<K, V>, i: nat)
    requires Valid(m) && i < |m.slots| && m.slots[i].Full?
    ensures Scan(m.slots[..i], m.slots[i].key) == None
  {
    ValidKeysUnique(m);
    forall a | 0 <= a < i ensures !(m.slots[..i][a].Full? && m.slots[..i][a].key == m.slots[i].key) {
      assert m.slots[..i][a] == m.slots[a];
    }
  }

  /** The refill loop of the resize, from old slot i on, in slot order. */
  function Rehash<K(==,!new), V>(m: HashMap<K, V>, t: HashMap<K, V>, i: nat): (r: Result<HashMap<K, V>>)
    requires Valid(m) && i <= |m.slots|
    requires Valid(t) && t.hash == m.hash && |t.slots| == 2 * |m.slots|
    requires t.size == CountFull(m.slots[..i])
    requires forall k :: Scan(t.slots, k) == Scan(m.slots[..i], k)
    ensures r.Success? ==> Valid(r.value) && r.value.hash == m.hash && |r.value.slots| == 2 * |m.slots|
    ensures r.Success? ==> r.value.size == m.size
    ensures r.Success? ==> forall k :: Scan(r.value.slots, k) == Scan(m.slots, k)
    decreases |m.slots| - i
  {
    if i == |m.slots| then
      assert m.slots[..i] == m.slots;
      Success(t)
    else if m.slots[i].Empty? then
      RehashSkip(m.slots, i);
      Rehash(m, t, i + 1)
    else
      var k, v := m.slots[i].key, m.slots[i].value;
      RehashNeverGrows(m, t, i);
      ScanNoneBefore(m, i);
      var t2 :- Store(t, k, v);
      RehashStep(m.slots, t.slots, t2.slots, i);
      Rehash(m, t2, i + 1)
  }

  /** An empty old slot adds nothing to the prefix already re-added. */
  lemma RehashSkip<K(!new), V>(slots: seq<Slot<K, V>>, i: nat)
    requires i < |slots| && slots[i].Empty?
    ensures CountFull(slots[..i + 1]) == CountFull(slots[..i])
    ensures forall k :: Scan(slots[..i + 1], k) == Scan(slots[..i], k)
  {
    assert slots[..i + 1][..i] == slots[..i];
  }

  /** Storing the entry of old slot i extends the re-added prefix by that
      slot. */
  lemma RehashStep<K(!new), V>(slots: seq<Slot<K, V>>, t: seq<Slot<K, V>>, t2: seq<Slot<K, V>>, i: nat)
    requires i < |slots| && slots[i].Full?
    requires forall k :: Scan(t, k) == Scan(slots[..i], k)
    requires Scan(t2, slots[i].key) == Some(slots[i].value)
    requires forall k' | k' != slots[i].key :: Scan(t2, k') == Scan(t, k')
    ensures CountFull(slots[..i + 1]) == CountFull(slots[..i]) + 1
    ensures forall k :: Scan(t2, k) == Scan(slots[..i + 1], k)
  {
    assert slots[..i + 1][..i] == slots[..i];
  }

  /** The resize: a table of twice the capacity, refilled with the old
      entries. Every binding and the size are kept. */
  function Resize<K(==,!new), V>(m: HashMap<K, V>): (r: Result<HashMap<K, V>>)
    requires Valid(m)
    ensures r.Success? ==> Valid(r.value) && r.value.hash == m.hash
    ensures r.Success? ==> |r.value.slots| == 2 * |m.slots| && r.value.size == m.size
    ensures r.Success? ==> forall k :: Scan(r.value.slots, k) == Scan(m.slots, k)
  {
    var t := New(m.hash, 2 * |m.slots|);
    CountEmpty(m.slots[..0]);
    Rehash(m, t, 0)
  }

  /** HashMap::add. Failure stands for a probe loop that never ends. */
  function Add<K(==,!new), V>(m: HashMap<K, V>, k: K, v: V): (r: Result<HashMap<K, V>>)
    requires Valid(m)
    ensures r.Success? ==> Valid(r.value) && r.value.hash == m.hash
    ensures r.Success? ==> |r.value.slots| == if NeedsResize(m) then 2 * |m.slots| else |m.slots|
    ensures r.Success? ==> Scan(r.value.slots, k) == Some(v)
    ensures r.Success? ==> forall k' | k' != k :: Scan(r.value.slots, k') == Scan(m.slots, k')
    ensures r.Success? ==> r.value.size == m.size + (if Scan(m.slots, k).None? then 1 else 0)
    ensures !NeedsResize(m) && Scan(m.slots, k).Some? ==> r.Success?
  {
    if NeedsResize(m) then
      var grown :- Resize(m);
      Store(grown, k, v)
    else
      Store(m, k, v)
  }

  /** After add(k, v): contain(k) holds and get(k) returns v, whatever
      the default; every other key reads as before. */
  lemma AddThenLookup<K(!new), V>(m: HashMap<K, V>, k: K, v: V, default: V, k2: K)
    requires Valid(m) && Add(m, k, v).Success?
    ensures Get(Add(m, k, v).value, k, default) == Success(v)
    ensures Contain(Add(m, k, v).value, k) == Success(true)
    ensures k2 != k && Get(Add(m, k, v).value, k2, default).Success? ==>
              Get(Add(m, k, v).value, k2, default).value == Scan(m.slots, k2).GetOr(default)
  {
  }

  /** Adding a key that is already there replaces its value and keeps the size. */
  lemma ReplaceKeepsSize<K(!new), V>(m: HashMap<K, V>, k: K, v: V)
    requires Valid(m) && Scan(m.slots, k).Some? && !NeedsResize(m)
    ensures Add(m, k, v).Success?
    ensures Add(m, k, v).value.size == m.size && |Add(m, k, v).value.slots| == |m.slots|
    ensures Scan(Add(m, k, v).value.slots, k) == Some(v)
  {
  }
}
