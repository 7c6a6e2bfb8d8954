/**
 * Slot layout of the update agent's file-backed key/value store and the
 * pure specification of what each operation does to the sequence of slots
 * held in the file (src/services/uOTA/hal/ota_hal_os.c, Linux branch).
 */
module KvSlots {

  newtype byte = x: int | 0 <= x < 256

  /** ITEM_MAX_KEY_LEN: capacity of the zero-terminated key field. */
  const KeyCapacity := 128
  /** ITEM_MAX_VAL_LEN: capacity of the value buffer. */
  const ValueCapacity := 256
  /** ITEM_LEN: bytes occupied by one record in the file. */
  const SlotSize := 512

  datatype Option<T> = None | Some(value: T)

  /** The checksum routine of crc.h, taken as given: any function of the value bytes. */
  type Crc32 = seq<byte> -> bv32

  /**
   * One kv_t record: `key` is the C string stored in the key field (the bytes
   * before its terminator), `val` the whole value buffer, and `flag`,
   * `valLen`, `crc32` the fields of kv_state_t.
   */
  datatype Slot = Slot(key: seq<byte>, val: seq<byte>, flag: int, valLen: int, crc32: bv32)

  /** A key that fits, with its terminator, into the key field. */
  predicate ValidKey(k: seq<byte>) {
    |k| < KeyCapacity && forall j :: 0 <= j < |k| ==> k[j] != 0
  }

  predicate WellFormed(s: Slot) {
    ValidKey(s.key) && |s.val| == ValueCapacity && 0 <= s.valLen <= ValueCapacity
  }

  predicate AllWellFormed(slots: seq<Slot>) {
    forall j :: 0 <= j < |slots| ==> WellFormed(slots[j])
  }

  /** No key is held by two slots. */
  predicate DistinctKeys(slots: seq<Slot>) {
    forall j, l :: 0 <= j < l < |slots| ==> slots[j].key != slots[l].key
  }

  /** The value buffer after `memset(val, 0, ...)` followed by `memcpy(val, v, len)`. */
  function Padded(v: seq<byte>, len: nat): (r: seq<byte>)
    requires len <= |v| && len <= ValueCapacity
    ensures |r| == ValueCapacity && r[..len] == v[..len]
    ensures forall j :: len <= j < ValueCapacity ==> r[j] == 0
  {
    v[..len] + seq(ValueCapacity - len, _ => 0 as byte)
  }

  /** Slot `s` holds the first `len` bytes of `v`, zero-filled, with their length and checksum. */
  predicate Holds(s: Slot, v: seq<byte>, len: nat, crc: Crc32)
    requires len <= |v|
  {
    && |s.val| == ValueCapacity
    && len <= ValueCapacity
    && s.val[..len] == v[..len]
    && (forall j :: len <= j < ValueCapacity ==> s.val[j] == 0)
    && s.valLen == len
    && s.crc32 == crc(v[..len])
  }

  /** The record `set` appends for a key no slot holds. */
  function NewSlot(key: seq<byte>, v: seq<byte>, len: nat, crc: Crc32): (s: Slot)
    requires len <= |v| && len <= ValueCapacity
    ensures s.key == key && s.flag == 0 && Holds(s, v, len, crc)
  {
    Slot(key, Padded(v, len), 0, len, crc(v[..len]))
  }

  /** The record `set` writes back over a slot whose key matched. */
  function Rewrite(s: Slot, v: seq<byte>, len: nat, crc: Crc32): (r: Slot)
    requires len <= |v| && len <= ValueCapacity
    ensures r.key == s.key && r.flag == s.flag && Holds(r, v, len, crc)
  {
    s.(val := Padded(v, len), valLen := len, crc32 := crc(v[..len]))
  }

  /** Index of the first slot holding `key`: the slot every scan of the store stops at. */
  function FindFirst(slots: seq<Slot>, key: seq<byte>): (r: Option<nat>)
    ensures r.Some? ==> r.value < |slots| && slots[r.value].key == key
    ensures r.Some? ==> forall j :: 0 <= j < r.value ==> slots[j].key != key
    ensures r.None? ==> forall j :: 0 <= j < |slots| ==> slots[j].key != key
  {
    if |slots| == 0 then None
    else if slots[0].key == key then Some(0)
    else match FindFirst(slots[1..], key)
      case None => None
      case Some(i) => Some(i + 1)
  }

  /** In a store without duplicate keys the first match is the only match. */
  lemma FindFirstDistinct(slots: seq<Slot>, key: seq<byte>, j: nat)
    requires DistinctKeys(slots) && j < |slots| && slots[j].key == key
    ensures FindFirst(slots, key) == Some(j)
  {
  }

  /** What `get` reads for `key`: the first `valLen` value bytes of the first matching slot. */
  function Lookup(slots: seq<Slot>, key: seq<byte>): (r: Option<seq<byte>>)
    requires AllWellFormed(slots)
    ensures r.Some? <==> exists j :: 0 <= j < |slots| && slots[j].key == key
    ensures r.Some? ==> |r.value| <= ValueCapacity
  {
    match FindFirst(slots, key)
    case None => None
    case Some(i) => Some(slots[i].val[..slots[i].valLen])
  }

  /**
   * The slots after a successful `set(key, v, len)`: the first slot holding
   * `key` is rewritten in place, or a new slot is appended when none does.
   */
  function Store(slots: seq<Slot>, key: seq<byte>, v: seq<byte>, len: nat, crc: Crc32): (r: seq<Slot>)
    requires len <= |v| && len <= ValueCapacity
    ensures FindFirst(slots, key).Some? ==> |r| == |slots|
    ensures FindFirst(slots, key).None? ==> |r| == |slots| + 1
    ensures forall j :: 0 <= j < |slots| && FindFirst(slots, key) != Some(j) ==> r[j] == slots[j]
    ensures var t := match FindFirst(slots, key) case Some(i) => i case None => |slots|;
      t < |r| && r[t].key == key && Holds(r[t], v, len, crc)
      && r[t].flag == (if t < |slots| then slots[t].flag else 0)
  {
    match FindFirst(slots, key)
    case Some(i) => slots[i := Rewrite(slots[i], v, len, crc)]
    case None => slots + [NewSlot(key, v, len, crc)]
  }

  lemma StoreWellFormed(slots: seq<Slot>, key: seq<byte>, v: seq<byte>, len: nat, crc: Crc32)
    requires len <= |v| && len <= ValueCapacity
    requires AllWellFormed(slots) && ValidKey(key)
    ensures AllWellFormed(Store(slots, key, v, len, crc))
  {
  }

  /** Round trip: after `set(key, v, len)`, `get(key)` yields exactly the first `len` bytes of `v`. */
  lemma StoreThenLookup(slots: seq<Slot>, key: seq<byte>, v: seq<byte>, len: nat, crc: Crc32)
    requires len <= |v| && len <= ValueCapacity
    requires AllWellFormed(slots) && ValidKey(key)
    ensures AllWellFormed(Store(slots, key, v, len, crc))
    ensures Lookup(Store(slots, key, v, len, crc), key) == Some(v[..len])
  {
    var r := Store(slots, key, v, len, crc);
    StoreWellFormed(slots, key, v, len, crc);
    var t := match FindFirst(slots, key) case Some(i) => i case None => |slots|;
    assert FindFirst(r, key) == Some(t);
  }

  /** `set(key, ...)` leaves what `get` returns for every other key unchanged. */
  lemma StoreKeepsOtherKeys(slots: seq<Slot>, key: seq<byte>, v: seq<byte>, len: nat, crc: Crc32, other: seq<byte>)
    requires len <= |v| && len <= ValueCapacity
    requires AllWellFormed(slots) && ValidKey(key) && other != key
    ensures AllWellFormed(Store(slots, key, v, len, crc))
    ensures Lookup(Store(slots, key, v, len, crc), other) == Lookup(slots, other)
  {
    var r := Store(slots, key, v, len, crc);
    StoreWellFormed(slots, key, v, len, crc);
    match FindFirst(slots, other)
    case None =>
      assert forall j :: 0 <= j < |r| ==> r[j].key != other;
    case Some(i) =>
      assert FindFirst(r, other) == Some(i);
  }

  /** `set` never creates a duplicate: keys that were distinct stay distinct. */
  lemma StoreKeepsDistinct(slots: seq<Slot>, key: seq<byte>, v: seq<byte>, len: nat, crc: Crc32)
    requires len <= |v| && len <= ValueCapacity
    requires DistinctKeys(slots)
    ensures DistinctKeys(Store(slots, key, v, len, crc))
  {
    var r := Store(slots, key, v, len, crc);
    forall j, l | 0 <= j < l < |r| ensures r[j].key != r[l].key {
      assert r[j].key == slots[j].key;
      if l < |slots| {
        assert r[l].key == slots[l].key;
      } else {
        assert FindFirst(slots, key).None?;
      }
    }
  }

  /**
   * The last `set` of a key wins: setting it twice has the effect of the
   * second set alone (idempotence when both values are equal, update in
   * place without an orphan slot otherwise).
   */
  lemma StoreLastWriteWins(slots: seq<Slot>, key: seq<byte>, v1: seq<byte>, len1: nat,
                           v2: seq<byte>, len2: nat, crc: Crc32)
    requires len1 <= |v1| && len1 <= ValueCapacity
    requires len2 <= |v2| && len2 <= ValueCapacity
    ensures Store(Store(slots, key, v1, len1, crc), key, v2, len2, crc) == Store(slots, key, v2, len2, crc)
  {
    var once := Store(slots, key, v1, len1, crc);
    var t := match FindFirst(slots, key) case Some(i) => i case None => |slots|;
    assert FindFirst(once, key) == Some(t);
  }

  /**
   * Swap-remove of slot `i`: the last slot is copied over it and the file is
   * shortened by one slot.
   */
  function SwapRemove(slots: seq<Slot>, i: nat): (r: seq<Slot>)
    requires i < |slots|
    ensures |r| == |slots| - 1
    ensures i < |r| ==> r[i] == slots[|slots| - 1]
    ensures forall j :: 0 <= j < |r| && j != i ==> r[j] == slots[j]
    ensures i == |slots| - 1 ==> r == slots[..i]
  {
    slots[i := slots[|slots| - 1]][..|slots| - 1]
  }

  /** Copying the last element over index `i` and dropping the last removes one occurrence of `s[i]`. */
  lemma MultisetOfSwapRemove<T>(s: seq<T>, i: nat)
    requires i < |s|
    ensures multiset(s[i := s[|s| - 1]][..|s| - 1]) == multiset(s) - multiset{s[i]}
  {
    var n := |s|;
    var moved := s[i := s[n - 1]];
    var r := moved[..n - 1];
    assert moved == r + [s[n - 1]];
    assert multiset(moved) == multiset(r) + multiset{s[n - 1]};
    assert multiset(moved) == multiset(s) - multiset{s[i]} + multiset{s[n - 1]};
    assert multiset(r) == multiset(moved) - multiset{s[n - 1]};
  }

  /** The slots left by a swap-remove are the old ones less the removed one. */
  lemma SwapRemoveMultiset(slots: seq<Slot>, i: nat)
    requires i < |slots|
    ensures multiset(SwapRemove(slots, i)) == multiset(slots) - multiset{slots[i]}
  {
    MultisetOfSwapRemove(slots, i);
  }

  /**
   * The file as `del` leaves it before truncating: the first slot holding
   * `key`, if any, overwritten by the last slot.
   */
  function Relocated(slots: seq<Slot>, key: seq<byte>): (r: seq<Slot>)
    ensures |r| == |slots|
    ensures FindFirst(slots, key).None? ==> r == slots
    ensures FindFirst(slots, key).Some? ==>
      var i := FindFirst(slots, key).value;
      r[i] == slots[|slots| - 1] && forall j :: 0 <= j < |slots| && j != i ==> r[j] == slots[j]
  {
    match FindFirst(slots, key)
    case None => slots
    case Some(i) => slots[i := slots[|slots| - 1]]
  }

  /**
   * The slots after `del(key)` when its truncation succeeds, exactly as the
   * code behaves: a matching slot is swap-removed, and with no match the
   * truncation still runs and drops the last slot. None when the file is
   * empty: the truncation length is negative and `truncate` refuses it.
   */
  function DeleteSlots(slots: seq<Slot>, key: seq<byte>): (r: Option<seq<Slot>>)
    ensures r.None? <==> |slots| == 0
    ensures r.Some? ==> r.value == Relocated(slots, key)[..|slots| - 1]
    ensures FindFirst(slots, key).Some? ==> r == Some(SwapRemove(slots, FindFirst(slots, key).value))
    ensures FindFirst(slots, key).None? && |slots| > 0 ==> r == Some(slots[..|slots| - 1])
  {
    if |slots| == 0 then None
    else Some(Relocated(slots, key)[..|slots| - 1])
  }

  /** Swap-remove drops the key of the removed slot and keeps the store free of duplicates. */
  lemma SwapRemoveDistinct(slots: seq<Slot>, i: nat)
    requires i < |slots| && AllWellFormed(slots) && DistinctKeys(slots)
    ensures AllWellFormed(SwapRemove(slots, i)) && DistinctKeys(SwapRemove(slots, i))
    ensures forall j :: 0 <= j < |slots| - 1 ==> SwapRemove(slots, i)[j].key != slots[i].key
  {
    var n := |slots|;
    var r := SwapRemove(slots, i);
    forall j | 0 <= j < |r| ensures r[j] == slots[if j == i then n - 1 else j] {
    }
    forall j, l | 0 <= j < l < |r| ensures r[j].key != r[l].key {
      var sj, sl := if j == i then n - 1 else j, if l == i then n - 1 else l;
      assert sj != sl;
      if sj < sl { assert slots[sj].key != slots[sl].key; } else { assert slots[sl].key != slots[sj].key; }
    }
  }

  /**
   * Deleting a key that is present removes it from the store and leaves
   * every other key readable with the same value.
   */
  lemma DeletePresentKey(slots: seq<Slot>, key: seq<byte>, other: seq<byte>)
    requires AllWellFormed(slots) && DistinctKeys(slots)
    requires FindFirst(slots, key).Some? && other != key
    ensures DeleteSlots(slots, key).Some?
    ensures AllWellFormed(DeleteSlots(slots, key).value) && DistinctKeys(DeleteSlots(slots, key).value)
    ensures Lookup(DeleteSlots(slots, key).value, key).None?
    ensures Lookup(DeleteSlots(slots, key).value, other) == Lookup(slots, other)
  {
    var i := FindFirst(slots, key).value;
    var n := |slots|;
    var r := SwapRemove(slots, i);
    SwapRemoveDistinct(slots, i);
    match FindFirst(slots, other)
    case None =>
      assert forall j :: 0 <= j < |r| ==> r[j].key != other;
    case Some(m) =>
      var at := if m == n - 1 then i else m;
      assert r[at] == slots[m];
      FindFirstDistinct(r, other, at);
  }
}
