/**
 * Two places where ota_kv_set and ota_kv_del do not do what they evidently
 * intend, each modelled as written next to the corrected behaviour that the
 * rest of the model follows.
 */
module KvFindings {
  import opened KvSlots

  // The file is opened with fopen(path, "a+"). In that mode every fwrite
  // goes to the end of the file whatever fseek chose, so the in-place
  // rewrites of ota_kv_set and ota_kv_del append instead.

  /** ota_kv_set as it runs on an "a+" stream: the rewritten record lands at the end. */
  function StoreAppendMode(slots: seq<Slot>, key: seq<byte>, v: seq<byte>, len: nat, crc: Crc32): (r: seq<Slot>)
    requires len <= |v| && len <= ValueCapacity
    ensures |r| == |slots| + 1 && r[..|slots|] == slots
    ensures r[|slots|].key == key && Holds(r[|slots|], v, len, crc)
  {
    match FindFirst(slots, key)
    case Some(i) => slots + [Rewrite(slots[i], v, len, crc)]
    case None => slots + [NewSlot(key, v, len, crc)]
  }

  /**
   * On an "a+" stream, setting a key that is already stored has no visible
   * effect: get still finds the older record first and returns the old value.
   */
  lemma AppendModeUpdateIsLost(slots: seq<Slot>, key: seq<byte>, v: seq<byte>, len: nat, crc: Crc32)
    requires len <= |v| && len <= ValueCapacity
    requires AllWellFormed(slots) && ValidKey(key) && FindFirst(slots, key).Some?
    ensures AllWellFormed(StoreAppendMode(slots, key, v, len, crc))
    ensures Lookup(StoreAppendMode(slots, key, v, len, crc), key) == Lookup(slots, key)
  {
    var r := StoreAppendMode(slots, key, v, len, crc);
    var i := FindFirst(slots, key).value;
    assert r[|slots|] == Rewrite(slots[i], v, len, crc);
    assert FindFirst(r, key) == Some(i);
  }

  /** A concrete store on which the set/get round trip fails in "a+" mode. */
  lemma AppendModeRoundTripFails(crc: Crc32)
    ensures var slots := [NewSlot([1], [5], 1, crc)];
      Lookup(StoreAppendMode(slots, [1], [6], 1, crc), [1]) == Some([5])
  {
    var slots := [NewSlot([1], [5], 1, crc)];
    AppendModeUpdateIsLost(slots, [1], [6], 1, crc);
    assert slots[0].val[..1] == [5];
  }

  /**
   * ota_kv_del as it runs on an "a+" stream: the copy of the last record is
   * appended, and the truncation to the old size less one record removes it
   * together with the old last record. The matching record stays.
   */
  function DeleteAppendMode(slots: seq<Slot>, key: seq<byte>): (r: Option<seq<Slot>>)
    ensures r.None? <==> |slots| == 0
    ensures r.Some? ==> |r.value| == |slots| - 1 && forall j :: 0 <= j < |r.value| ==> r.value[j] == slots[j]
  {
    if |slots| == 0 then None
    else
      var written := match FindFirst(slots, key)
        case Some(i) => slots + [slots[|slots| - 1]]
        case None => slots;
      Some(written[..|slots| - 1])
  }

  /**
   * On an "a+" stream, deleting a stored key that is not in the last record
   * leaves it readable and instead destroys the unrelated last record.
   */
  lemma AppendModeDeleteHitsLastSlot(slots: seq<Slot>, key: seq<byte>)
    requires AllWellFormed(slots) && DistinctKeys(slots)
    requires FindFirst(slots, key).Some? && FindFirst(slots, key).value < |slots| - 1
    ensures DeleteAppendMode(slots, key).Some?
    ensures AllWellFormed(DeleteAppendMode(slots, key).value)
    ensures Lookup(DeleteAppendMode(slots, key).value, key) == Lookup(slots, key)
    ensures Lookup(slots, slots[|slots| - 1].key).Some?
    ensures Lookup(DeleteAppendMode(slots, key).value, slots[|slots| - 1].key).None?
  {
    var r := DeleteAppendMode(slots, key).value;
    var i := FindFirst(slots, key).value;
    assert FindFirst(r, key) == Some(i);
    var lastKey := slots[|slots| - 1].key;
    forall j | 0 <= j < |r| ensures r[j].key != lastKey {
      assert slots[j].key != slots[|slots| - 1].key;
    }
  }

  // A key that no record holds still reaches the truncation at the end of
  // ota_kv_del, so "deleting" a missing key removes the last record.

  /**
   * As written: deleting a key that is absent from a non-empty store
   * without duplicates destroys the record of the last stored key.
   */
  lemma DeleteMissingKeyLosesLastSlot(slots: seq<Slot>, key: seq<byte>)
    requires AllWellFormed(slots) && DistinctKeys(slots)
    requires FindFirst(slots, key).None? && |slots| > 0
    ensures DeleteSlots(slots, key).Some?
    ensures AllWellFormed(DeleteSlots(slots, key).value)
    ensures Lookup(slots, slots[|slots| - 1].key).Some?
    ensures Lookup(DeleteSlots(slots, key).value, slots[|slots| - 1].key).None?
  {
    var r := DeleteSlots(slots, key).value;
    var lastKey := slots[|slots| - 1].key;
    forall j | 0 <= j < |r| ensures r[j].key != lastKey {
      assert slots[j].key != slots[|slots| - 1].key;
    }
  }

  /** Corrected ota_kv_del: swap-remove the matching record, and leave the file alone when there is none. */
  function DeleteIntended(slots: seq<Slot>, key: seq<byte>): (r: seq<Slot>)
    ensures FindFirst(slots, key).None? ==> r == slots
    ensures FindFirst(slots, key).Some? ==> Some(r) == DeleteSlots(slots, key)
  {
    match FindFirst(slots, key)
    case None => slots
    case Some(i) => SwapRemove(slots, i)
  }

  /**
   * The corrected delete removes exactly the given key: it is not readable
   * afterwards and every other key reads as before, whether or not it was stored.
   */
  lemma DeleteIntendedRemovesOnlyKey(slots: seq<Slot>, key: seq<byte>, other: seq<byte>)
    requires AllWellFormed(slots) && DistinctKeys(slots) && other != key
    ensures AllWellFormed(DeleteIntended(slots, key)) && DistinctKeys(DeleteIntended(slots, key))
    ensures Lookup(DeleteIntended(slots, key), key).None?
    ensures Lookup(DeleteIntended(slots, key), other) == Lookup(slots, other)
  {
    if FindFirst(slots, key).Some? {
      DeletePresentKey(slots, key, other);
    }
  }
}
