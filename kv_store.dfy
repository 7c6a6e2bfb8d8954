/**
 * The key/value file itself and the operations hal_fopen, ota_kv_set,
 * ota_kv_get, ota_kv_del and ota_kv_erase_all of
 * src/services/uOTA/hal/ota_hal_os.c, each taken as one atomic step (the
 * store's mutex serialises them).
 *
 * A failure of the operating system to open or truncate the file is an
 * input of the operation (`openFails`, `truncateFails`).
 */
module KvStore {
  import opened KvSlots

  /** A caller's `int` variable passed by address, such as `buffer_len`. */
  class IntCell {
    var value: int

    constructor (v: int)
      ensures value == v
    {
      value := v;
    }
  }

  /** The file "./uota.kv". */
  class KvFile {
    /** The whole records of the file, in file order. */
    var slots: seq<Slot>
    /** Bytes after the last whole record; not zero only in a file that is not a key/value file. */
    var partial: nat
    /** Whether the file exists. */
    var present: bool
    /** CRC-32 as computed by crc.h. */
    const crc32: Crc32

    ghost predicate Valid()
      reads this
    {
      && AllWellFormed(slots)
      && partial < SlotSize
      && (!present ==> slots == [] && partial == 0)
    }

    /** Length of the file in bytes. */
    function Size(): (n: nat)
      reads this
      ensures partial < SlotSize ==> (n % SlotSize == partial && n / SlotSize == |slots|)
    {
      |slots| * SlotSize + partial
    }

    /** The store as found on disk: `initial` whole records followed by `extra` stray bytes. */
    constructor (initial: seq<Slot>, extra: nat, exists_: bool, crc: Crc32)
      requires AllWellFormed(initial) && extra < SlotSize
      requires !exists_ ==> initial == [] && extra == 0
      ensures Valid()
      ensures slots == initial && partial == extra && present == exists_ && crc32 == crc
    {
      slots, partial, present, crc32 := initial, extra, exists_, crc;
    }

    /**
     * hal_fopen: open (creating if absent) the file, reject a size that is not
     * a multiple of the record size, and report the size and record count.
     */
    method Open(openFails: bool) returns (ok: bool, size: int, num: int)
      requires Valid()
      modifies this`present
      ensures Valid()
      ensures present == (old(present) || !openFails)
      ensures ok <==> !openFails && partial == 0
      ensures ok ==> size == Size() && num == |slots|
    {
      ok, size, num := false, 0, 0;
      if openFails {
        return;
      }
      present := true;
      size := Size();
      if size % SlotSize != 0 {
        return;
      }
      num := size / SlotSize;
      ok := true;
    }

    /**
     * ota_kv_set: rewrite the value of the first record holding `key`, or
     * append a record for it when there is none.
     */
    method Set(key: Option<seq<byte>>, val: Option<seq<byte>>, len: int, openFails: bool) returns (ret: int)
      requires Valid()
      requires key.Some? ==> ValidKey(key.value)
      requires val.Some? ==> 0 <= len <= ValueCapacity && len <= |val.value|
      modifies this
      ensures Valid() && partial == old(partial)
      ensures ret == 0 || ret == -1
      ensures present == (old(present) || (key.Some? && val.Some? && !openFails))
      ensures ret == 0 <==> key.Some? && val.Some? && !openFails && partial == 0
      ensures ret == 0 ==>
        && key.Some? && val.Some? && 0 <= len <= ValueCapacity && len <= |val.value|
        && slots == Store(old(slots), key.value, val.value, len, crc32)
      ensures ret == -1 ==> slots == old(slots)
    {
      ret := -1;
      if key.None? || val.None? {
        return;
      }
      var k, v := key.value, val.value;
      var ok, size, num := Open(openFails);
      if !ok {
        return;
      }
      var i := 0;
      while i < num
        invariant 0 <= i <= num == |slots|
        invariant slots == old(slots) && Valid() && partial == 0 && present
        invariant forall j :: 0 <= j < i ==> slots[j].key != k
      {
        var item := slots[i];
        if item.key == k {
          item := Rewrite(item, v, len, crc32);
          slots := slots[i := item];
          ret := 0;
          return;
        }
        i := i + 1;
      }
      slots := slots + [NewSlot(k, v, len, crc32)];
      ret := 0;
    }

    /**
     * ota_kv_get: copy the value of the first record holding `key` into
     * `buffer` and its length into `bufferLen`. A key that no record holds
     * is not an error: 0 is returned and neither output is touched.
     */
    method Get(key: Option<seq<byte>>, buffer: array?<byte>, bufferLen: IntCell?, openFails: bool) returns (ret: int)
      requires Valid()
      requires key.Some? && buffer != null && Lookup(slots, key.value).Some? ==>
        |Lookup(slots, key.value).value| <= buffer.Length
      modifies this`present, buffer, bufferLen
      ensures Valid() && slots == old(slots) && partial == old(partial)
      ensures ret == 0 || ret == -1
      ensures present == (old(present) || (key.Some? && buffer != null && bufferLen != null && !openFails))
      ensures ret == 0 <==> key.Some? && buffer != null && bufferLen != null && !openFails && partial == 0
      ensures ret == 0 && Lookup(slots, key.value).Some? ==>
        var v := Lookup(slots, key.value).value;
        && bufferLen.value == |v|
        && buffer[..|v|] == v
        && buffer[|v|..] == old(buffer[|v|..])
      ensures ret == -1 || Lookup(slots, key.value).None? ==>
        && (buffer != null ==> buffer[..] == old(buffer[..]))
        && (bufferLen != null ==> bufferLen.value == old(bufferLen.value))
    {
      ret := -1;
      if key.None? || buffer == null || bufferLen == null {
        return;
      }
      var k := key.value;
      var ok, size, num := Open(openFails);
      if !ok {
        return;
      }
      var i := 0;
      while i < num
        invariant 0 <= i <= num == |slots|
        invariant forall j :: 0 <= j < i ==> slots[j].key != k
        invariant buffer[..] == old(buffer[..]) && bufferLen.value == old(bufferLen.value)
      {
        var item := slots[i];
        if item.key == k {
          bufferLen.value := item.valLen;
          var n := item.valLen;
          forall j | 0 <= j < n {
            buffer[j] := item.val[j];
          }
          ret := 0;
          return;
        }
        i := i + 1;
      }
      ret := 0;
    }

    /**
     * ota_kv_del: copy the last record over the first record holding `key`,
     * then truncate the file by one record. The truncation runs whether or
     * not a record matched.
     */
    method Del(key: Option<seq<byte>>, openFails: bool, truncateFails: bool) returns (ret: int)
      requires Valid()
      modifies this
      ensures Valid() && partial == old(partial)
      ensures ret == 0 || ret == -1
      ensures present == (old(present) || (key.Some? && !openFails))
      ensures key.None? || openFails || partial != 0 ==> ret == -1 && slots == old(slots)
      ensures key.Some? && !openFails && partial == 0 ==>
        if !truncateFails && DeleteSlots(old(slots), key.value).Some?
        then ret == 0 && slots == DeleteSlots(old(slots), key.value).value
        else ret == -1 && slots == Relocated(old(slots), key.value)
    {
      ret := -1;
      if key.None? {
        return;
      }
      var k := key.value;
      var ok, fileSize, num := Open(openFails);
      if !ok {
        return;
      }
      var i := 0;
      while i < num
        invariant 0 <= i <= num == |slots|
        invariant slots == old(slots) && Valid() && partial == 0 && present
        invariant forall j :: 0 <= j < i ==> slots[j].key != k
      {
        if slots[i].key == k {
          var last := slots[num - 1];
          slots := slots[i := last];
          break;
        }
        i := i + 1;
      }
      assert slots == Relocated(old(slots), k);
      // truncate(KV_FILE_PATH, file_size - ITEM_LEN)
      var newSize := fileSize - SlotSize;
      if newSize < 0 || truncateFails {
        return;
      }
      slots := slots[..newSize / SlotSize];
      ret := 0;
    }

    /** ota_kv_erase_all: truncate the file to length zero. */
    method EraseAll(truncateFails: bool) returns (ret: int)
      requires Valid()
      modifies this
      ensures Valid() && present == old(present)
      ensures ret == 0 || ret == -1
      ensures ret == 0 <==> old(present) && !truncateFails
      ensures ret == 0 ==> slots == [] && partial == 0 && Size() == 0
      ensures ret == -1 ==> slots == old(slots) && partial == old(partial)
    {
      // truncate(2) fails on a file that does not exist.
      if !present || truncateFails {
        return -1;
      }
      slots, partial := [], 0;
      ret := 0;
    }
  }
}
