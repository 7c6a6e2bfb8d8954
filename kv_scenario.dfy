/**
 * A caller of the store: the firmware-version / download-offset sequence of
 * operations, followed from the method contracts alone.
 */
module KvScenario {
  import opened KvSlots
  import opened KvStore

  const FwVer: seq<byte> := [102, 119, 95, 118, 101, 114]   // "fw_ver"
  const DlOff: seq<byte> := [100, 108, 95, 111, 102, 102]   // "dl_off"

  /** Set "fw_ver" on an empty file, read it back, update it, read it back. */
  method FirmwareVersionUpdate(crc: Crc32) {
    var store := new KvFile([], 0, false, crc);
    var v103: seq<byte> := [49, 46, 48, 46, 51];   // "1.0.3"
    var v104: seq<byte> := [49, 46, 48, 46, 52];   // "1.0.4"
    var buffer := new byte[ValueCapacity](_ => 0);
    var bufferLen := new IntCell(0);

    var r := store.Set(Some(FwVer), Some(v103), 5, false);
    assert r == 0 && store.Size() == SlotSize;
    StoreThenLookup([], FwVer, v103, 5, crc);
    r := store.Get(Some(FwVer), buffer, bufferLen, false);
    assert r == 0 && bufferLen.value == 5 && buffer[..5] == v103;

    var before := store.slots;
    r := store.Set(Some(FwVer), Some(v104), 5, false);
    assert r == 0 && store.Size() == SlotSize;
    StoreThenLookup(before, FwVer, v104, 5, crc);
    r := store.Get(Some(FwVer), buffer, bufferLen, false);
    assert r == 0 && bufferLen.value == 5 && buffer[..5] == v104;
  }

  /** With "fw_ver" and "dl_off" stored, deleting "fw_ver" keeps "dl_off" readable. */
  method DownloadOffsetSurvivesDelete(crc: Crc32) {
    var store := new KvFile([], 0, false, crc);
    var v104: seq<byte> := [49, 46, 48, 46, 52];   // "1.0.4"
    var v4096: seq<byte> := [52, 48, 57, 54];      // "4096"

    var r := store.Set(Some(FwVer), Some(v104), 5, false);
    assert r == 0;
    var before := store.slots;
    r := store.Set(Some(DlOff), Some(v4096), 4, false);
    assert r == 0 && store.Size() == 2 * SlotSize;
    StoreThenLookup(before, DlOff, v4096, 4, crc);
    StoreKeepsDistinct(before, DlOff, v4096, 4, crc);

    before := store.slots;
    r := store.Del(Some(FwVer), false, false);
    DeletePresentKey(before, FwVer, DlOff);
    assert r == 0 && store.Size() == SlotSize;

    var buffer := new byte[ValueCapacity](_ => 0);
    var bufferLen := new IntCell(0);
    r := store.Get(Some(DlOff), buffer, bufferLen, false);
    assert r == 0 && bufferLen.value == 4 && buffer[..4] == v4096;
  }
}
