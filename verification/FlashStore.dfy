/** The functions of flash.c, one method each. */
module FlashStore {

  import opened Bitmap
  import opened Bytes
  import opened FlashBitmap
  import opened FlashRuns
  import opened FlashState
  import opened Options

  const NAME_LEN: nat := 16

  /** `strncpy` of at most fifteen characters. */
  function Shortened(text: Option<string>, otherwise: string): string {
    if text == None then otherwise
    else if |text.value| < NAME_LEN then text.value
    else text.value[..NAME_LEN - 1]
  }

  class Store {
    var flash: Flash
    var saveInfo: SaveInfo
    var uidTable: seq<Uid>

    /** What the flash held after each write. */
    ghost var history: seq<Flash>

    ghost predicate Valid()
      reads this
    {
      Sized(View())
    }

    ghost function View(): State
      reads this
    {
      State(flash, saveInfo, uidTable)
    }

    /** `flash_init`; what the memory holds before does not matter. */
    constructor (f: Flash)
      requires |f.records| == SLOTS
      ensures Valid() && View() == Init(f)
    {
      flash := f;
      saveInfo := f.info;
      uidTable := seq(SLOTS, _ => NoUid());
      history := [];
      new;
      if saveInfo.header == FACE_HEADER {
        var num := 0;
        for i := 0 to SLOTS
          invariant num == Count(saveInfo.index, i) && saveInfo == f.info && flash == f && |uidTable| == SLOTS
        {
          if Bit(saveInfo.index, i) {
            num := num + 1;
          }
        }
        if num != saveInfo.number {
          saveInfo := saveInfo.(number := num);
        }
        for i := 0 to SLOTS
          invariant |uidTable| == SLOTS && flash == f && saveInfo == Init(f).info
          invariant forall j :: 0 <= j < i ==> uidTable[j] == f.records[j].uid
        {
          uidTable := uidTable[i := flash.records[i].uid];
        }
        assert uidTable == Init(f).uids;
      } else {
        saveInfo := saveInfo.(header := FACE_HEADER, number := 0, index := Empty());
        WriteInfo();
        uidTable := seq(SLOTS, _ => NoUid());
      }
    }

    method WriteInfo()
      modifies this`flash, this`history
      ensures flash == old(flash).(info := saveInfo) && history == old(history) + [flash]
    {
      flash := flash.(info := saveInfo);
      history := history + [flash];
    }

    method WriteRecord(i: nat, face: FaceInfo)
      requires i < |flash.records|
      modifies this`flash, this`history
      ensures flash == old(flash).(records := old(flash).records[i := face]) && history == old(history) + [flash]
    {
      flash := flash.(records := flash.records[i := face]);
      history := history + [flash];
    }

    /** `get_face_id`. */
    method GetFaceId() returns (id: int)
      requires Valid()
      ensures id == if FirstFree(saveInfo.index, SLOTS) == SLOTS then -1 else FirstFree(saveInfo.index, SLOTS)
    {
      var i := FindFree(saveInfo.index, SLOTS);
      return if i >= SLOTS then -1 else i;
    }

    /** `flash_save_face_info`; without a user id the cycle counter makes one. */
    method SaveFaceInfo(stat: nat, rgb: seq<int>, ir: seq<int>, uid: Option<Uid>, cycle: seq<byte>, valid: nat, name: Option<string>, note: Option<string>)
      returns (ret: int, retUid: Uid)
      requires Valid() && |cycle| == 8
      modifies this
      ensures var u: Uid := if uid == None then cycle + seq(8, _ => 0) else uid.value;
        var op := Save(u, valid, Details(stat, rgb, ir, Shortened(name, "default"), Shortened(note, "null")));
        && Valid() && View() == After(old(View()), op) && history == old(history) + Writes(old(View()), op)
        && ret == (if FirstFree(old(saveInfo.index), SLOTS) == SLOTS then -1 else 0) && (ret == 0 && uid == None ==> retUid == u)
    {
      hide Count, Bit, Set;
      retUid := NoUid();
      var id := GetFaceId();
      if id >= SLOTS || id < 0 {
        return -1, retUid;
      }
      if uid == None {
        uidTable := uidTable[id := cycle + seq(8, _ => 0)];
        retUid := uidTable[id];
      } else {
        uidTable := uidTable[id := uid.value];
      }
      var face := FaceInfo(id, uidTable[id], valid, Details(stat, rgb, ir, Shortened(name, "default"), Shortened(note, "null")));
      WriteRecord(id, face);
      saveInfo := saveInfo.(number := (saveInfo.number + 1) % WIDTH);
      saveInfo := saveInfo.(index := Set(saveInfo.index, id));
      WriteInfo();
      ret := 0;
    }

    /** `flash_delete_face_info`. */
    method DeleteFaceInfo(id: nat) returns (ret: int)
      requires Valid() && id < SLOTS
      modifies this
      ensures Valid() && View() == After(old(View()), Delete(id)) && history == old(history) + Writes(old(View()), Delete(id))
      ensures ret == if old(saveInfo.number) == 0 then -1 else 0
    {
      hide Count, Bit, Clear;
      if saveInfo.number == 0 {
        return -1;
      }
      saveInfo := saveInfo.(index := Clear(saveInfo.index, id));
      saveInfo := saveInfo.(number := saveInfo.number - 1);
      WriteInfo();
      uidTable := uidTable[id := NoUid()];
      ret := 0;
    }

    /** `flash_delete_face_all`. */
    method DeleteFaceAll()
      requires Valid()
      modifies this
      ensures Valid() && View() == After(old(View()), DeleteAll) && history == old(history) + Writes(old(View()), DeleteAll)
    {
      saveInfo := saveInfo.(number := 0);
      saveInfo := saveInfo.(index := Empty());
      WriteInfo();
      uidTable := seq(SLOTS, _ => NoUid());
    }

    /** `flash_update_face_info`. */
    method UpdateFaceInfo(face: FaceInfo)
      requires Valid() && face.index < SLOTS
      modifies this
      ensures Valid() && View() == After(old(View()), Update(face)) && history == old(history) + Writes(old(View()), Update(face))
    {
      WriteRecord(face.index, face);
    }

    /** `flash_get_id_by_uid`: the slot with the four highest bits set, or zero. */
    method GetIdByUid(uid: Uid) returns (id: nat)
      requires Valid()
      ensures id != 0 ==>
        var i := id - 0xF000_0000;
        0 <= i < SLOTS && Bit(saveInfo.index, i) && uidTable[i] == uid && forall j: nat :: j < i && Bit(saveInfo.index, j) ==> uidTable[j] != uid
      ensures id == 0 ==> forall j: nat :: j < SLOTS && Bit(saveInfo.index, j) ==> uidTable[j] != uid
      ensures Consistent(View()) ==> var m := Stored(flash);
        if id == 0 then forall j :: j in m ==> m[j].uid != uid
        else
          var i := id - 0xF000_0000;
          i in m && m[i].uid == uid && forall j :: j in m && j < i ==> m[j].uid != uid
    {
      hide Bit, Count;
      for i := 0 to SLOTS
        invariant forall j: nat :: j < i && Bit(saveInfo.index, j) ==> uidTable[j] != uid
      {
        if Bit(saveInfo.index, i) {
          if uidTable[i] == uid {
            return i + 0xF000_0000;
          }
        }
      }
      return 0;
    }

    /** `flash_get_saved_faceinfo`: the record of the occupied slot number `index`, counted from zero. */
    method GetSavedFaceInfo(index: nat) returns (ret: int, face: Option<FaceInfo>)
      requires Valid()
      ensures var r := Listed(flash, saveInfo.index);
        if index < |r| then ret == 0 && face == Some(r[index]) else ret == -1 && face == None
      ensures Consistent(View()) ==> (ret == 0 <==> index < saveInfo.number) && saveInfo.number == |Stored(flash)|
    {
      hide Bit;
      if Consistent(View()) { NumberOfStored(View()); }
      face := None;
      var cnt: nat := 0;
      var i := 0;
      while i < SLOTS
        invariant 0 <= i <= SLOTS && cnt == Count(saveInfo.index, i) <= index && face == None
      {
        if Bit(saveInfo.index, i) {
          if cnt == index {
            face := Some(flash.records[i]);
            break;
          } else {
            cnt := cnt + 1;
          }
        }
        i := i + 1;
      }
      if i < SLOTS { ListedGrows(flash, saveInfo.index, i + 1, SLOTS); }
      ret := if i < SLOTS then 0 else -1;
    }
  }
}
