/** The state of the face store (flash.c) and what its operations do: records and a header in the flash,
    a copy of the header and a table of user ids in memory. Every write to the flash happens as a whole
    or not at all. */
module FlashState {

  import opened Bitmap
  import opened Bytes
  import opened FlashBitmap
  import opened Options

  const FACE_HEADER: nat := 0x55AA5503
  const WIDTH := 0x1_0000_0000

  type Uid = u: seq<byte> | |u| == 16 witness seq(16, _ => 0)

  function NoUid(): Uid {
    seq(16, _ => 0)
  }

  datatype Details = Details(stat: nat, rgb: seq<int>, ir: seq<int>, name: string, note: string)

  datatype FaceInfo = FaceInfo(index: nat, uid: Uid, valid: nat, details: Details)

  datatype SaveInfo = SaveInfo(header: nat, version: nat, number: nat, checksum: nat, index: Index)

  datatype Flash = Flash(info: SaveInfo, records: seq<FaceInfo>)

  datatype State = State(flash: Flash, info: SaveInfo, uids: seq<Uid>)

  predicate Sized(s: State) {
    |s.flash.records| == SLOTS && |s.uids| == SLOTS
  }

  // ----- what the operations do -----

  /** `flash_init` after the flash has been found. */
  function Init(f: Flash): (s: State)
    requires |f.records| == SLOTS
    ensures Sized(s)
  {
    if f.info.header == FACE_HEADER then
      State(f, f.info.(number := Count(f.info.index, SLOTS)), seq(SLOTS, i requires 0 <= i < SLOTS => f.records[i].uid))
    else
      var info := f.info.(header := FACE_HEADER, number := 0, index := Empty());
      State(f.(info := info), info, seq(SLOTS, _ => NoUid()))
  }

  datatype Op =
    | Save(uid: Uid, valid: nat, details: Details)
    | Delete(id: nat)
    | DeleteAll
    | Update(face: FaceInfo)

  /** The slots that an operation addresses exist. */
  predicate InRange(op: Op) {
    match op
    case Delete(id) => id < SLOTS
    case Update(face) => face.index < SLOTS
    case _ => true
  }

  /** The flash after each of its writes. */
  function Writes(s: State, op: Op): (ws: seq<Flash>)
    requires Sized(s) && InRange(op)
    ensures forall f :: f in ws ==> |f.records| == SLOTS
  {
    match op
    case Save(uid, valid, details) =>
      var i := FirstFree(s.info.index, SLOTS);
      if i == SLOTS then []
      else
        var written := s.flash.(records := s.flash.records[i := FaceInfo(i, uid, valid, details)]);
        [written, written.(info := s.info.(number := (s.info.number + 1) % WIDTH, index := Set(s.info.index, i)))]
    case Delete(id) =>
      if s.info.number == 0 then []
      else [s.flash.(info := s.info.(number := s.info.number - 1, index := Clear(s.info.index, id)))]
    case DeleteAll => [s.flash.(info := s.info.(number := 0, index := Empty()))]
    case Update(face) => [s.flash.(records := s.flash.records[face.index := face])]
  }

  /** The state when the operation has returned. */
  function After(s: State, op: Op): (r: State)
    requires Sized(s) && InRange(op)
    ensures Sized(r)
  {
    var ws := Writes(s, op);
    if ws == [] then s
    else
      var f := ws[|ws| - 1];
      match op
      case Save(uid, _, _) => State(f, f.info, s.uids[FirstFree(s.info.index, SLOTS) := uid])
      case Delete(id) => State(f, f.info, s.uids[id := NoUid()])
      case DeleteAll => State(f, f.info, seq(SLOTS, _ => NoUid()))
      case Update(_) => State(f, s.info, s.uids)
  }
}
