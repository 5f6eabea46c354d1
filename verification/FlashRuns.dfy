/** Runs of the face store with power loss between any two writes to the flash. */
module FlashRuns {

  import opened Bitmap
  import opened Bytes
  import opened FlashBitmap
  import opened FlashState
  import opened Options

  /** What is stored: a record for each occupied slot. */
  type Faces = map<nat, FaceInfo>

  function Stored(f: Flash): (m: Faces)
    requires |f.records| == SLOTS
    ensures forall i: nat :: i in m <==> i < SLOTS && Bit(f.info.index, i)
    ensures forall i: nat :: i in m ==> m[i] == f.records[i]
  {
    map i: nat | i < SLOTS && Bit(f.info.index, i) :: f.records[i]
  }

  // ----- what every state keeps -----

  predicate Cached(s: State)
    requires Sized(s)
  {
    forall i: nat :: i < SLOTS && Bit(s.info.index, i) ==> s.uids[i] == s.flash.records[i].uid
  }

  /** The header in memory is the one in the flash, the number is the number of occupied slots, and the
      table has the user id of every occupied slot. */
  predicate Consistent(s: State) {
    && Sized(s) && s.info.header == FACE_HEADER && s.flash.info.header == FACE_HEADER
    && s.info.index == s.flash.info.index && s.info.number == Count(s.info.index, SLOTS) && Cached(s)
  }

  lemma InitIsConsistent(f: Flash)
    requires |f.records| == SLOTS
    ensures Consistent(Init(f))
    ensures Stored(Init(f).flash) == if f.info.header == FACE_HEADER then Stored(f) else map[]
  {
    hide Bit, Count;
    CountOfEmpty(SLOTS);
    forall i: nat | i < SLOTS ensures !Bit(Empty(), i) { BitsOfNone(WORDS, i); }
  }

  // ----- what the operations mean -----

  function FirstUnused(m: Faces, i: nat := 0): (r: nat)
    requires i <= SLOTS
    ensures i <= r <= SLOTS
    decreases SLOTS - i
  {
    if i == SLOTS || i !in m then i else FirstUnused(m, i + 1)
  }

  function Effect(m: Faces, op: Op): Faces {
    match op
    case Save(uid, valid, details) =>
      var i := FirstUnused(m);
      if i == SLOTS then m else m[i := FaceInfo(i, uid, valid, details)]
    case Delete(id) => m - {id}
    case DeleteAll => map[]
    case Update(face) => if face.index in m then m[face.index := face] else m
  }

  lemma {:induction false} SameSlot(f: Flash, i: nat)
    requires |f.records| == SLOTS && i <= SLOTS
    ensures FirstUnused(Stored(f), i) == FirstFree(f.info.index, SLOTS, i)
    decreases SLOTS - i
  {
    hide Bit;
    if i < SLOTS { SameSlot(f, i + 1); }
  }

  lemma CountIsZero(x: Index, i: nat)
    requires i < SLOTS && Bit(x, i)
    ensures Count(x, SLOTS) > 0
  {
    hide Bit;
    CountMonotone(x, i + 1, SLOTS);
  }

  // ----- each write -----

  /** The first write of a save goes to a free slot: it changes nothing that is stored. */
  lemma RecordBeforeHeader(s: State, i: nat, face: FaceInfo)
    requires Consistent(s) && i < SLOTS && !Bit(s.info.index, i)
    ensures Stored(s.flash.(records := s.flash.records[i := face])) == Stored(s.flash)
  {
    hide Bit;
  }

  lemma StoredAfterSave(s: State, i: nat, face: FaceInfo, info: SaveInfo)
    requires Consistent(s) && i < SLOTS && info.index == Set(s.info.index, i)
    ensures Stored(Flash(info, s.flash.records[i := face])) == Stored(s.flash)[i := face]
  {
    hide Bit, Set;
    forall j: nat | j < SLOTS ensures Bit(info.index, j) <==> j == i || Bit(s.info.index, j) { BitsOfSet(s.info.index, i, j); }
  }

  lemma StoredAfterDelete(s: State, i: nat, info: SaveInfo)
    requires Consistent(s) && i < SLOTS && info.index == Clear(s.info.index, i)
    ensures Stored(s.flash.(info := info)) == Stored(s.flash) - {i}
  {
    hide Bit, Clear;
    forall j: nat | j < SLOTS ensures Bit(info.index, j) <==> j != i && Bit(s.info.index, j) { BitsOfClear(s.info.index, i, j); }
  }

  /** When the number is zero nothing is stored that could be deleted. */
  lemma NothingToDelete(s: State, i: nat)
    requires Consistent(s) && s.info.number == 0
    ensures Stored(s.flash) - {i} == Stored(s.flash)
  {
    hide Bit;
    if i in Stored(s.flash) { CountIsZero(s.info.index, i); }
  }

  /** After all its writes an operation has its effect. */
  lemma WritesHaveEffect(s: State, op: Op)
    requires Consistent(s) && InRange(op)
    ensures var ws := Writes(s, op);
      if ws == [] then Effect(Stored(s.flash), op) == Stored(s.flash)
      else Effect(Stored(s.flash), op) == Stored(ws[|ws| - 1])
  {
    hide Bit, Set, Clear, FirstFree, FirstUnused;
    match op
    case Save(uid, valid, details) =>
      var i := FirstFree(s.info.index, SLOTS);
      SameSlot(s.flash, 0);
      if i < SLOTS {
        StoredAfterSave(s, i, FaceInfo(i, uid, valid, details), Writes(s, op)[1].info);
      }
    case Delete(id) =>
      if s.info.number == 0 {
        NothingToDelete(s, id);
      } else {
        StoredAfterDelete(s, id, Writes(s, op)[0].info);
      }
    case DeleteAll =>
      forall j: nat | j < SLOTS ensures !Bit(Empty(), j) { BitsOfNone(WORDS, j); }
    case Update(face) =>
  }

  /** What is stored after any number of writes is what was stored before or what the whole operation
      leaves; and the header stays in place. */
  lemma WritesAreAtomic(s: State, op: Op, k: nat)
    requires Consistent(s) && InRange(op) && k < |Writes(s, op)|
    ensures var f := Writes(s, op)[k];
      && f.info.header == FACE_HEADER
      && Stored(f) == if k + 1 < |Writes(s, op)| then Stored(s.flash) else Effect(Stored(s.flash), op)
  {
    hide Bit, Set, Clear, FirstFree, FirstUnused, Effect;
    WritesHaveEffect(s, op);
    if op.Save? && k == 0 {
      var i := FirstFree(s.info.index, SLOTS);
      RecordBeforeHeader(s, i, FaceInfo(i, op.uid, op.valid, op.details));
    }
  }

  // ----- which operations keep the state consistent -----

  /** Deleting a free slot makes the number wrong, unless nothing is stored at all; updating a record with
      another user id leaves the old one in the table. */
  predicate Allowed(m: Faces, op: Op) {
    match op
    case Delete(id) => m == map[] || id in m
    case Update(face) => face.index in m ==> face.uid == m[face.index].uid
    case _ => true
  }

  ghost function Occupied(x: Index, n: nat): set<nat>
    requires n <= SLOTS
  {
    set i: nat | i < n && Bit(x, i)
  }

  lemma {:induction false} CountIsSize(x: Index, n: nat)
    requires n <= SLOTS
    ensures Count(x, n) == |Occupied(x, n)|
  {
    hide Bit;
    if n > 0 {
      CountIsSize(x, n - 1);
      assert Occupied(x, n) == if Bit(x, n - 1) then Occupied(x, n - 1) + {n - 1} else Occupied(x, n - 1);
    }
  }

  lemma NumberOfStored(s: State)
    requires Consistent(s)
    ensures s.info.number == |Stored(s.flash)|
  {
    hide Bit;
    CountIsSize(s.info.index, SLOTS);
    assert Stored(s.flash).Keys == Occupied(s.info.index, SLOTS);
  }

  lemma SaveKeeps(s: State, op: Op)
    requires Consistent(s) && op.Save?
    ensures Consistent(After(s, op))
  {
    hide Bit, Set, Count;
    var i := FirstFree(s.info.index, SLOTS);
    if i < SLOTS {
      CountOfSet(s.info.index, i, SLOTS);
      forall j: nat | j < SLOTS ensures Bit(Set(s.info.index, i), j) <==> j == i || Bit(s.info.index, j) { BitsOfSet(s.info.index, i, j); }
    }
  }

  lemma DeleteKeepsIff(s: State, id: nat)
    requires Consistent(s) && id < SLOTS
    ensures Consistent(After(s, Delete(id))) <==> s.info.number == 0 || Bit(s.info.index, id)
  {
    hide Bit, Clear, Count;
    if s.info.number > 0 {
      CountOfClear(s.info.index, id, SLOTS);
      forall j: nat | j < SLOTS ensures Bit(Clear(s.info.index, id), j) <==> j != id && Bit(s.info.index, j) { BitsOfClear(s.info.index, id, j); }
    }
  }

  lemma DeleteAllKeeps(s: State)
    requires Consistent(s)
    ensures Consistent(After(s, DeleteAll))
  {
    hide Bit, Count;
    CountOfEmpty(SLOTS);
    forall j: nat | j < SLOTS ensures !Bit(Empty(), j) { BitsOfNone(WORDS, j); }
  }

  lemma UpdateKeepsIff(s: State, face: FaceInfo)
    requires Consistent(s) && face.index < SLOTS
    ensures Consistent(After(s, Update(face))) <==> (Bit(s.info.index, face.index) ==> face.uid == s.uids[face.index])
  {
    hide Bit, Count;
  }

  /** An operation keeps the state consistent exactly when it is allowed. */
  lemma KeepsIff(s: State, op: Op)
    requires Consistent(s) && InRange(op)
    ensures Consistent(After(s, op)) <==> Allowed(Stored(s.flash), op)
  {
    hide Bit, Count, After;
    match op
    case Save(_, _, _) => SaveKeeps(s, op);
    case Delete(id) =>
      DeleteKeepsIff(s, id);
      NumberOfStored(s);
      assert s.info.number == 0 <==> Stored(s.flash) == map[];
    case DeleteAll => DeleteAllKeeps(s);
    case Update(face) => UpdateKeepsIff(s, face);
  }

  /** Also an operation that is not allowed has its effect on what is stored. */
  lemma StoredAfter(s: State, op: Op)
    requires Consistent(s) && InRange(op)
    ensures Stored(After(s, op).flash) == Effect(Stored(s.flash), op)
  {
    hide Bit, Count, Effect, Stored, Set, Clear, FirstFree;
    WritesHaveEffect(s, op);
  }

  // ----- power loss -----

  /** The flash when the power is lost after `k` writes. */
  function LostAfter(s: State, op: Op, k: nat): (f: Flash)
    requires Sized(s) && InRange(op)
    ensures |f.records| == SLOTS
  {
    var ws := Writes(s, op);
    if k == 0 || ws == [] then s.flash else ws[(if k < |ws| then k else |ws|) - 1]
  }

  /** An operation, or one in which the power is lost after `writes` writes and the store started again. */
  datatype Event = Do(op: Op) | Lose(op: Op, writes: nat)

  function Next(s: State, e: Event): (r: State)
    requires Sized(s) && InRange(e.op)
    ensures Sized(r)
  {
    match e
    case Do(op) => After(s, op)
    case Lose(op, k) => Init(LostAfter(s, op, k))
  }

  function NumberOfWrites(op: Op): nat {
    if op.Save? then 2 else 1
  }

  /** What is stored after the event: all of the operation's effect or none of it. */
  function Means(m: Faces, e: Event): Faces {
    match e
    case Do(op) => Effect(m, op)
    case Lose(op, k) => if k < NumberOfWrites(op) then m else Effect(m, op)
  }

  predicate Proper(m: Faces, e: Event) {
    InRange(e.op) && (e.Do? ==> Allowed(m, e.op))
  }

  /** After a loss of power the store is what it was before the operation or after it. */
  lemma LossIsAtomic(s: State, op: Op, k: nat)
    requires Consistent(s) && InRange(op)
    ensures var r := Init(LostAfter(s, op, k));
      Consistent(r) && Stored(r.flash) == Means(Stored(s.flash), Lose(op, k))
  {
    hide Effect, Stored, Init, FirstFree, Count, Set, Clear, Empty;
    var ws := Writes(s, op);
    InitIsConsistent(LostAfter(s, op, k));
    WritesHaveEffect(s, op);
    if k > 0 && ws != [] {
      WritesAreAtomic(s, op, (if k < |ws| then k else |ws|) - 1);
    }
  }

  function Run(s: State, es: seq<Event>): (r: State)
    requires Sized(s) && forall e :: e in es ==> InRange(e.op)
    ensures Sized(r)
  {
    if es == [] then s else Next(Run(s, es[..|es| - 1]), es[|es| - 1])
  }

  function Meaning(m: Faces, es: seq<Event>): Faces {
    if es == [] then m else Means(Meaning(m, es[..|es| - 1]), es[|es| - 1])
  }

  /** Every event is proper at its turn. */
  predicate Properly(m: Faces, es: seq<Event>) {
    forall k :: 0 <= k < |es| ==> Proper(Meaning(m, es[..k]), es[k])
  }

  /** Over every run with any number of power losses the state is consistent and what is stored is what the
      events mean. */
  lemma {:induction false} RunsAreSafe(s: State, es: seq<Event>)
    requires Consistent(s) && Properly(Stored(s.flash), es)
    ensures (forall e :: e in es ==> InRange(e.op)) && Consistent(Run(s, es)) && Stored(Run(s, es).flash) == Meaning(Stored(s.flash), es)
  {
    hide Cached, Count, Stored, Effect, Next, InRange, Allowed;
    if es != [] {
      var n := |es| - 1;
      ProperlyBefore(Stored(s.flash), es);
      RunsAreSafe(s, es[..n]);
      StepIsSafe(Run(s, es[..n]), es[n]);
      assert es == es[..n] + [es[n]];
    }
  }

  lemma ProperlyBefore(m: Faces, es: seq<Event>)
    requires es != [] && Properly(m, es)
    ensures Properly(m, es[..|es| - 1]) && Proper(Meaning(m, es[..|es| - 1]), es[|es| - 1])
  {
    hide Proper, Meaning;
    var before := es[..|es| - 1];
    forall k | 0 <= k < |before| ensures Proper(Meaning(m, before[..k]), before[k]) {
      assert before[..k] == es[..k];
      assert Proper(Meaning(m, es[..k]), es[k]);
    }
  }

  lemma StepIsSafe(s: State, e: Event)
    requires Consistent(s) && Proper(Stored(s.flash), e)
    ensures Consistent(Next(s, e)) && Stored(Next(s, e).flash) == Means(Stored(s.flash), e)
  {
    hide Stored, Effect, After, Init, LostAfter, Allowed;
    match e
    case Do(op) =>
      KeepsIff(s, op);
      StoredAfter(s, op);
    case Lose(op, k) => LossIsAtomic(s, op, k);
  }

  /** The same from the first start, whatever the flash holds. */
  lemma RunsFromAnyFlash(f: Flash, es: seq<Event>)
    requires |f.records| == SLOTS
    requires Properly(if f.info.header == FACE_HEADER then Stored(f) else map[], es)
    ensures forall e :: e in es ==> InRange(e.op)
    ensures var r := Run(Init(f), es);
      && Consistent(r) && r.info.number == |Stored(r.flash)|
      && Stored(r.flash) == Meaning(if f.info.header == FACE_HEADER then Stored(f) else map[], es)
  {
    hide Stored, Consistent, Properly, Run, Meaning, Init;
    InitIsConsistent(f);
    RunsAreSafe(Init(f), es);
    NumberOfStored(Run(Init(f), es));
  }

  // ----- what is read -----

  /** The records of the occupied slots below `n`, in order. */
  function Listed(f: Flash, x: Index, n: nat := SLOTS): (r: seq<FaceInfo>)
    requires |f.records| == SLOTS && n <= SLOTS
    ensures |r| == Count(x, n)
  {
    if n == 0 then [] else Listed(f, x, n - 1) + if Bit(x, n - 1) then [f.records[n - 1]] else []
  }

  lemma {:induction false} ListedGrows(f: Flash, x: Index, m: nat, n: nat)
    requires |f.records| == SLOTS && m <= n <= SLOTS
    ensures Listed(f, x, m) <= Listed(f, x, n)
  {
    hide Bit;
    if m < n { ListedGrows(f, x, m, n - 1); }
  }

  /** The list has exactly the stored records: that of an occupied slot stands at the number of slots occupied
      below it. */
  lemma ListedIsStored(s: State, i: nat)
    requires Consistent(s) && i in Stored(s.flash)
    ensures |Listed(s.flash, s.info.index)| == |Stored(s.flash)|
    ensures var k := Count(s.info.index, i);
      k < |Listed(s.flash, s.info.index)| && Listed(s.flash, s.info.index)[k] == Stored(s.flash)[i]
  {
    hide Bit;
    NumberOfStored(s);
    ListedGrows(s.flash, s.info.index, i + 1, SLOTS);
  }

  /** Records stand in the order of their slots. */
  lemma ListedInOrder(s: State, i: nat, j: nat)
    requires Consistent(s) && i in Stored(s.flash) && j in Stored(s.flash)
    ensures i < j <==> Count(s.info.index, i) < Count(s.info.index, j)
  {
    hide Bit;
    if i < j { CountMonotone(s.info.index, i + 1, j); } else { CountMonotone(s.info.index, j, i); }
  }
}
