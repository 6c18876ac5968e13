/** Who may use which hardware key slot. The secure monitor is outside: whether a load succeeds is a
    parameter, and what it derives from an access key and a source is kept symbolic. */
module Keyslots {

  type Owner = nat

  const NO_OWNER: Owner := 0

  const SLOTS := 6

  const VERSION_1_0_0 := 0x01_00_00
  const VERSION_6_0_0 := 0x06_00_00

  function SlotsOn(version: nat): (n: nat)
    ensures n <= SLOTS
  {
    if version >= VERSION_6_0_0 then SLOTS else 4
  }

  type Data = int

  /** What a slot holds. */
  datatype SlotKey = Unset | Aes(accessKey: Data, source: Data) | Title(accessKey: Data)

  const CLEARED: SlotKey := Aes(0, 0)

  /** The source that `GenerateAesKey` loads its key with. */
  const GENERATE_SOURCE: Data := 0x89615EE05C31B6805FE58F3DA24F7AA8

  datatype Error = InvalidKeyslot | OutOfKeyslots | Monitor(code: int)

  datatype Outcome<T> = Success(value: T) | Failure(error: Error)

  /** The monitor's answer to one call: zero is success. */
  type Reply = int

  datatype State = State(owners: seq<Owner>, keys: seq<SlotKey>, available: bool, signals: nat) {
    ghost predicate Valid() { |owners| == |keys| == SLOTS }
  }

  // ---------- The operations as functions ----------

  predicate MayUse(version: nat, owners: seq<Owner>, slot: nat, owner: Owner)
    requires |owners| == SLOTS
  {
    slot < SlotsOn(version) && (owners[slot] == owner || version == VERSION_1_0_0)
  }

  /** The first free slot from `i` on, or the number of slots. */
  function FirstFree(owners: seq<Owner>, i: nat, n: nat): (k: nat)
    requires i <= n <= |owners|
    ensures i <= k <= n
    ensures k < n ==> owners[k] == NO_OWNER
    ensures forall j | i <= j < k :: owners[j] != NO_OWNER
    decreases n - i
  {
    if i == n || owners[i] == NO_OWNER then i else FirstFree(owners, i + 1, n)
  }

  function Allocated(version: nat, st: State, owner: Owner): (r: (State, Outcome<nat>))
    requires st.Valid()
    ensures r.0.Valid() && (r.1.Success? ==> r.1.value < SLOTS)
  {
    if version <= VERSION_1_0_0 then (st, Success(0))
    else
      var k := FirstFree(st.owners, 0, SlotsOn(version));
      if k < SlotsOn(version) then (State.State(st.owners[k := owner], st.keys, st.available, st.signals), Success(k))
      else (State.State(st.owners, st.keys, false, st.signals), Failure(OutOfKeyslots))
  }

  function Loaded(st: State, slot: nat, key: SlotKey, reply: Reply): (r: State)
    requires st.Valid() && slot < SLOTS
    ensures r.Valid()
  {
    if reply == 0 then State.State(st.owners, st.keys[slot := key], st.available, st.signals) else st
  }

  function LoadedBy(version: nat, st: State, slot: nat, owner: Owner, key: SlotKey, reply: Reply):
      (r: (State, Outcome<()>))
    requires st.Valid()
    ensures r.0.Valid()
  {
    if !MayUse(version, st.owners, slot, owner) then (st, Failure(InvalidKeyslot))
    else (Loaded(st, slot, key, reply), if reply == 0 then Success(()) else Failure(Monitor(reply)))
  }

  function Freed(version: nat, st: State, slot: nat, owner: Owner, reply: Reply): (r: (State, Outcome<()>))
    requires st.Valid()
    ensures r.0.Valid()
  {
    if version <= VERSION_1_0_0 then (st, Success(()))
    else if !MayUse(version, st.owners, slot, owner) then (st, Failure(InvalidKeyslot))
    else
      var cleared := Loaded(st, slot, CLEARED, reply);
      (State.State(cleared.owners[slot := NO_OWNER], cleared.keys, true, cleared.signals + 1), Success(()))
  }

  /** Freeing every slot from `i` on that `owner` holds. */
  function AllFreed(version: nat, st: State, owner: Owner, reply: nat -> Reply, i: nat): (r: State)
    requires st.Valid() && i <= SlotsOn(version)
    ensures r.Valid()
    decreases SlotsOn(version) - i
  {
    if i == SlotsOn(version) then st
    else
      var next := if st.owners[i] == owner then Freed(version, st, i, owner, reply(i)).0 else st;
      AllFreed(version, next, owner, reply, i + 1)
  }

  /** Block decryption with the key of a slot. */
  type Decrypt = (SlotKey, Data) -> Data

  /** Borrowing a slot, loading and using it, and giving it back on the way out. */
  function Generated(version: nat, st: State, decrypt: Decrypt, holder: Owner, accessKey: Data, source: Data,
                     load: Reply, use: Reply, clear: Reply): (r: (State, Outcome<Data>))
    requires st.Valid()
    ensures r.0.Valid()
  {
    var (borrowed, slot) := Allocated(version, st, holder);
    if slot.Failure? then (borrowed, Failure(slot.error))
    else
      var loaded := Loaded(borrowed, slot.value, Aes(accessKey, GENERATE_SOURCE), load);
      var out := if load != 0 then Failure(Monitor(load))
                 else if use != 0 then Failure(Monitor(use))
                 else Success(decrypt(loaded.keys[slot.value], source));
      (Freed(version, loaded, slot.value, holder, clear).0, out)
  }

  // ---------- Runs ----------

  datatype Call =
    | Allocate(owner: Owner)
    | LoadAes(owner: Owner, slot: nat, accessKey: Data, source: Data, reply: Reply)
    | LoadTitle(owner: Owner, slot: nat, accessKey: Data, reply: Reply)
    | Free(owner: Owner, slot: nat, reply: Reply)
    | FreeAll(owner: Owner, replies: nat -> Reply)
    | Generate(owner: Owner, accessKey: Data, source: Data, load: Reply, use: Reply, clear: Reply)
    | Wait

  function After(version: nat, decrypt: Decrypt, st: State, call: Call): (r: State)
    requires st.Valid()
    ensures r.Valid()
  {
    match call
    case Allocate(o) => Allocated(version, st, o).0
    case LoadAes(o, slot, accessKey, source, reply) =>
      LoadedBy(version, st, slot, o, Aes(accessKey, source), reply).0
    case LoadTitle(o, slot, accessKey, reply) => LoadedBy(version, st, slot, o, Title(accessKey), reply).0
    case Free(o, slot, reply) => Freed(version, st, slot, o, reply).0
    case FreeAll(o, replies) => AllFreed(version, st, o, replies, 0)
    case Generate(o, accessKey, source, load, use, clear) =>
      Generated(version, st, decrypt, o, accessKey, source, load, use, clear).0
    // A client waiting for a free slot consumes the signal.
    case Wait => State.State(st.owners, st.keys, false, st.signals)
  }

  function Run(version: nat, decrypt: Decrypt, st: State, calls: seq<Call>): (r: State)
    requires st.Valid()
    ensures r.Valid()
    decreases |calls|
  {
    if calls == [] then st else Run(version, decrypt, After(version, decrypt, st, calls[0]), calls[1..])
  }

  /** Calls by others than `owner`, none of them in nobody's name. */
  ghost predicate ByOthers(calls: seq<Call>, owner: Owner) {
    forall i | 0 <= i < |calls| :: !calls[i].Wait? ==> calls[i].owner != owner && calls[i].owner != NO_OWNER
  }

  ghost predicate SameSlot(a: State, b: State, slot: nat)
    requires a.Valid() && b.Valid() && slot < SLOTS
  {
    a.owners[slot] == b.owners[slot] && a.keys[slot] == b.keys[slot]
  }

  lemma {:induction false} AllFreedKeeps(version: nat, st: State, owner: Owner, reply: nat -> Reply, i: nat, slot: nat)
    requires st.Valid() && i <= SlotsOn(version) && version > VERSION_1_0_0 && slot < SLOTS
    requires st.owners[slot] != owner
    ensures SameSlot(st, AllFreed(version, st, owner, reply, i), slot)
    decreases SlotsOn(version) - i
  {
    if i < SlotsOn(version) {
      var next := if st.owners[i] == owner then Freed(version, st, i, owner, reply(i)).0 else st;
      AllFreedKeeps(version, next, owner, reply, i + 1, slot);
    }
  }

  lemma CallKeepsHeldSlot(version: nat, decrypt: Decrypt, st: State, call: Call, slot: nat)
    requires st.Valid() && version > VERSION_1_0_0 && slot < SLOTS && st.owners[slot] != NO_OWNER
    requires ByOthers([call], st.owners[slot])
    ensures SameSlot(st, After(version, decrypt, st, call), slot)
  {
    assert !call.Wait? ==> call == [call][0] && call.owner != st.owners[slot];
    if call.FreeAll? {
      AllFreedKeeps(version, st, call.owner, call.replies, 0, slot);
    }
  }

  /** After 1.0.0 a held slot keeps its owner and its key over every run of calls by others. */
  lemma {:induction false} RunKeepsHeldSlot(version: nat, decrypt: Decrypt, st: State, calls: seq<Call>, slot: nat)
    requires st.Valid() && version > VERSION_1_0_0 && slot < SLOTS && st.owners[slot] != NO_OWNER
    requires ByOthers(calls, st.owners[slot])
    ensures SameSlot(st, Run(version, decrypt, st, calls), slot)
    decreases |calls|
  {
    hide After;
    if calls != [] {
      CallKeepsHeldSlot(version, decrypt, st, calls[0], slot);
      RunKeepsHeldSlot(version, decrypt, After(version, decrypt, st, calls[0]), calls[1..], slot);
    }
  }

  /** On 1.0.0 nothing is kept apart: two owners get the same slot, and the second one's load replaces the
      first one's key. */
  lemma SlotsAreSharedOn100(st: State, a: Owner, b: Owner, key: Data, other: Data, source: Data)
    requires st.Valid() && key != other
    ensures var v := VERSION_1_0_0;
            && Allocated(v, st, a).1 == Success(0)
            && Allocated(v, Allocated(v, st, a).0, b).1 == Success(0)
            && var mine := LoadedBy(v, st, 0, a, Aes(key, source), 0).0;
               LoadedBy(v, mine, 0, b, Aes(other, source), 0).0.keys[0] != mine.keys[0]
  {
  }

  /** Generating a key leaves the owner table as it was, whatever the monitor answers, and touches the key
      of no held slot. Its result depends on the request, the monitor's answers and whether a slot is free,
      not on which slot that is or what was in it. */
  lemma GenerateBorrows(version: nat, st: State, decrypt: Decrypt, holder: Owner, accessKey: Data, source: Data,
                        load: Reply, use: Reply, clear: Reply)
    requires st.Valid()
    ensures var r := Generated(version, st, decrypt, holder, accessKey, source, load, use, clear);
            && r.0.owners == st.owners
            && (version > VERSION_1_0_0 ==>
                  forall s | 0 <= s < SLOTS && st.owners[s] != NO_OWNER :: r.0.keys[s] == st.keys[s])
            && r.1 == (if version > VERSION_1_0_0 && !SomeFree(version, st) then Failure(OutOfKeyslots)
                       else if load != 0 then Failure(Monitor(load))
                       else if use != 0 then Failure(Monitor(use))
                       else Success(decrypt(Aes(accessKey, GENERATE_SOURCE), source)))
  {
    var k := FirstFree(st.owners, 0, SlotsOn(version));
    if version > VERSION_1_0_0 && k < SlotsOn(version) {
      assert st.owners[k := holder][k := NO_OWNER] == st.owners;
      assert SomeFree(version, st);
    }
  }

  // ---------- The available event ----------

  ghost predicate SomeFree(version: nat, st: State)
    requires st.Valid()
  {
    exists i :: 0 <= i < SlotsOn(version) && st.owners[i] == NO_OWNER
  }

  /** Allocation after 1.0.0 fails exactly when no slot is free. */
  lemma AllocationFailsWhenFull(version: nat, st: State, owner: Owner)
    requires st.Valid() && version > VERSION_1_0_0
    ensures Allocated(version, st, owner).1.Failure? <==> !SomeFree(version, st)
  {
    assert FirstFree(st.owners, 0, SlotsOn(version)) < SlotsOn(version) ==> SomeFree(version, st);
  }

  /** A slot becomes free only with a signal. */
  ghost predicate FreedWithSignal(version: nat, before: State, after: State)
    requires before.Valid() && after.Valid()
  {
    && before.signals <= after.signals
    && (before.signals == after.signals && SomeFree(version, after) ==> SomeFree(version, before))
  }

  lemma {:induction false} AllFreedSignals(version: nat, st: State, owner: Owner, reply: nat -> Reply, i: nat)
    requires st.Valid() && i <= SlotsOn(version)
    ensures FreedWithSignal(version, st, AllFreed(version, st, owner, reply, i))
    decreases SlotsOn(version) - i
  {
    if i < SlotsOn(version) {
      var next := if st.owners[i] == owner then Freed(version, st, i, owner, reply(i)).0 else st;
      AllFreedSignals(version, next, owner, reply, i + 1);
    }
  }

  lemma CallFreesWithSignal(version: nat, decrypt: Decrypt, st: State, call: Call)
    requires st.Valid()
    ensures FreedWithSignal(version, st, After(version, decrypt, st, call))
  {
    match call
    case FreeAll(o, replies) => AllFreedSignals(version, st, o, replies, 0);
    case Generate(o, accessKey, source, load, use, clear) =>
      GenerateBorrows(version, st, decrypt, o, accessKey, source, load, use, clear);
    case Allocate(o) =>
      var k := FirstFree(st.owners, 0, SlotsOn(version));
      assert k < SlotsOn(version) ==> SomeFree(version, st);
    case _ =>
  }

  /** Over every run from a failed allocation on, no slot is free unless the event was signalled. */
  lemma {:induction false} NoFreeSlotWithoutSignal(version: nat, decrypt: Decrypt, st: State, calls: seq<Call>)
    requires st.Valid()
    ensures FreedWithSignal(version, st, Run(version, decrypt, st, calls))
    decreases |calls|
  {
    hide After;
    if calls != [] {
      var next := After(version, decrypt, st, calls[0]);
      CallFreesWithSignal(version, decrypt, st, calls[0]);
      NoFreeSlotWithoutSignal(version, decrypt, next, calls[1..]);
    }
  }

  /** Once an allocation has failed, a slot is free again only after the event has been signalled. */
  lemma FullUntilSignalled(version: nat, decrypt: Decrypt, st: State, owner: Owner, calls: seq<Call>)
    requires st.Valid() && version > VERSION_1_0_0 && Allocated(version, st, owner).1.Failure?
    ensures var end := Run(version, decrypt, Allocated(version, st, owner).0, calls);
            SomeFree(version, end) ==> end.signals > st.signals
  {
    AllocationFailsWhenFull(version, st, owner);
    NoFreeSlotWithoutSignal(version, decrypt, Allocated(version, st, owner).0, calls);
  }

  /** The event is set whenever there is a slot to be had. */
  ghost predicate Announced(version: nat, st: State)
    requires st.Valid()
  {
    SomeFree(version, st) ==> st.available
  }

  lemma {:induction false} AllFreedAnnounces(version: nat, st: State, owner: Owner, reply: nat -> Reply, i: nat)
    requires st.Valid() && i <= SlotsOn(version) && Announced(version, st)
    ensures Announced(version, AllFreed(version, st, owner, reply, i))
    decreases SlotsOn(version) - i
  {
    if i < SlotsOn(version) {
      var next := if st.owners[i] == owner then Freed(version, st, i, owner, reply(i)).0 else st;
      AllFreedAnnounces(version, next, owner, reply, i + 1);
    }
  }

  /** As long as nobody waits, every run keeps the event set while a slot is free. */
  lemma {:induction false} RunAnnounces(version: nat, decrypt: Decrypt, st: State, calls: seq<Call>)
    requires st.Valid() && Announced(version, st)
    requires forall i | 0 <= i < |calls| :: !calls[i].Wait?
    ensures Announced(version, Run(version, decrypt, st, calls))
    decreases |calls|
  {
    hide Generated, AllFreed;
    if calls != [] {
      var next := After(version, decrypt, st, calls[0]);
      assert Announced(version, next) by { CallAnnounces(version, decrypt, st, calls[0]); }
      RunAnnounces(version, decrypt, next, calls[1..]);
    }
  }

  lemma CallAnnounces(version: nat, decrypt: Decrypt, st: State, call: Call)
    requires st.Valid() && Announced(version, st) && !call.Wait?
    ensures Announced(version, After(version, decrypt, st, call))
  {
    match call
    case FreeAll(o, replies) => AllFreedAnnounces(version, st, o, replies, 0);
    case Generate(o, accessKey, source, load, use, clear) =>
      AllocationAnnounces(version, st, o);
      GenerateBorrows(version, st, decrypt, o, accessKey, source, load, use, clear);
    case Allocate(o) => AllocationAnnounces(version, st, o);
    case _ =>
  }

  lemma AllocationAnnounces(version: nat, st: State, owner: Owner)
    requires st.Valid() && Announced(version, st)
    ensures Announced(version, Allocated(version, st, owner).0)
  {
    if version > VERSION_1_0_0 {
      var next := Allocated(version, st, owner).0;
      var k := FirstFree(st.owners, 0, SlotsOn(version));
      if k < SlotsOn(version) {
        assert SomeFree(version, st);
      } else {
        assert !SomeFree(version, next);
      }
    }
  }

  // ---------- The service's globals ----------

  class Manager {
    const version: nat
    const owners: array<Owner>
    var keys: seq<SlotKey>
    var available: bool
    ghost var signals: nat

    constructor (version: nat)
      ensures Valid() && fresh(owners) && this.version == version
      ensures AsState() == State.State(seq(SLOTS, _ => NO_OWNER), seq(SLOTS, _ => Unset), true, 1)
    {
      this.version := version;
      owners := new Owner[SLOTS](_ => NO_OWNER);
      keys := seq(SLOTS, _ => Unset);
      available, signals := true, 1;
    }

    ghost predicate Valid()
      reads this
    {
      owners.Length == |keys| == SLOTS
    }

    ghost function AsState(): (st: State)
      requires Valid()
      reads this, owners
      ensures st.Valid()
    {
      State.State(owners[..], keys, available, signals)
    }

    /** The monitor's load command. */
    method MonitorLoad(slot: nat, key: SlotKey, reply: Reply)
      requires Valid() && slot < SLOTS
      modifies this`keys
      ensures Valid() && AsState() == Loaded(old(AsState()), slot, key, reply)
    {
      if reply == 0 { keys := keys[slot := key]; }
    }

    predicate ValidateAesKeyslot(slot: nat, owner: Owner)
      requires Valid()
      reads this, owners
    {
      slot < SlotsOn(version) && (owners[slot] == owner || version == VERSION_1_0_0)
    }

    method AllocateAesKeyslot(owner: Owner) returns (outcome: Outcome<nat>)
      requires Valid()
      modifies owners, this`available
      ensures Valid() && (AsState(), outcome) == Allocated(version, old(AsState()), owner)
    {
      if version <= VERSION_1_0_0 {
        return Success(0);
      }
      ghost var before := owners[..];
      var i := 0;
      while i < SlotsOn(version)
        invariant 0 <= i <= SlotsOn(version) && owners[..] == before
        invariant FirstFree(before, 0, SlotsOn(version)) == FirstFree(before, i, SlotsOn(version))
      {
        if owners[i] == NO_OWNER {
          owners[i] := owner;
          return Success(i);
        }
        i := i + 1;
      }
      available := false;
      return Failure(OutOfKeyslots);
    }

    method FreeAesKeyslot(slot: nat, owner: Owner, clear: Reply) returns (outcome: Outcome<()>)
      requires Valid()
      modifies owners, this`keys, this`available, this`signals
      ensures Valid() && (AsState(), outcome) == Freed(version, old(AsState()), slot, owner, clear)
    {
      if version <= VERSION_1_0_0 {
        return Success(());
      }
      if !ValidateAesKeyslot(slot, owner) {
        return Failure(InvalidKeyslot);
      }
      MonitorLoad(slot, CLEARED, clear);
      owners[slot] := NO_OWNER;
      available, signals := true, signals + 1;
      return Success(());
    }

    method FreeAesKeyslots(owner: Owner, replies: nat -> Reply)
      requires Valid()
      modifies owners, this`keys, this`available, this`signals
      ensures Valid() && AsState() == AllFreed(version, old(AsState()), owner, replies, 0)
    {
      hide Freed;
      for i := 0 to SlotsOn(version)
        invariant Valid()
        invariant AllFreed(version, old(AsState()), owner, replies, 0)
               == AllFreed(version, AsState(), owner, replies, i)
      {
        if owners[i] == owner {
          var _ := FreeAesKeyslot(i, owner, replies(i));
        }
      }
    }

    method LoadAesKey(slot: nat, owner: Owner, accessKey: Data, source: Data, reply: Reply)
      returns (outcome: Outcome<()>)
      requires Valid()
      modifies this`keys
      ensures Valid()
      ensures (AsState(), outcome) == LoadedBy(version, old(AsState()), slot, owner, Aes(accessKey, source), reply)
    {
      if !ValidateAesKeyslot(slot, owner) {
        return Failure(InvalidKeyslot);
      }
      MonitorLoad(slot, Aes(accessKey, source), reply);
      return if reply == 0 then Success(()) else Failure(Monitor(reply));
    }

    method LoadTitleKey(slot: nat, owner: Owner, accessKey: Data, reply: Reply) returns (outcome: Outcome<()>)
      requires Valid()
      modifies this`keys
      ensures Valid() && (AsState(), outcome) == LoadedBy(version, old(AsState()), slot, owner, Title(accessKey), reply)
    {
      if !ValidateAesKeyslot(slot, owner) {
        return Failure(InvalidKeyslot);
      }
      MonitorLoad(slot, Title(accessKey), reply);
      return if reply == 0 then Success(()) else Failure(Monitor(reply));
    }

    /** `holder` is the address of the scoped holder, whose destructor frees the slot on every path out. */
    method GenerateAesKey(decrypt: Decrypt, holder: Owner, accessKey: Data, source: Data,
                          load: Reply, use: Reply, clear: Reply) returns (outcome: Outcome<Data>)
      requires Valid()
      modifies owners, this`keys, this`available, this`signals
      ensures Valid()
      ensures (AsState(), outcome)
           == Generated(version, old(AsState()), decrypt, holder, accessKey, source, load, use, clear)
    {
      hide Allocated, Freed;
      var slot := AllocateAesKeyslot(holder);
      if slot.Failure? {
        return Failure(slot.error);
      }
      MonitorLoad(slot.value, Aes(accessKey, GENERATE_SOURCE), load);
      var status := load;
      if status == 0 {
        status := use;
        if use == 0 { outcome := Success(decrypt(keys[slot.value], source)); }
      }
      if status != 0 { outcome := Failure(Monitor(status)); }
      var _ := FreeAesKeyslot(slot.value, holder, clear);
    }
  }
}
