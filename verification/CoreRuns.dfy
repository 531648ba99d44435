/** The whole system over suspend cycles: the kernel sets its waking vector in the FACS, the hooks put
    core's in its place, core stores or switches (core/core.c), and the firmware resumes whatever the
    FACS then names. */
module CoreRuns {
  import opened Arith
  import opened Bytes
  import opened DumpFormat
  import opened DumpSwitch
  import opened Dump
  import opened VirtioBlk

  const NOOP: nat := 0
  const STORE: nat := 1
  const SWITCH: nat := 2
  const ACTION_MAX: nat := 3
  /** CORE_WAKEUP_PHYS_ADDR. */
  const CORE_VECTOR: nat := 0x1000
  /** Offset of FWAK, the word of the FACS that the firmware jumps to. */
  const FWAK: nat := 12

  /** What stays the same: `g_core_header` and core's own memory. */
  datatype Env = Env(table: seq<MemArea>, facs: nat, headerAt: nat, bufAt: nat)

  datatype Sys = Sys(ram: seq<byte>, disk: seq<byte>)

  ghost predicate Fitting(env: Env, s: Sys) {
    && InRam(env.table, |s.ram|) && env.facs + FACS_BYTES <= |s.ram|
    && AreasAvoid(env.table, env.facs, FACS_BYTES) && AreasAvoid(env.table, env.headerAt, HEADER_BYTES)
    && AreasAvoid(env.table, env.bufAt, SWITCH_BUF_SIZE)
    && Apart(MemArea(env.headerAt, HEADER_BYTES), MemArea(env.facs, FACS_BYTES))
    && Apart(MemArea(env.bufAt, SWITCH_BUF_SIZE), MemArea(env.facs, FACS_BYTES))
  }

  // ----- The waking vector -----

  /** The two words of the FACS. */
  datatype Facs = Facs(fwak: nat, rsv1: nat)

  function FacsOf(ram: seq<byte>, facs: nat): Facs
    requires facs + FACS_BYTES <= |ram|
  {
    Facs(Load(ram[facs + FWAK..facs + FWAK + 4]), Load(ram[facs + RSV1..facs + RSV1 + 4]))
  }

  /** The hooks: `_PTS` (pts_hook.asl) always moves the vector away, a sleep checkpoint (set_variable.c)
      only when it is not core's already. */
  datatype Hook = Pts | Checkpoint

  function Handle(f: Facs, hook: Hook): Facs {
    match hook
    case Pts => Facs(CORE_VECTOR, f.fwak)
    case Checkpoint => if f.fwak != CORE_VECTOR then Facs(CORE_VECTOR, f.fwak) else f
  }

  function HandleAll(f: Facs, hooks: seq<Hook>): Facs {
    if hooks == [] then f else Handle(HandleAll(f, hooks[..|hooks| - 1]), hooks[|hooks| - 1])
  }

  /** A hook runs after the kernel's last write of its vector, and `_PTS` is not run after another. */
  predicate HooksInOrder(hooks: seq<Hook>) {
    hooks != [] && forall i :: 1 <= i < |hooks| ==> hooks[i].Checkpoint?
  }

  /** Core is entered, and finds the kernel's vector, exactly then. */
  lemma {:induction false} HooksKeepVector(v: nat, rsv1: nat, hooks: seq<Hook>)
    requires v != CORE_VECTOR
    ensures HandleAll(Facs(v, rsv1), hooks) == Facs(CORE_VECTOR, v) <==> HooksInOrder(hooks)
    ensures hooks != [] && !HooksInOrder(hooks) ==> HandleAll(Facs(v, rsv1), hooks) == Facs(CORE_VECTOR, CORE_VECTOR)
  {
    if hooks != [] {
      var rest := hooks[..|hooks| - 1];
      HooksKeepVector(v, rsv1, rest);
      assert HandleAll(Facs(v, rsv1), hooks) == Handle(HandleAll(Facs(v, rsv1), rest), hooks[|hooks| - 1]);
      if rest == [] {
        assert HandleAll(Facs(v, rsv1), rest) == Facs(v, rsv1);
      } else if !HooksInOrder(rest) {
        var i :| 1 <= i < |rest| && !rest[i].Checkpoint?;
        assert hooks[i] == rest[i];
      } else {
        assert HooksInOrder(hooks) <==> hooks[|hooks| - 1].Checkpoint? by {
          assert forall i :: 1 <= i < |rest| ==> hooks[i] == rest[i];
        }
      }
    }
  }

  /** `acpi_return_kernel`: preparing for sleep runs the hooked `_PTS`, and then the vector is set. */
  function ReturnKernel(f: Facs, vector: nat): Facs {
    if vector != 0 then Handle(f, Pts).(fwak := vector) else Handle(f, Pts)
  }

  // ----- One entry into core -----

  datatype Outcome = Refused | Wrote | WriteStopped(k: nat) | Swapped | SwapStopped(stop: Stop) | HeaderLost

  /** What core may do to memory and disk, and the vector that it resumes. Outside the areas and its own
      memory it changes nothing. */
  ghost predicate CoreStep(o: Outcome, env: Env, valid: bool, action: nat, s: Sys, s': Sys, vector: nat) {
    && Fitting(env, s) && |s'.disk| == |s.disk| && Outside(s.ram, s'.ram, env.table, env.headerAt, env.bufAt)
    && var v0 := FacsOf(s.ram, env.facs).rsv1;
    match o
    case Refused =>
      s'.disk == s.disk && SameOutsideCore(s.ram, s'.ram, env.headerAt, env.bufAt) && vector == if valid then v0 else 0
    case Wrote =>
      action == STORE && IsWritten(s.ram, s.disk, s'.disk, env.table, v0)
      && SameOutsideCore(s.ram, s'.ram, env.headerAt, env.bufAt) && vector == v0
    case WriteStopped(k) =>
      action == STORE && WholeSectors(env.table) && HalfWritten(s.ram, s.disk, s'.disk, env.table, k)
      && SameOutsideCore(s.ram, s'.ram, env.headerAt, env.bufAt) && vector == v0
    case Swapped =>
      action == SWITCH
      && SwitchEnds(Done, s.ram, s.disk, s'.ram, s'.disk, env.table, env.headerAt, env.bufAt, v0, v0, vector)
    case SwapStopped(stop) =>
      action == SWITCH
      && SwitchEnds(Stopped(stop), s.ram, s.disk, s'.ram, s'.disk, env.table, env.headerAt, env.bufAt, v0, v0, vector)
    case HeaderLost =>
      action == SWITCH
      && SwitchEnds(SwitchEnd.HeaderLost, s.ram, s.disk, s'.ram, s'.disk, env.table, env.headerAt, env.bufAt, v0, v0,
        vector)
  }

  /** `is_core_header_valid`, but for its constant magic. */
  predicate HeaderValid(table: seq<MemArea>, facs: nat, action: nat, rsdp: nat) {
    action < ACTION_MAX && facs != 0 && rsdp != 0 && |table| <= MAX_RAM_AREAS
      && forall i :: 0 <= i < |table| ==> table[i].size != 0
  }

  ghost function EnvOf(core: Core): Env { Env(core.table, core.facs, core.headerAt, core.bufAt) }

  ghost function SysOf(core: Core): Sys
    reads core.dev, core.dev.ram, core.dev.disk
  {
    Sys(core.dev.ram[..], core.dev.disk[..])
  }

  /** Why core ends as it does: nothing is refused, and nothing stops, for another reason. */
  ghost predicate OutcomeBecause(o: Outcome, ready: bool, action: nat, served: bool, disk: seq<byte>,
      table: seq<MemArea>)
  {
    var accepted := HEADER_BYTES <= |disk| && Accepted(Decode(disk[..HEADER_BYTES]), table);
    var whole := forall i :: 0 <= i < |table| ==> table[i].size % SECTOR == 0;
    match o
    case Refused =>
      !ready || (action != STORE && action != SWITCH) || (action == STORE && !whole)
      || (action == SWITCH && (!served || !accepted))
    case Wrote => ready && action == STORE && whole && served
    case WriteStopped(_) => ready && action == STORE && whole && !served
    case Swapped => ready && action == SWITCH && accepted && whole && served
    case SwapStopped(_) => ready && action == SWITCH && accepted && (!served || !whole)
    case HeaderLost => ready && action == SWITCH && accepted && whole && !served
  }

  /** `core_main`, as far as the vector that it passes to `acpi_return_kernel`. Whether the device comes
      up is decided elsewhere. A switch that is refused has asked for no more than the two header reads. */
  method CoreMain(core: Core, action: nat, rsdp: nat, deviceReady: bool) returns (vector: nat, ghost o: Outcome)
    requires core.Valid()
    modifies core.dev, core.dev.desc, core.dev.availRing, core.dev.usedRing, core.dev.ram, core.dev.disk
    ensures core.Valid()
    ensures var valid := action < 3 && core.facs != 0 && rsdp != 0
        && forall i :: 0 <= i < |core.table| ==> core.table[i].size != 0;
      && CoreStep(o, EnvOf(core), valid, action, old(SysOf(core)), SysOf(core), vector)
      && OutcomeBecause(o, valid && old(core.Vector()) != 0 && deviceReady, action,
        core.AllServed(old(core.dev.Past())), old(core.dev.disk[..]), core.table)
    ensures Later(old(core.dev.Past()), core.dev.Past())
    ensures o.Refused? ==> core.dev.asked <= old(core.dev.asked) + 2
  {
    hide CoreStep, Fitting, IsWritten, HalfWritten, SwitchEnds, SameOutsideCore, VirtioBlk.Idle,
      HeaderValid, WholeSectors, Accepted, Decode, Load, EndBecause, Served, OutcomeBecause;
    ghost var s, h0 := SysOf(core), core.dev.Past();
    ghost var env, valid := EnvOf(core), HeaderValid(core.table, core.facs, action, rsdp);
    ValidFits(core);
    vector, o := 0, Refused;
    SameStays(env, valid, action, s);
    NotReady(action, core.AllServed(h0), s.disk, core.table);
    HeaderChecked(core.table, core.facs, action, rsdp);
    if !HeaderValid(core.table, core.facs, action, rsdp) { return; }
    var ok;
    ok, vector := core.FindOriginalWakingVector();
    if !ok || !deviceReady { return; }
    if action == STORE {
      ghost var k;
      ok, k := core.StoreDump();
      o := if ok then Wrote else if WholeSectors(core.table) then WriteStopped(k) else Refused;
      StoreSteps(o, env, action, s, SysOf(core), vector, k);
      StoreBecause(o, core.AllServed(h0), s.disk, core.table);
    } else if action == SWITCH {
      var contains;
      ok, contains := core.DoesDiskContainDump();
      ghost var s1, h1 := SysOf(core), core.dev.Past();
      RefusedSteps(env, action, s, s1, vector);
      if !ok || !contains {
        RefusedBecause(ok, core.AllServed(h0), s.disk, core.table);
        return;
      }
      ValidFits(core);
      SameFacs(env, s, s1);
      ghost var end;
      ok, vector, end := core.SwitchDump(vector);
      o := OutcomeOf(end);
      ServedThen(core.dev.size, core.dev.blocks, h0, h1, core.dev.Past());
      SwitchSteps(end, env, action, s, s1, SysOf(core), vector);
      SwitchBecause(end, core.AllServed(h0), s.disk, core.table, FacsOf(s.ram, core.facs).rsv1);
    }
  }

  lemma NotReady(action: nat, served: bool, disk: seq<byte>, table: seq<MemArea>)
    ensures OutcomeBecause(Refused, false, action, served, disk, table)
    ensures action != STORE && action != SWITCH ==> OutcomeBecause(Refused, true, action, served, disk, table)
  {
    hide Accepted, Decode;
  }

  lemma StoreBecause(o: Outcome, served: bool, disk: seq<byte>, table: seq<MemArea>)
    requires forall i :: 0 <= i < |table| ==> table[i].size != 0
    requires match o
      case Wrote => WholeSectors(table) && served
      case WriteStopped(_) => WholeSectors(table) && !served
      case Refused => !WholeSectors(table)
      case _ => false
    ensures OutcomeBecause(o, true, STORE, served, disk, table)
  {
    hide Accepted, Decode;
  }

  lemma RefusedBecause(ok: bool, served: bool, disk: seq<byte>, table: seq<MemArea>)
    requires ok == served
    requires ok ==> HEADER_BYTES <= |disk| && !Accepted(Decode(disk[..HEADER_BYTES]), table)
    ensures OutcomeBecause(Refused, true, SWITCH, served, disk, table)
  {
    hide Accepted, Decode;
  }

  lemma SwitchBecause(end: SwitchEnd, served: bool, disk: seq<byte>, table: seq<MemArea>, v0: nat)
    requires EndBecause(end, served, disk, table, v0) && v0 != 0
    ensures OutcomeBecause(OutcomeOf(end), true, SWITCH, served, disk, table)
  {
    hide Accepted, Decode;
  }

  lemma HeaderChecked(table: seq<MemArea>, facs: nat, action: nat, rsdp: nat)
    requires |table| <= MAX_RAM_AREAS
    ensures HeaderValid(table, facs, action, rsdp) <==>
      action < 3 && facs != 0 && rsdp != 0 && forall i :: 0 <= i < |table| ==> table[i].size != 0
    ensures HeaderValid(table, facs, action, rsdp) ==>
      (WholeSectors(table) <==> forall i :: 0 <= i < |table| ==> table[i].size % SECTOR == 0)
  {
  }

  function OutcomeOf(end: SwitchEnd): Outcome {
    match end
    case Untouched => Refused
    case Stopped(stop) => SwapStopped(stop)
    case HeaderLost => Outcome.HeaderLost
    case Done => Swapped
  }

  lemma ValidFits(core: Core)
    requires core.Valid()
    ensures Fitting(EnvOf(core), SysOf(core)) && core.Vector() == FacsOf(SysOf(core).ram, core.facs).rsv1
  {
    hide VirtioBlk.Idle, Load;
    assert core.dev.ram[..][core.facs + RSV1..core.facs + RSV1 + 4]
      == core.dev.ram[core.facs + RSV1..core.facs + RSV1 + 4];
  }

  lemma SameFacs(env: Env, s: Sys, s': Sys)
    requires Fitting(env, s) && SameOutsideCore(s.ram, s'.ram, env.headerAt, env.bufAt)
    ensures |s'.ram| == |s.ram| && FacsOf(s'.ram, env.facs) == FacsOf(s.ram, env.facs)
  {
    hide Load;
    SameSlice(s'.ram, s.ram, env.facs + FWAK, env.facs + FWAK + 4);
    SameSlice(s'.ram, s.ram, env.facs + RSV1, env.facs + RSV1 + 4);
  }

  lemma SameStays(env: Env, valid: bool, action: nat, s: Sys)
    requires Fitting(env, s)
    ensures CoreStep(Refused, env, valid, action, s, s, if valid then FacsOf(s.ram, env.facs).rsv1 else 0)
  {
    hide Fitting, Load;
  }

  lemma RefusedSteps(env: Env, action: nat, s: Sys, s': Sys, vector: nat)
    requires Fitting(env, s) && s'.disk == s.disk && SameOutsideCore(s.ram, s'.ram, env.headerAt, env.bufAt)
    requires vector == FacsOf(s.ram, env.facs).rsv1
    ensures CoreStep(Refused, env, true, action, s, s', vector)
  {
    hide Fitting, Load;
  }

  lemma StoreSteps(o: Outcome, env: Env, action: nat, s: Sys, s': Sys, vector: nat, k: nat)
    requires Fitting(env, s) && SameOutsideCore(s.ram, s'.ram, env.headerAt, env.bufAt) && action == STORE
    requires vector == FacsOf(s.ram, env.facs).rsv1 && |s'.disk| == |s.disk|
    requires match o
      case Wrote => IsWritten(s.ram, s.disk, s'.disk, env.table, vector)
      case WriteStopped(j) => WholeSectors(env.table) && HalfWritten(s.ram, s.disk, s'.disk, env.table, j)
      case Refused => s'.disk == s.disk
      case _ => false
    ensures CoreStep(o, env, true, action, s, s', vector)
  {
    hide Fitting, Load, IsWritten, HalfWritten;
  }

  /** Looking for a dump first changes only core's own memory. */
  lemma SwitchSteps(end: SwitchEnd, env: Env, action: nat, s: Sys, s1: Sys, s': Sys, vector: nat)
    requires Fitting(env, s) && action == SWITCH && s1.disk == s.disk
      && SameOutsideCore(s.ram, s1.ram, env.headerAt, env.bufAt)
    requires |s'.ram| == |s.ram| && |s'.disk| == |s.disk|
    requires var v0 := FacsOf(s.ram, env.facs).rsv1;
      SwitchEnds(end, s1.ram, s.disk, s'.ram, s'.disk, env.table, env.headerAt, env.bufAt, v0, v0, vector)
    ensures CoreStep(OutcomeOf(end), env, true, action, s, s', vector)
  {
    hide Load, Decode, ByteOf, Accepted, Switchable, Extent, Rebuildable, OnlyThis, Area, Switched, AreasAvoid,
      SameOutsideCore, ImagesExchanged;
    hide Outside;
    SameLength(s.ram, s1.ram, env.headerAt, env.bufAt);
    SameThenOutside(s.ram, s1.ram, s'.ram, env.table, env.headerAt, env.bufAt);
    if end.Untouched? {
      SameTwice(s.ram, s1.ram, s'.ram, env.headerAt, env.bufAt);
    } else if Switchable(s.disk, env.table) {
      if end.Stopped? {
        SwitchedFrom(s.ram, s.disk, s1.ram, end.stop.ram, end.stop.disk, env.table, end.stop.i, env.headerAt,
          env.bufAt);
      } else {
        ImagesFrom(s.ram, s.disk, s1.ram, s'.ram, s'.disk, env.table, env.headerAt, env.bufAt);
      }
    }
  }

  lemma ImagesFrom(ram0: seq<byte>, disk0: seq<byte>, ram1: seq<byte>, ram: seq<byte>, disk: seq<byte>,
      table: seq<MemArea>, headerAt: nat, bufAt: nat)
    requires SameOutsideCore(ram0, ram1, headerAt, bufAt) && AreasAvoid(table, headerAt, HEADER_BYTES)
      && AreasAvoid(table, bufAt, SWITCH_BUF_SIZE)
    requires ImagesExchanged(ram1, disk0, ram, disk, table)
    ensures ImagesExchanged(ram0, disk0, ram, disk, table)
  {
    hide SameOutsideCore, AreasAvoid, Area, Extent;
    SameLength(ram0, ram1, headerAt, bufAt);
    forall i | 0 <= i < |table| ensures Area(ram1, table, i) == Area(ram0, table, i) {
      SameAreas(ram0, ram1, table, headerAt, bufAt, i);
    }
  }

  /** Whatever core does, the FACS is as the hooks left it. */
  lemma CoreKeepsFacs(o: Outcome, env: Env, valid: bool, action: nat, s: Sys, s': Sys, vector: nat)
    requires CoreStep(o, env, valid, action, s, s', vector)
    ensures env.facs + FACS_BYTES <= |s.ram| == |s'.ram| && FacsOf(s'.ram, env.facs) == FacsOf(s.ram, env.facs)
  {
    hide Load, IsWritten, HalfWritten, SwitchEnds, SameOutsideCore, InSome;
    forall p | env.facs <= p < env.facs + FACS_BYTES ensures s'.ram[p] == s.ram[p] {
      InNoArea(env.table, env.facs, FACS_BYTES, p);
    }
    SameSlice(s'.ram, s.ram, env.facs + FWAK, env.facs + FWAK + 4);
    SameSlice(s'.ram, s.ram, env.facs + RSV1, env.facs + RSV1 + 4);
  }

  lemma InNoArea(table: seq<MemArea>, at: nat, size: nat, p: nat)
    requires AreasAvoid(table, at, size) && at <= p < at + size
    ensures !InSome(table, |table|, p)
  {
  }

  // ----- The machine that this stands for -----

  /** The contents of the RAM areas, and the vector that resumes them. */
  datatype Image = Image(areas: seq<seq<byte>>, vector: nat)

  datatype Saved = None | Some(image: Image)

  /** Two places for an image: memory, and the disk. */
  datatype Machine = Machine(active: Image, saved: Saved)

  /** What a cycle does to it, when the kernel suspends with this image. */
  function Cycled(m: Machine, image: Image, o: Outcome): Machine {
    match o
    case Wrote => Machine(image, Some(image))
    case Swapped => if m.saved.Some? then Machine(m.saved.image, Some(image)) else m
    case _ => Machine(image, m.saved)
  }

  ghost function Areas(ram: seq<byte>, table: seq<MemArea>): (r: seq<seq<byte>>)
    requires InRam(table, |ram|)
    ensures |r| == |table| && forall i :: 0 <= i < |table| ==> r[i] == Area(ram, table, i)
  {
    seq(|table|, i requires 0 <= i < |table| => Area(ram, table, i))
  }

  ghost function Extents(disk: seq<byte>, table: seq<MemArea>): (r: seq<seq<byte>>)
    requires Fits(disk, table, |table|)
    ensures |r| == |table| && forall i :: 0 <= i < |table| ==> r[i] == Extent(disk, table, i)
  {
    seq(|table|, i requires 0 <= i < |table| => Extent(disk, table, i))
  }

  ghost predicate DiskHolds(disk: seq<byte>, table: seq<MemArea>, saved: Saved) {
    match saved
    case None => HEADER_BYTES <= |disk| ==> !Accepted(Decode(disk[..HEADER_BYTES]), table)
    case Some(image) =>
      && Switchable(disk, table) && Accepted(Decode(disk[..HEADER_BYTES]), table)
      && Decode(disk[..HEADER_BYTES]).vector == image.vector && Extents(disk, table) == image.areas
  }

  ghost predicate Holds(env: Env, s: Sys, m: Machine) {
    InRam(env.table, |s.ram|) && Areas(s.ram, env.table) == m.active.areas && DiskHolds(s.disk, env.table, m.saved)
  }

  // ----- Cycles -----

  /** One cycle: the kernel runs, writes its vector v, and the hooks run; core acts; the firmware
      resumes. rsv1 is what the second word happened to hold. */
  datatype Cycle = Cycle(v: nat, rsv1: nat, hooks: seq<Hook>, suspended: Sys, action: nat, outcome: Outcome,
    acted: Sys, vector: nat, resumed: Sys)

  ghost predicate CycleFrom(env: Env, s: Sys, c: Cycle) {
    && |c.suspended.ram| == |s.ram| && c.suspended.disk == s.disk && Fitting(env, c.suspended)
    && FacsOf(c.suspended.ram, env.facs) == HandleAll(Facs(c.v, c.rsv1), c.hooks)
    && CoreStep(c.outcome, env, true, c.action, c.suspended, c.acted, c.vector)
    && |c.resumed.ram| == |s.ram| && c.resumed.disk == c.acted.disk
    && Areas(c.resumed.ram, env.table) == Areas(c.acted.ram, env.table)
    && FacsOf(c.resumed.ram, env.facs) == ReturnKernel(FacsOf(c.acted.ram, env.facs), c.vector)
  }

  ghost function Suspending(env: Env, c: Cycle): Image
    requires InRam(env.table, |c.suspended.ram|)
  {
    Image(Areas(c.suspended.ram, env.table), c.v)
  }

  /** The hooks keep the vector, a store is made of areas that its fields can hold, and no request fails
      once an area of a dump has been touched. Stopping in an area write is harmless as long as the disk
      holds no dump. */
  ghost predicate Proper(env: Env, c: Cycle, saved: Saved) {
    && 0 < c.v < U32 && c.v != CORE_VECTOR && HooksInOrder(c.hooks)
    && (c.action == STORE ==> Addressable(env.table))
    && !c.outcome.SwapStopped? && !c.outcome.HeaderLost?
    && (c.outcome.WriteStopped? ==> saved.None? && c.outcome.k < |env.table|)
  }

  lemma StoreHolds(env: Env, s: Sys, s': Sys, v: nat, k: nat, saved: Saved)
    requires Fitting(env, s) && env.table != [] && Addressable(env.table) && DiskHolds(s.disk, env.table, saved)
      && |s'.disk| == |s.disk|
    ensures IsWritten(s.ram, s.disk, s'.disk, env.table, v) ==>
      DiskHolds(s'.disk, env.table, Some(Image(Areas(s.ram, env.table), v)))
    ensures saved == None && WholeSectors(env.table) && k < |env.table| ==>
      HalfWritten(s.ram, s.disk, s'.disk, env.table, k) ==> DiskHolds(s'.disk, env.table, None)
  {
    hide IsStored, HalfStored, Addressable, Decode, Accepted, Area, Extent, AreasAvoid, ByteOf, Stored, FromStore;
    hide IsWritten, HalfWritten, WholeSectors;
    if IsWritten(s.ram, s.disk, s'.disk, env.table, v) {
      WrittenWholly(s.ram, s.disk, s'.disk, env.table, v);
      StoredIsDump(s.ram, s.disk, s'.disk, env.table, v);
      assert Extents(s'.disk, env.table) == Areas(s.ram, env.table);
    }
    if HalfWritten(s.ram, s.disk, s'.disk, env.table, k) && WholeSectors(env.table) && k < |env.table|
      && HEADER_BYTES <= |s.disk|
    {
      HalfWrittenWholly(s.ram, s.disk, s'.disk, env.table, k);
      HalfStoredHeader(s.ram, s.disk, s'.disk, env.table, k);
    }
  }

  lemma SwapHolds(env: Env, s: Sys, s': Sys, v: nat, vector: nat, saved: Saved)
    requires Fitting(env, s) && DiskHolds(s.disk, env.table, saved) && |s'.ram| == |s.ram|
    requires SwitchEnds(Done, s.ram, s.disk, s'.ram, s'.disk, env.table, env.headerAt, env.bufAt, v, v, vector)
    ensures saved.Some? && vector == saved.image.vector && Areas(s'.ram, env.table) == saved.image.areas
    ensures DiskHolds(s'.disk, env.table, Some(Image(Areas(s.ram, env.table), v)))
  {
    hide Decode, Accepted, Area, Extent, AreasAvoid, ByteOf, FromStore;
    SwitchedIsDump(s.ram, s.disk, s'.ram, s'.disk, env.table, v);
    assert Areas(s'.ram, env.table) == Extents(s.disk, env.table);
    assert Extents(s'.disk, env.table) == Areas(s.ram, env.table);
  }

  lemma AreasStay(env: Env, s: Sys, s': Sys)
    requires Fitting(env, s) && SameOutsideCore(s.ram, s'.ram, env.headerAt, env.bufAt)
    ensures InRam(env.table, |s'.ram|) && Areas(s'.ram, env.table) == Areas(s.ram, env.table)
  {
    hide SameOutsideCore, AreasAvoid, Area;
    SameLength(s.ram, s'.ram, env.headerAt, env.bufAt);
    forall i | 0 <= i < |env.table| ensures Area(s'.ram, env.table, i) == Area(s.ram, env.table, i) {
      SameAreas(s.ram, s'.ram, env.table, env.headerAt, env.bufAt, i);
    }
  }

  /** Core's step is the machine's, and the vector is that of the image then in memory. */
  lemma CoreStepHolds(env: Env, s: Sys, s': Sys, action: nat, o: Outcome, vector: nat, saved: Saved)
    requires env.table != [] && (action == STORE ==> Addressable(env.table)) && DiskHolds(s.disk, env.table, saved)
    requires CoreStep(o, env, true, action, s, s', vector)
    requires !o.SwapStopped? && !o.HeaderLost? && (o.WriteStopped? ==> saved.None? && o.k < |env.table|)
    ensures Fitting(env, s)
    ensures var image := Image(Areas(s.ram, env.table), FacsOf(s.ram, env.facs).rsv1);
      var m := Cycled(Machine(image, saved), image, o);
      Holds(env, s', m) && vector == m.active.vector
  {
    hide Fitting, IsWritten, HalfWritten, SwitchEnds, SameOutsideCore, Addressable, DiskHolds, Load, WholeSectors;
    FittingLength(env, s, s);
    var v0 := FacsOf(s.ram, env.facs).rsv1;
    if o.Wrote? || o.WriteStopped? { StoreHolds(env, s, s', v0, if o.WriteStopped? then o.k else 0, saved); }
    if o.Swapped? {
      SwapHolds(env, s, s', v0, vector, saved);
      FittingLength(env, s, s');
    } else {
      AreasStay(env, s, s');
    }
  }

  lemma FittingLength(env: Env, s: Sys, s': Sys)
    requires Fitting(env, s) && |s'.ram| == |s.ram|
    ensures InRam(env.table, |s'.ram|) && env.facs + FACS_BYTES <= |s.ram|
  {
  }

  /** One cycle. */
  lemma CycleHolds(env: Env, s: Sys, m: Machine, c: Cycle)
    requires env.table != [] && Holds(env, s, m) && CycleFrom(env, s, c) && Proper(env, c, m.saved)
    ensures Fitting(env, c.suspended) && env.facs + FACS_BYTES <= |c.resumed.ram|
    ensures var m' := Cycled(m, Suspending(env, c), c.outcome);
      Holds(env, c.resumed, m') && FacsOf(c.resumed.ram, env.facs).fwak == c.vector == m'.active.vector != 0
  {
    hide CoreStep, Addressable, DiskHolds, Load;
    HooksKeepVector(c.v, c.rsv1, c.hooks);
    CoreStepHolds(env, c.suspended, c.acted, c.action, c.outcome, c.vector, m.saved);
    SavedVector(c.suspended.disk, env.table, m.saved);
    SwappedSaved(env, c.suspended, c.acted, c.action, c.vector, m.saved, c.outcome);
  }

  lemma SavedVector(disk: seq<byte>, table: seq<MemArea>, saved: Saved)
    requires DiskHolds(disk, table, saved)
    ensures saved.Some? ==> saved.image.vector != 0
  {
  }

  /** Core switches only when the disk holds a dump. */
  lemma SwappedSaved(env: Env, s: Sys, s': Sys, action: nat, vector: nat, saved: Saved, o: Outcome)
    requires DiskHolds(s.disk, env.table, saved) && CoreStep(o, env, true, action, s, s', vector)
    ensures o.Swapped? ==> saved.Some?
  {
    hide Fitting, IsWritten, HalfWritten, SameOutsideCore, Load, Decode, Accepted, Switchable;
  }

  // ----- Runs -----

  function StateAfter(s: Sys, cs: seq<Cycle>): Sys { if cs == [] then s else cs[|cs| - 1].resumed }

  ghost function MachineAfter(env: Env, m: Machine, cs: seq<Cycle>): Machine {
    if cs == [] then m
    else
      var c := cs[|cs| - 1];
      if InRam(env.table, |c.suspended.ram|)
      then Cycled(MachineAfter(env, m, cs[..|cs| - 1]), Suspending(env, c), c.outcome)
      else m
  }

  ghost predicate Run(env: Env, s: Sys, m: Machine, cs: seq<Cycle>) {
    cs == [] ||
    (var before, c := cs[..|cs| - 1], cs[|cs| - 1];
     Run(env, s, m, before) && CycleFrom(env, StateAfter(s, before), c)
       && Proper(env, c, MachineAfter(env, m, before).saved))
  }

  /** Over any run of cycles, memory and disk hold what the two-place machine holds, and the firmware
      resumes with the vector of the image that is in memory. */
  lemma {:induction false} ImageAndVectorStayPaired(env: Env, s: Sys, m: Machine, cs: seq<Cycle>)
    requires env.table != [] && Holds(env, s, m) && Run(env, s, m, cs)
    ensures Holds(env, StateAfter(s, cs), MachineAfter(env, m, cs))
    ensures cs != [] ==>
              var last := cs[|cs| - 1];
              && env.facs + FACS_BYTES <= |last.resumed.ram|
              && FacsOf(last.resumed.ram, env.facs).fwak == last.vector == MachineAfter(env, m, cs).active.vector
  {
    hide Holds, CycleFrom, Proper, Addressable, FacsOf, Cycled;
    if cs != [] {
      var before := cs[..|cs| - 1];
      ImageAndVectorStayPaired(env, s, m, before);
      CycleHolds(env, StateAfter(s, before), MachineAfter(env, m, before), cs[|cs| - 1]);
      FittingLength(env, cs[|cs| - 1].suspended, cs[|cs| - 1].suspended);
    }
  }

  /** Even when the last write of a switch, that of the header, fails, memory and vector belong together. */
  lemma HeaderLostStillResumes(env: Env, s: Sys, s': Sys, action: nat, vector: nat, image: Image)
    requires DiskHolds(s.disk, env.table, Some(image)) && CoreStep(Outcome.HeaderLost, env, true, action, s, s', vector)
    ensures InRam(env.table, |s'.ram|) && Areas(s'.ram, env.table) == image.areas && vector == image.vector
  {
    hide Load, Decode, Accepted, Area, Extent, AreasAvoid, FromStore;
    assert Areas(s'.ram, env.table) == Extents(s.disk, env.table);
  }

  /** But the failed write may leave the header as it was. Then the disk still counts as a dump, of the
      memory that core was entered with, under the vector of the image that is now in memory. */
  lemma OldHeaderMispairs(env: Env, s: Sys, s': Sys, action: nat, vector: nat, image: Image)
    requires DiskHolds(s.disk, env.table, Some(image)) && CoreStep(Outcome.HeaderLost, env, true, action, s, s', vector)
    requires HEADER_BYTES <= |s'.disk| && s'.disk[..HEADER_BYTES] == s.disk[..HEADER_BYTES]
    ensures InRam(env.table, |s.ram|)
    ensures DiskHolds(s'.disk, env.table, Some(Image(Areas(s.ram, env.table), image.vector)))
  {
    hide Load, Decode, Accepted, Area, Extent, AreasAvoid, FromStore;
    assert Extents(s'.disk, env.table) == Areas(s.ram, env.table);
  }
}
