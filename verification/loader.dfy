/** The header checks of kernel/loader/app_loader.c, and what they say of the images asm/vm_asm.c writes. */
module HeaderChecks {
  import opened Words
  import opened AsmModel
  import opened AsmProofs
  import opened CStrings
  import opened Image

  /** The early exits before anything is created; 0 when the image is accepted. */
  function Verdict(b: seq<byte>): int {
    if |b| < HEADER_SIZE then -1
    else
      var h := ReadHeader(b);
      if h.magic != APP_MAGIC then -2
      else if h.version < ABI_MIN_VERSION || h.version > ABI_VERSION then -4
      else if h.codeSize > |b| - HEADER_SIZE then -5
      else 0
  }

  /** The header handed to `vm_create`: the fields as read, the name copied, the checksum dropped. */
  function Converted(b: seq<byte>): (h: Header)
    requires |b| >= HEADER_SIZE
  {
    ReadHeader(b).(name := StrNCpy(ReadHeader(b).name, 16), checksum := 0)
  }

  // ----- what the assembler writes, the loader takes -----

  /**
   Every assembled program passes the checks, and the loader recovers its sizes, entry point,
   capabilities, name and code.
   */
  lemma ImageLoads(c: Libc, lines: seq<string>)
    requires Fits(c, lines) && Plain(lines)
    ensures var b := ImageOf(c, lines);
            var g := Gather(c, lines, |lines|);
            var h := Converted(b);
      && Verdict(b) == 0
      && h.codeSize == 4 * Instructions(lines, |lines|) && h.ramSize == g.ramSize
      && h.entry == 0 && h.caps == g.caps
      && CString(StrNCpy(h.name, 15)) == Chars(g.name)
      && b[HEADER_SIZE..HEADER_SIZE + h.codeSize] == Code(EnvOf(c, lines), lines, |lines|)
  {
    var b := ImageOf(c, lines);
    ImageHeader(c, lines);
    NameFits(c, lines, |lines|);
    NameIsPlain(c, lines, |lines|);
    hide Gather, Code, Instructions, Fits, Plain, PlainText, CString, StrNCpy, Chars, Zeros, ReadHeader;
    PaddedName(Gather(c, lines, |lines|).name);
    assert b[HEADER_SIZE..] == b[HEADER_SIZE..|b|];
  }

  lemma PaddedName(name: string)
    requires |name| <= 15 && PlainText(name)
    ensures CString(StrNCpy(StrNCpy(Chars(name) + Zeros(16 - |name|), 16), 15)) == Chars(name)
  {
    var bytes := Chars(name);
    CStringOf(bytes, Zeros(16 - |name|));
    CopyKeepsString(bytes + Zeros(16 - |name|), 16);
    CopyKeepsString(StrNCpy(bytes + Zeros(16 - |name|), 16), 15);
  }

  lemma ImageHeader(c: Libc, lines: seq<string>)
    requires Fits(c, lines)
    ensures |Gather(c, lines, |lines|).name| <= 15
    ensures ReadHeader(ImageOf(c, lines)) == HeaderFor(Gather(c, lines, |lines|), 4 * Instructions(lines, |lines|))
  {
    NameFits(c, lines, |lines|);
    PassesAgree(c, EnvOf(c, lines), lines, |lines|);
    var code := Code(EnvOf(c, lines), lines, |lines|);
    HeaderReadBack(HeaderFor(Gather(c, lines, |lines|), |code|), code);
  }

  lemma HeaderOfPrefix(b: seq<byte>, n: nat)
    requires HEADER_SIZE <= n <= |b|
    ensures ReadHeader(b[..n]) == ReadHeader(b)
  {
    assert b[..n][4..20] == b[4..20];
  }

  /** An image cut short anywhere is refused, and the code says where: in the header or in the code. */
  lemma TruncatedImageRefused(c: Libc, lines: seq<string>, n: nat)
    requires Fits(c, lines) && n < |ImageOf(c, lines)|
    ensures Verdict(ImageOf(c, lines)[..n]) == if n < HEADER_SIZE then -1 else -5
  {
    if n >= HEADER_SIZE {
      ImageHeader(c, lines);
      hide Gather, Instructions, Code;
      var image := ImageOf(c, lines);
      hide ImageOf, HeaderFor;
      HeaderOfPrefix(image, n);
    }
  }
}

/**
 kernel/loader/app_loader.c, with the parts of `vm_create`, `vm_destroy` and `task_create` that
 take memory from the heap and give it back.
 */
module LoaderModel {
  import opened Words
  import opened AsmModel
  import opened HeapClients
  import opened CStrings
  import opened Image
  import opened HeaderChecks
  import opened Search
  import opened HeapModel

  /** `sizeof` of the kernel structures; the CPU context depends on the architecture. */
  datatype Sizes = Sizes(vm: uint32, task: uint32, context: uint32)

  const STACK_SIZE: uint32 := 1024

  /** `(ram_size + 3) & ~3`; the addition wraps. */
  function AlignedRam(ramSize: uint32): uint32 {
    Wrap32(ramSize + 3) / 4 * 4
  }

  /** `vm_create`: a context and, unless no RAM is asked for, a RAM buffer. */
  ghost function VmHeap(v: Variant, h: Heap, sizes: Sizes, ram: uint32): (Heap, Option<(nat, Option<nat>)>)
    requires |h.used| == |h.mem| / UNIT
  {
    var (h1, vm) := Alloc(v, h, sizes.vm);
    if vm.None? then (h1, None)
    else if ram == 0 then (h1, Some((vm.value, None)))
    else
      var (h2, buffer) := Alloc(v, h1, ram);
      if buffer.None? then (Free(h2, vm), None) else (h2, Some((vm.value, buffer)))
  }

  /** `task_create`: the task, its stack and its CPU context, or none of them. */
  ghost function TaskHeap(v: Variant, h: Heap, sizes: Sizes): (Heap, bool)
    requires |h.used| == |h.mem| / UNIT
  {
    var (h1, task) := Alloc(v, h, sizes.task);
    if task.None? then (h1, false)
    else
      var (h2, stack) := Alloc(v, h1, STACK_SIZE);
      if stack.None? then (Free(h2, task), false)
      else
        var (h3, context) := Alloc(v, h2, sizes.context);
        if context.None? then (Free(Free(h3, stack), task), false) else (h3, true)
  }

  /** The addresses a created VM is given. */
  ghost function VmPlace(v: Variant, h: Heap, sizes: Sizes, ram: uint32): (nat, Option<nat>)
    requires |h.used| == |h.mem| / UNIT
  {
    var vm := VmHeap(v, h, sizes, ram).1;
    if vm.Some? then vm.value else (0, None)
  }

  /** A VM and then the task that runs it; a VM without a task is not given back. */
  ghost function Launch(v: Variant, h: Heap, sizes: Sizes, ramSize: uint32): (Heap, int)
    requires |h.used| == |h.mem| / UNIT
  {
    var (h1, vm) := VmHeap(v, h, sizes, AlignedRam(ramSize));
    if vm.None? then (h1, -6)
    else
      var (h2, created) := TaskHeap(v, h1, sizes);
      (h2, if created then 0 else -7)
  }

  /** The whole of `kernel_load_app`: the heap it leaves, and 0 or the error code. */
  ghost function Load(v: Variant, h: Heap, sizes: Sizes, b: seq<byte>): (Heap, int)
    requires |h.used| == |h.mem| / UNIT
  {
    if Verdict(b) != 0 then (h, Verdict(b))
    else
      Launch(v, h, sizes, ReadHeader(b).ramSize)
  }

  /** The addresses the VM of an accepted image is given. */
  ghost function PlaceOf(v: Variant, h: Heap, sizes: Sizes, b: seq<byte>): (nat, Option<nat>)
    requires |h.used| == |h.mem| / UNIT
  {
    if Verdict(b) == 0 then VmPlace(v, h, sizes, AlignedRam(ReadHeader(b).ramSize)) else (0, None)
  }

  /** The first four bytes of an image. */
  const MAGIC_BYTES: seq<byte> := [0xCE, 0xFA, 0xFE, 0xCA]

  /** The number that four bytes hold, the lowest first. */
  function NumberAt(b: seq<byte>, at: nat): (n: nat)
    requires at + 4 <= |b|
    ensures LittleEndian(b[at..at + 4], n)
  {
    b[at] as int + 0x100 * (b[at + 1] as int + 0x100 * (b[at + 2] as int + 0x100 * b[at + 3] as int))
  }

  /**
   Which images are refused, byte for byte, and why: too short, another magic number, a version other than 1, more
   code than there is. The first reason that applies gives the code, and the heap is left alone; any other image
   is refused only for want of memory.
   */
  lemma RefusalByBytes(v: Variant, h: Heap, sizes: Sizes, b: seq<byte>)
    requires |h.used| == |h.mem| / UNIT
    ensures var (h', code) := Load(v, h, sizes, b);
      if |b| < 44 then code == -1 && h' == h
      else if b[..4] != MAGIC_BYTES then code == -2 && h' == h
      else if NumberAt(b, 20) != 1 then code == -4 && h' == h
      else if NumberAt(b, 24) > |b| - 44 then code == -5 && h' == h
      else code == 0 || code == -6 || code == -7
  {
    if |b| >= 44 {
      ReadLayout(b);
      var r := ReadHeader(b);
      MagicBytes(b[..4], r.magic);
      SameNumber(b[20..24], r.version, NumberAt(b, 20));
      SameNumber(b[24..28], r.codeSize, NumberAt(b, 24));
      hide ReadHeader, LittleEndian, NumberAt;
    }
    hide VmHeap, TaskHeap, AlignedRam;
  }

  /** An assembled image with any other byte in its magic number is refused for that. */
  lemma ChangedMagicRefused(c: Libc, lines: seq<string>, k: nat, x: byte, v: Variant, h: Heap, sizes: Sizes)
    requires AsmModel.Fits(c, lines) && |h.used| == |h.mem| / UNIT
    requires k < 4 && x != ImageOf(c, lines)[k]
    ensures Load(v, h, sizes, ImageOf(c, lines)[k := x]) == (h, -2)
  {
    var b := ImageOf(c, lines);
    ImageHeader(c, lines);
    ReadLayout(b);
    MagicBytes(b[..4], ReadHeader(b).magic);
    hide ReadHeader, ImageOf, LittleEndian, Load;
    var changed := b[k := x];
    assert b[..4][k] == b[k] && changed[..4][k] == x;
    RefusalByBytes(v, h, sizes, changed);
  }

  /** The RAM a VM gets is the least multiple of 4 that holds what was asked for; the last three sizes wrap to none. */
  lemma AlignedRamIs(ramSize: uint32)
    ensures ramSize <= TWO32 - 4 ==>
      AlignedRam(ramSize) % 4 == 0 && ramSize <= AlignedRam(ramSize) < ramSize + 4
    ensures ramSize > TWO32 - 4 ==> AlignedRam(ramSize) == 0
  {
  }

  // ----- what a load needs and leaves -----

  /** The requests of `vm_create`. */
  function VmRequests(sizes: Sizes, ram: uint32): (r: seq<uint32>)
    ensures |r| == if ram == 0 then 1 else 2
  {
    if ram == 0 then [sizes.vm] else [sizes.vm, ram]
  }

  function TaskRequests(sizes: Sizes): (r: seq<uint32>)
    ensures |r| == 3
  {
    [sizes.task, STACK_SIZE, sizes.context]
  }

  /** `vm_create` succeeds when there is room for its requests, one after the other, and leaves no trace otherwise. */
  lemma VmCreatedIff(v: Variant, h: Heap, sizes: Sizes, ram: uint32)
    requires WellFormed(h) && CleanRequests(v, h.used, VmRequests(sizes, ram))
    ensures var (h', vm) := VmHeap(v, h, sizes, ram);
            var requests := VmRequests(sizes, ram);
      && WellFormed(h')
      && (vm.Some? <==> Room(h.used, requests) == |requests|)
      && h'.used == if vm.Some? then FilledBy(h.used, requests, |requests|) else h.used
  {
    var (h1, vm) := Alloc(v, h, sizes.vm);
    ServeFills(v, h, VmRequests(sizes, ram));
    if vm.Some? {
      CleanWindowFits(v, h.used, sizes.vm);
      TakeAndReturn(v, h, sizes.vm);
    }
    if ram == 0 {
      ServeOne(v, h, sizes.vm);
    } else {
      ServeTwo(v, h, sizes.vm, ram);
      if vm.None? {
        RefusedRequestIsClean(v, h, sizes.vm);
      } else if Alloc(v, h1, ram).1.None? {
        FreshHeader(v, h, sizes.vm);
        RefusedRequestIsClean(v, h1, ram);
      }
    }
    hide Alloc, Free, Find, UnitsFor, Serve, Room, FilledBy, CleanRequests, Granted;
  }

  /** `task_create` likewise, with three requests. */
  lemma TaskCreatedIff(v: Variant, h: Heap, sizes: Sizes)
    requires WellFormed(h) && CleanRequests(v, h.used, TaskRequests(sizes))
    ensures var (h', created) := TaskHeap(v, h, sizes);
            var requests := TaskRequests(sizes);
      && requests == [sizes.task, 1024, sizes.context]
      && (created <==> Room(h.used, requests) == 3)
      && WellFormed(h') && h'.used == if created then FilledBy(h.used, requests, 3) else h.used
  {
    hide Alloc, Free, Serve, Room, FilledBy, CleanRequest, CleanRequests, Granted, Filled;
    ServeFills(v, h, TaskRequests(sizes));
    ServeThree(v, h, sizes.task, STACK_SIZE, sizes.context);
    CleanTask(v, h, sizes);
    if !TaskHeap(v, h, sizes).1 {
      FailedTaskRestores(v, h, sizes);
    }
  }

  /** The first two requests of a task are clean when they are reached. */
  lemma CleanTask(v: Variant, h: Heap, sizes: Sizes)
    requires WellFormed(h) && CleanRequests(v, h.used, TaskRequests(sizes))
    ensures CleanRequest(v, h.used, sizes.task)
    ensures var (h1, p) := Alloc(v, h, sizes.task);
      && WellFormed(h1)
      && (p.Some? ==> CleanRequest(v, h1.used, STACK_SIZE) && WellFormed(Alloc(v, h1, STACK_SIZE).0))
  {
    hide Alloc, CleanRequest, Granted, Filled;
    CleanGrant(v, h, sizes.task);
    var (h1, p) := Alloc(v, h, sizes.task);
    if p.Some? {
      assert TaskRequests(sizes)[1..] == [STACK_SIZE, sizes.context];
      CleanGrant(v, h1, STACK_SIZE);
    }
  }

  lemma FailedTaskRestores(v: Variant, h: Heap, sizes: Sizes)
    requires WellFormed(h) && CleanRequest(v, h.used, sizes.task) && !TaskHeap(v, h, sizes).1
    requires var (h1, p) := Alloc(v, h, sizes.task);
      && WellFormed(h1)
      && (p.Some? ==> CleanRequest(v, h1.used, STACK_SIZE) && WellFormed(Alloc(v, h1, STACK_SIZE).0))
    ensures TaskHeap(v, h, sizes).0.used == h.used && WellFormed(TaskHeap(v, h, sizes).0)
  {
    hide CleanRequest, Alloc, Free;
    var (h1, task) := Alloc(v, h, sizes.task);
    if task.None? {
      RefusedRequestIsClean(v, h, sizes.task);
    } else if Alloc(v, h1, STACK_SIZE).1.None? {
      RefusedRequestIsClean(v, h1, STACK_SIZE);
      CleanTakeAndReturn(v, h, sizes.task);
      StaysWellFormed(h1, task);
    } else {
      var (h2, stack) := Alloc(v, h1, STACK_SIZE);
      RefusedRequestIsClean(v, h2, sizes.context);
      CleanTakeTwoAndReturn(v, h, sizes.task, STACK_SIZE);
      StaysWellFormed(h2, stack);
      StaysWellFormed(Free(h2, stack), task);
    }
  }

  lemma StaysWellFormed(h: Heap, ptr: Option<nat>)
    requires WellFormed(h)
    ensures WellFormed(Free(h, ptr))
  {
  }

  /** Every request that a load makes is clean. */
  ghost predicate CleanLoad(v: Variant, used: seq<bool>, sizes: Sizes, b: seq<byte>)
    requires Verdict(b) == 0
  {
    CleanLaunch(v, used, sizes, ReadHeader(b).ramSize)
  }

  ghost predicate CleanLaunch(v: Variant, used: seq<bool>, sizes: Sizes, ramSize: uint32) {
    var requests := VmRequests(sizes, AlignedRam(ramSize));
    && CleanRequests(v, used, requests)
    && (Room(used, requests) == |requests| ==>
          CleanRequests(v, FilledBy(used, requests, |requests|), TaskRequests(sizes)))
  }

  /**
   What a load returns and what it leaves, told from the image and the bitmap before the call. The bitmap
   is as before exactly when the image is refused or there is no room for the VM; when there is room for
   the VM but not for the task, the VM and its RAM stay taken, because `vm_destroy` only marks a VM whose
   reference count is still 1.
   */
  lemma LoadOutcome(v: Variant, h: Heap, sizes: Sizes, b: seq<byte>)
    requires WellFormed(h) && (Verdict(b) == 0 ==> CleanLoad(v, h.used, sizes, b))
    ensures var (h', code) := Load(v, h, sizes, b);
      if Verdict(b) != 0 then code == Verdict(b) && h'.used == h.used
      else
        var requests := VmRequests(sizes, AlignedRam(ReadHeader(b).ramSize));
        var n := |requests|;
        if Room(h.used, requests) < n then code == -6 && h'.used == h.used
        else
          var taken := FilledBy(h.used, requests, n);
          && taken != h.used
          && (if Room(taken, TaskRequests(sizes)) < 3 then code == -7 && h'.used == taken
              else code == 0 && h'.used == FilledBy(taken, TaskRequests(sizes), 3) && h'.used != h.used)
  {
    hide VmHeap, TaskHeap, AlignedRam, Room, FilledBy, CleanRequests, VmRequests;
    if Verdict(b) == 0 {
      var ram := AlignedRam(ReadHeader(b).ramSize);
      var requests := VmRequests(sizes, ram);
      VmCreatedIff(v, h, sizes, ram);
      assert Load(v, h, sizes, b) == Launch(v, h, sizes, ReadHeader(b).ramSize);
      assert VmHeap(v, h, sizes, ram).1.None? ==> Load(v, h, sizes, b) == (VmHeap(v, h, sizes, ram).0, -6);
      if Room(h.used, requests) == |requests| {
        var taken := FilledBy(h.used, requests, |requests|);
        TaskCreatedIff(v, VmHeap(v, h, sizes, ram).0, sizes);
        FilledByDiffersIff(h.used, requests, |requests|);
        if Room(taken, TaskRequests(sizes)) == 3 {
          TwiceFilledDiffers(h.used, taken, FilledBy(taken, TaskRequests(sizes), 3));
        }
      }
    }
  }

  lemma TwiceFilledDiffers(used: seq<bool>, once: seq<bool>, twice: seq<bool>)
    requires |once| == |used| && once != used && (forall i :: 0 <= i < |used| ==> used[i] ==> once[i])
    requires |twice| == |once| && forall i :: 0 <= i < |once| ==> once[i] ==> twice[i]
    ensures twice != used
  {
    var i :| 0 <= i < |used| && once[i] != used[i];
    assert twice[i];
  }

  /** The bitmap survives a load exactly when the image is refused or there is no room for the VM. */
  lemma LoadRestoresIff(v: Variant, h: Heap, sizes: Sizes, b: seq<byte>)
    requires WellFormed(h) && (Verdict(b) == 0 ==> CleanLoad(v, h.used, sizes, b))
    ensures Load(v, h, sizes, b).0.used == h.used <==>
      || Verdict(b) != 0
      || var requests := VmRequests(sizes, AlignedRam(ReadHeader(b).ramSize));
         Room(h.used, requests) < |requests|
  {
    hide Load, AlignedRam, Room, FilledBy, CleanLoad;
    LoadOutcome(v, h, sizes, b);
  }

  /** With the reset every load is clean. */
  lemma ResetLoadIsClean(used: seq<bool>, sizes: Sizes, b: seq<byte>)
    requires Verdict(b) == 0
    ensures CleanLoad(WithReset, used, sizes, b)
  {
    var requests := VmRequests(sizes, AlignedRam(ReadHeader(b).ramSize));
    ResetRequestsAreClean(used, requests);
    if Room(used, requests) == |requests| {
      ResetRequestsAreClean(FilledBy(used, requests, |requests|), TaskRequests(sizes));
    }
  }

  // ----- the objects of a load in the heap -----

  /** A created VM and its RAM join the live blocks; after a failure the live blocks are those from before. */
  lemma VmOwns(v: Variant, h: Heap, sizes: Sizes, ram: uint32, live: seq<Block>) returns (live': seq<Block>)
    requires Inv(Sys(h, live)) && CleanRequests(v, h.used, VmRequests(sizes, ram))
    ensures var (h', vm) := VmHeap(v, h, sizes, ram);
      && Inv(Sys(h', live'))
      && multiset(live') == multiset(live) +
         if vm.Some? then multiset(Serve(v, h, VmRequests(sizes, ram)).1) else multiset{}
  {
    hide Inv, Alloc, Free, CleanRequests, CleanRequest, BlockAt;
    var requests := VmRequests(sizes, ram);
    InvSized(h, live);
    VmServes(v, h, sizes, ram);
    if VmHeap(v, h, sizes, ram).1.Some? {
      ServeKeeps(v, h, live, requests);
      live' := live + Serve(v, h, requests).1;
    } else if Alloc(v, h, sizes.vm).1.None? {
      InvSized(h, live);
      RefusedRequestIsClean(v, h, sizes.vm);
      live' := live;
    } else {
      InvSized(h, live);
      FirstIsClean(v, h.used, requests);
      GrantKeepsIff(v, h, live, sizes.vm);
      var (h1, vm) := Alloc(v, h, sizes.vm);
      FreshHeader(v, h, sizes.vm);
      RefusedRequestIsClean(v, h1, ram);
      live' := GiveBackLast(h1, live, BlockAt(vm.value, sizes.vm));
    }
  }

  lemma FirstIsClean(v: Variant, used: seq<bool>, requests: seq<uint32>)
    requires CleanRequests(v, used, requests) && |requests| > 0
    ensures CleanRequest(v, used, requests[0])
  {
  }

  /** The blocks at the addresses of a VM and of its RAM, if it has any. */
  function VmBlocks(sizes: Sizes, ram: uint32, place: (nat, Option<nat>)): seq<Block> {
    [BlockAt(place.0, sizes.vm)] + if place.1.Some? then [BlockAt(place.1.value, ram)] else []
  }

  /** Where `vm_create` succeeds its heap is that of its requests. */
  lemma VmServes(v: Variant, h: Heap, sizes: Sizes, ram: uint32)
    requires |h.used| == |h.mem| / UNIT
    ensures VmHeap(v, h, sizes, ram).1.Some? ==> VmHeap(v, h, sizes, ram).0 == Serve(v, h, VmRequests(sizes, ram)).0
    ensures VmHeap(v, h, sizes, ram).1.Some? <==>
      |Serve(v, h, VmRequests(sizes, ram)).1| == |VmRequests(sizes, ram)|
    ensures VmHeap(v, h, sizes, ram).1.Some? ==>
      Serve(v, h, VmRequests(sizes, ram)).1 == VmBlocks(sizes, ram, VmPlace(v, h, sizes, ram))
  {
    if ram == 0 { ServeOne(v, h, sizes.vm); } else { ServeTwo(v, h, sizes.vm, ram); }
    hide Alloc, Serve;
  }

  /** The last block granted is returned. */
  lemma GiveBackLast(h: Heap, live: seq<Block>, b: Block) returns (live': seq<Block>)
    requires Inv(Sys(h, live + [b]))
    ensures Inv(Sys(Free(h, Some(b.Ptr())), live')) && multiset(live') == multiset(live)
  {
    hide Inv, Free;
    assert b == (live + [b])[|live|];
    ReturnKeeps(h, live + [b], b);
    live' := Taken(live + [b], b);
    assert multiset(live + [b]) - multiset{b} == multiset(live);
  }

  /** Likewise for the three blocks of a task. */
  lemma TaskOwns(v: Variant, h: Heap, sizes: Sizes, live: seq<Block>) returns (live': seq<Block>)
    requires Inv(Sys(h, live)) && CleanRequests(v, h.used, TaskRequests(sizes))
    ensures var (h', created) := TaskHeap(v, h, sizes);
      && Inv(Sys(h', live'))
      && multiset(live') == multiset(live) +
         if created then multiset(Serve(v, h, TaskRequests(sizes)).1) else multiset{}
  {
    hide Inv, Alloc, Free, CleanRequests, CleanRequest, BlockAt, Serve;
    InvSized(h, live);
    ServeThree(v, h, sizes.task, STACK_SIZE, sizes.context);
    if TaskHeap(v, h, sizes).1 {
      ServeKeeps(v, h, live, TaskRequests(sizes));
      live' := live + Serve(v, h, TaskRequests(sizes)).1;
    } else {
      CleanTask(v, h, sizes);
      live' := FailedTaskOwns(v, h, sizes, live);
    }
  }

  lemma FailedTaskOwns(v: Variant, h: Heap, sizes: Sizes, live: seq<Block>) returns (live': seq<Block>)
    requires Inv(Sys(h, live)) && WellFormed(h) && CleanRequest(v, h.used, sizes.task) && !TaskHeap(v, h, sizes).1
    requires var (h1, p) := Alloc(v, h, sizes.task);
      && WellFormed(h1)
      && (p.Some? ==> CleanRequest(v, h1.used, STACK_SIZE) && WellFormed(Alloc(v, h1, STACK_SIZE).0))
    ensures Inv(Sys(TaskHeap(v, h, sizes).0, live')) && multiset(live') == multiset(live)
  {
    hide Inv, Alloc, Free, CleanRequest, BlockAt;
    var (h1, task) := Alloc(v, h, sizes.task);
    if task.None? {
      RefusedRequestIsClean(v, h, sizes.task);
      return live;
    }
    GrantKeepsIff(v, h, live, sizes.task);
    var b := BlockAt(task.value, sizes.task);
    var (h2, stack) := Alloc(v, h1, STACK_SIZE);
    if stack.None? {
      RefusedRequestIsClean(v, h1, STACK_SIZE);
      live' := GiveBackLast(h1, live, b);
      return;
    }
    GrantKeepsIff(v, h1, live + [b], STACK_SIZE);
    RefusedRequestIsClean(v, h2, sizes.context);
    var rest := GiveBackLast(h2, live + [b], BlockAt(stack.value, STACK_SIZE));
    var h3 := Free(h2, stack);
    assert b in multiset(rest) by { assert b == (live + [b])[|live|]; }
    ReturnKeeps(h3, rest, b);
    live' := Taken(rest, b);
    assert multiset(live + [b]) - multiset{b} == multiset(live);
  }

  /** The blocks the three requests of `task_create` are given after the VM has been created. */
  ghost function TaskBlocks(v: Variant, h: Heap, sizes: Sizes, ram: uint32): seq<Block>
    requires |h.used| == |h.mem| / UNIT
  {
    Serve(v, VmHeap(v, h, sizes, ram).0, TaskRequests(sizes)).1
  }

  /** The live blocks a launch adds: those of the VM when it is created, those of the task when that is too. */
  ghost function LaunchBlocks(v: Variant, h: Heap, sizes: Sizes, ramSize: uint32, code: int): multiset<Block>
    requires |h.used| == |h.mem| / UNIT
  {
    var ram := AlignedRam(ramSize);
    var vm := multiset(VmBlocks(sizes, ram, VmPlace(v, h, sizes, ram)));
    if code == 0 then vm + multiset(TaskBlocks(v, h, sizes, ram)) else if code == -7 then vm else multiset{}
  }

  lemma LaunchOwns(v: Variant, h: Heap, sizes: Sizes, ramSize: uint32, live: seq<Block>) returns (live': seq<Block>)
    requires Inv(Sys(h, live)) && CleanLaunch(v, h.used, sizes, ramSize)
    ensures var (h', code) := Launch(v, h, sizes, ramSize);
      && Inv(Sys(h', live')) && multiset(live') == multiset(live) + LaunchBlocks(v, h, sizes, ramSize, code)
      && (code == 0 ==> |TaskBlocks(v, h, sizes, AlignedRam(ramSize))| == 3)
  {
    InvSized(h, live);
    var ram := AlignedRam(ramSize);
    hide Inv, VmHeap, TaskHeap, AlignedRam, Room, FilledBy, CleanRequests, Serve, VmRequests, VmPlace, VmBlocks;
    VmCreatedIff(v, h, sizes, ram);
    VmServes(v, h, sizes, ram);
    var (h1, vm) := VmHeap(v, h, sizes, ram);
    var withVm := VmOwns(v, h, sizes, ram, live);
    if vm.None? {
      return withVm;
    }
    live' := TaskOwns(v, h1, sizes, withVm);
    if TaskHeap(v, h1, sizes).1 { TaskIsServed(v, h1, sizes); }
  }

  /**
   A clean load keeps every block apart from every other: after a success the blocks at the addresses given to
   the VM and to its RAM, and the three given to the task, its stack and its CPU context, are live blocks of their
   own beside those from before; after -7 those of the VM are; after any other error none are added.
   */
  lemma LoadOwns(v: Variant, h: Heap, sizes: Sizes, b: seq<byte>, live: seq<Block>) returns (live': seq<Block>)
    requires Inv(Sys(h, live)) && (Verdict(b) == 0 ==> CleanLoad(v, h.used, sizes, b))
    ensures Inv(Sys(Load(v, h, sizes, b).0, live'))
    ensures Verdict(b) != 0 ==> live' == live
    ensures Verdict(b) == 0 ==>
      var code := Load(v, h, sizes, b).1;
      && multiset(live') == multiset(live) + LaunchBlocks(v, h, sizes, ReadHeader(b).ramSize, code)
      && (code == 0 ==> |TaskBlocks(v, h, sizes, AlignedRam(ReadHeader(b).ramSize))| == 3)
  {
    if Verdict(b) != 0 {
      return live;
    }
    hide Inv, Launch, LaunchBlocks, TaskBlocks, CleanLaunch;
    live' := LaunchOwns(v, h, sizes, ReadHeader(b).ramSize, live);
  }

  lemma TaskIsServed(v: Variant, h: Heap, sizes: Sizes)
    requires |h.used| == |h.mem| / UNIT && TaskHeap(v, h, sizes).1
    ensures |Serve(v, h, TaskRequests(sizes)).1| == 3
  {
    ServeThree(v, h, sizes.task, STACK_SIZE, sizes.context);
    hide Alloc, Serve;
  }

  // ----- a load that keeps the VM's memory -----

  lemma EmptyFits(c: Libc)
    ensures AsmModel.Fits(c, [])
  {
  }

  /** The image of a source without lines. */
  ghost function EmptyImage(c: Libc): seq<byte> {
    EmptyFits(c);
    ImageOf(c, [])
  }

  lemma EmptyImageIs(c: Libc)
    ensures Verdict(EmptyImage(c)) == 0 && ReadHeader(EmptyImage(c)).ramSize == 0
  {
    EmptyFits(c);
    assert Plain([]);
    ImageLoads(c, []);
  }

  /**
   The image of an empty source, loaded into a heap with room for the VM and nothing else: -7, and the
   units of the VM stay taken.
   */
  lemma EmptyProgramLeaksVm(c: Libc, h: Heap, context: uint32)
    requires WellFormed(h) && |h.used| == 23 && forall i :: 0 <= i < 23 ==> !h.used[i]
    ensures var (h', code) := Load(WithReset, h, Sizes(176, 48, context), EmptyImage(c));
      code == -7 && forall i :: 0 <= i < 23 ==> h'.used[i]
  {
    EmptyImageIs(c);
    VmAlone(h, Sizes(176, 48, context));
    hide EmptyImage, Launch, ReadHeader, Verdict;
  }

  lemma VmAlone(h: Heap, sizes: Sizes)
    requires WellFormed(h) && |h.used| == 23 && forall i :: 0 <= i < 23 ==> !h.used[i]
    requires sizes.vm == 176 && sizes.task == 48
    ensures var (h', code) := Launch(WithReset, h, sizes, 0);
      code == -7 && |h'.used| == 23 && forall i :: 0 <= i < 23 ==> h'.used[i]
  {
    assert UnitsFor(176) == 23 && UnitsFor(48) == 7;
    hide UnitsFor, Find, Alloc;
    GrantedIff(h, 176);
    assert Search.Fits(h.used, 23, 0);
    FreshHeader(WithReset, h, 176);
    var h1 := Alloc(WithReset, h, 176).0;
    FullHeapRefuses(h1, 48);
    assert AlignedRam(0) == 0;
  }

  lemma FullHeapRefuses(h: Heap, size: uint32)
    requires WellFormed(h) && (forall i :: 0 <= i < |h.used| ==> h.used[i])
    ensures Alloc(WithReset, h, size) == (h, None)
  {
    Window(WithReset, h.used, UnitsFor(size));
    if Alloc(WithReset, h, size).1.None? { RefusedRequestIsClean(WithReset, h, size); }
  }
}

/** The loader over the heap in memory, and the objects it creates. */
module Loader {
  import opened Words
  import opened AsmModel
  import opened CStrings
  import opened Image
  import opened HeaderChecks
  import opened LoaderModel
  import opened MemAlloc
  import H = HeapModel

  datatype VmState = Ready | Running | Halted | Faulted

  class Vm {
    const at: nat
    const ramAt: Option<nat>
    const code: array<byte>
    const codeAt: nat
    const codeSize: uint32
    const ramSize: uint32
    const caps: uint32
    const name: seq<byte>
    var pc: uint32
    var sp: uint32
    var state: VmState
    var refCount: nat

    /** The fields `vm_create` fills in from the header, once its memory has been granted. */
    constructor (header: Header, code: array<byte>, codeAt: nat, at: nat, ramAt: Option<nat>)
      ensures this.at == at && this.ramAt == ramAt && this.code == code && this.codeAt == codeAt
      ensures Describes(header) && state == Ready && refCount == 1
    {
      this.at, this.ramAt, this.code, this.codeAt := at, ramAt, code, codeAt;
      codeSize, caps := header.codeSize, header.caps;
      ramSize := AlignedRam(header.ramSize);
      name := CString(StrNCpy(header.name, 15));
      pc, sp := header.entry, Wrap32(AlignedRam(header.ramSize) - 4);
      state, refCount := Ready, 1;
    }

    /** The VM stands at the entry point of the program that the header describes. */
    ghost predicate Describes(header: Header)
      reads this
    {
      && codeSize == header.codeSize && caps == header.caps && ramSize == AlignedRam(header.ramSize)
      && name == CString(StrNCpy(header.name, 15))
      && pc == header.entry && sp == Wrap32(ramSize - 4)
    }
  }

  class Task {
    const id: uint32
    const arg: Vm
    var privData: Vm?

    constructor (id: uint32, arg: Vm)
      ensures this.id == id && this.arg == arg && privData == null
    {
      this.id, this.arg, privData := id, arg, null;
    }
  }

  class Kernel {
    const heap: MemHeap
    const sizes: Sizes
    var nextTaskId: uint32
    var created: seq<Task>

    constructor (heap: MemHeap, sizes: Sizes)
      ensures this.heap == heap && this.sizes == sizes && nextTaskId == 1 && created == []
    {
      this.heap, this.sizes, nextTaskId, created := heap, sizes, 1, [];
    }

    method VmCreate(header: Header, code: array<byte>, codeAt: nat) returns (vm: Vm?)
      requires heap.Valid()
      modifies heap.heap, heap.bitmap
      ensures heap.Valid()
      ensures var (after, granted) := VmHeap(heap.search, old(heap.State()), sizes, AlignedRam(header.ramSize));
        && heap.State() == after
        && (vm == null <==> granted.None?)
        && (vm != null ==> (vm.at, vm.ramAt) == granted.value)
      ensures vm != null ==> fresh(vm) && vm.Describes(header) && vm.code == code && vm.codeAt == codeAt
      ensures vm != null ==> vm.state == Ready && vm.refCount == 1
    {
      ghost var before := heap.State();
      var at := heap.MemAlloc(sizes.vm);
      if at.None? {
        return null;
      }
      H.FreshHeader(heap.search, before, sizes.vm);
      var ram := AlignedRam(header.ramSize);
      var ramAt: Option<nat> := None;
      if ram > 0 {
        ramAt := heap.MemAlloc(ram);
        if ramAt.None? {
          heap.MemFree(at);
          return null;
        }
      }
      vm := new Vm(header, code, codeAt, at.value, ramAt);
    }

    /** A VM that is still referred to is only marked; otherwise its memory is returned. */
    method VmDestroy(vm: Vm)
      requires heap.Valid()
      requires vm.refCount == 0 ==> H.Freeable(heap.State(), vm.at)
      requires vm.refCount == 0 && vm.ramAt.Some? ==> H.Freeable(heap.State(), vm.ramAt.value)
      modifies vm`state, heap.heap, heap.bitmap
      ensures heap.Valid()
      ensures old(vm.refCount) > 0 ==> vm.state == Halted && heap.State() == old(heap.State())
      ensures old(vm.refCount) == 0 ==>
        vm.state == old(vm.state) && heap.State() == H.Free(H.Free(old(heap.State()), vm.ramAt), Some(vm.at))
    {
      if vm.refCount > 0 {
        vm.state := Halted;
        return;
      }
      if vm.ramAt.Some? {
        H.FreeableBounds(heap.State(), vm.ramAt.value);
      }
      H.FreeFreeable(heap.State(), vm.ramAt);
      heap.MemFree(vm.ramAt);
      H.FreeableBounds(heap.State(), vm.at);
      heap.MemFree(Some(vm.at));
    }

    method TaskCreate(vm: Vm) returns (task: Task?)
      requires heap.Valid()
      modifies this`nextTaskId, this`created, heap.heap, heap.bitmap
      ensures heap.Valid()
      ensures (heap.State(), task != null) == TaskHeap(heap.search, old(heap.State()), sizes)
      ensures if task == null then nextTaskId == old(nextTaskId) && created == old(created)
        else nextTaskId == Wrap32(old(nextTaskId) + 1) && created == old(created) + [task]
      ensures task != null ==> fresh(task) && task.id == old(nextTaskId) && task.arg == vm && task.privData == null
    {
      hide TaskHeap;
      var granted := TaskMemory();
      if !granted {
        return null;
      }
      task := new Task(nextTaskId, vm);
      nextTaskId := Wrap32(nextTaskId + 1);
      created := created + [task];
    }

    /** The three allocations of `task_create`, undone when one of them fails. */
    method TaskMemory() returns (granted: bool)
      requires heap.Valid()
      modifies heap.heap, heap.bitmap
      ensures heap.Valid()
      ensures (heap.State(), granted) == TaskHeap(heap.search, old(heap.State()), sizes)
    {
      hide H.Alloc, H.Free, H.Freeable, H.Returnable;
      H.AllocFreeable(heap.search, heap.State(), sizes.task);
      var at := heap.MemAlloc(sizes.task);
      if at.None? {
        return false;
      }
      H.AllocFreeable(heap.search, heap.State(), STACK_SIZE);
      var stack := heap.MemAlloc(STACK_SIZE);
      if stack.None? {
        H.FreeableBounds(heap.State(), at.value);
        heap.MemFree(at);
        return false;
      }
      H.AllocFreeable(heap.search, heap.State(), sizes.context);
      var context := heap.MemAlloc(sizes.context);
      if context.None? {
        GiveBackTwo(stack.value, at.value);
        return false;
      }
      return true;
    }

    method GiveBackTwo(first: nat, second: nat)
      requires heap.Valid() && H.Freeable(heap.State(), first) && H.Freeable(heap.State(), second)
      modifies heap.heap, heap.bitmap
      ensures heap.Valid()
      ensures heap.State() == H.Free(H.Free(old(heap.State()), Some(first)), Some(second))
    {
      H.FreeableBounds(heap.State(), first);
      H.FreeFreeable(heap.State(), Some(first));
      heap.MemFree(Some(first));
      H.FreeableBounds(heap.State(), second);
      heap.MemFree(Some(second));
    }

    /** One more task, which runs and owns a VM that the header describes. */
    ghost predicate Started(header: Header, before: seq<Task>, id: uint32, code: array<byte>, place: (nat, Option<nat>))
      reads this, created, set t | t in created :: t.arg
    {
      && |created| == |before| + 1 && created[..|before|] == before && nextTaskId == Wrap32(id + 1)
      && var task := created[|before|];
      && task.id == id && task.privData == task.arg
      && task.arg.Describes(header) && task.arg.code == code && task.arg.codeAt == HEADER_SIZE
      && task.arg.state == Ready && task.arg.refCount == 1 && (task.arg.at, task.arg.ramAt) == place
    }

    /** The VM runs the program in these bytes: each field as it stands there. */
    ghost predicate RunsImage(vm: Vm, b: seq<byte>)
      requires |b| >= 44
      reads vm
    {
      && vm.codeAt == 44 && vm.codeSize == NumberAt(b, 24) && vm.pc == NumberAt(b, 32) && vm.caps == NumberAt(b, 36)
      && vm.ramSize % 4 == 0 && vm.sp == Wrap32(vm.ramSize - 4)
      && (NumberAt(b, 28) <= TWO32 - 4 ==> NumberAt(b, 28) <= vm.ramSize < NumberAt(b, 28) + 4)
      && (NumberAt(b, 28) > TWO32 - 4 ==> vm.ramSize == 0)
      && vm.name == CString(StrNCpy(StrNCpy(b[4..20], 16), 15))
    }

    /** What a header read from these bytes describes is the program in them. */
    lemma DescribedRuns(vm: Vm, b: seq<byte>)
      requires |b| >= 44 && vm.Describes(Converted(b)) && vm.codeAt == HEADER_SIZE
      ensures RunsImage(vm, b)
    {
      ReadLayout(b);
      var r := ReadHeader(b);
      SameNumber(b[24..28], r.codeSize, NumberAt(b, 24));
      SameNumber(b[28..32], r.ramSize, NumberAt(b, 28));
      SameNumber(b[32..36], r.entry, NumberAt(b, 32));
      SameNumber(b[36..40], r.caps, NumberAt(b, 36));
      AlignedRamIs(r.ramSize);
      hide ReadHeader, LittleEndian, NumberAt;
    }

    method Start(header: Header, binary: array<byte>) returns (code: int)
      requires heap.Valid()
      modifies this`nextTaskId, this`created, heap.heap, heap.bitmap
      ensures heap.Valid()
      ensures var (after, result) := Launch(heap.search, old(heap.State()), sizes, header.ramSize);
              var place := VmPlace(heap.search, old(heap.State()), sizes, AlignedRam(header.ramSize));
        && heap.State() == after
        && (result != 0 ==> code == result && created == old(created) && nextTaskId == old(nextTaskId))
        && (result == 0 ==> Started(header, old(created), old(nextTaskId), binary, place))
        && (result == 0 ==> code == Signed32(old(nextTaskId)))
    {
      hide VmHeap, TaskHeap;
      var vm := VmCreate(header, binary, HEADER_SIZE);
      if vm == null {
        return -6;
      }
      var task := TaskCreate(vm);
      if task == null {
        VmDestroy(vm);
        return -7;
      }
      task.privData := vm;
      return Signed32(task.id);
    }

    lemma ImageRuns(b: seq<byte>, before: seq<Task>, id: uint32, code: array<byte>)
      requires |b| >= 44
      ensures forall place :: Started(Converted(b), before, id, code, place) ==> RunsImage(created[|before|].arg, b)
    {
      forall place | Started(Converted(b), before, id, code, place) ensures RunsImage(created[|before|].arg, b) {
        DescribedRuns(created[|before|].arg, b);
      }
    }

    method KernelLoadApp(binary: array?<byte>, binSize: uint32) returns (code: int)
      requires heap.Valid()
      requires binary != null ==> binSize <= binary.Length && binary != heap.heap
      modifies this`nextTaskId, this`created, heap.heap, heap.bitmap
      ensures heap.Valid()
      ensures var b := old(Passed(binary, binSize));
              var (after, result) := Load(heap.search, old(heap.State()), sizes, b);
              var place := PlaceOf(heap.search, old(heap.State()), sizes, b);
        && heap.State() == after
        && (result != 0 ==> code == result && created == old(created) && nextTaskId == old(nextTaskId))
        && (result == 0 ==> Started(Converted(b), old(created), old(nextTaskId), binary, place))
        && (result == 0 ==> RunsImage(created[|old(created)|].arg, b))
        && (result == 0 ==> code == Signed32(old(nextTaskId)))
    {
      hide Launch, Word32, Kernel.Started;
      if binary == null || binSize < HEADER_SIZE {
        return -1;
      }
      ghost var b := binary[..binSize];
      var magic := ReadWord(binary, binSize, 0);
      if magic != APP_MAGIC {
        return -2;
      }
      var version := ReadWord(binary, binSize, 20);
      if version < ABI_MIN_VERSION || version > ABI_VERSION {
        return -4;
      }
      var codeSize := ReadWord(binary, binSize, 24);
      var ramSize := ReadWord(binary, binSize, 28);
      var entry := ReadWord(binary, binSize, 32);
      var caps := ReadWord(binary, binSize, 36);
      if codeSize > binSize - HEADER_SIZE {
        return -5;
      }
      assert b[4..20] == binary[4..20];
      var header := Header(magic, StrNCpy(binary[4..20], 16), version, codeSize, ramSize, entry, caps, 0);
      assert header == Converted(b);
      code := Start(header, binary);
      ImageRuns(b, old(created), old(nextTaskId), binary);
    }
  }

  /** The bytes a caller passes; NULL counts as none. */
  ghost function Passed(binary: array?<byte>, binSize: uint32): seq<byte>
    requires binary != null ==> binSize <= binary.Length
    reads binary
  {
    if binary == null then [] else binary[..binSize]
  }

  function Signed32(x: uint32): int {
    if x < 0x8000_0000 then x else x - TWO32
  }

  method ReadWord(binary: array<byte>, size: nat, at: nat) returns (w: uint32)
    requires size <= binary.Length && at + 4 <= size
    ensures w == Word32(binary[..size], at)
  {
    return Word32(binary[at..at + 4], 0);
  }
}
