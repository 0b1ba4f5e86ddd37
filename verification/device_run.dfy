/**
 A whole run of an application, vm/src/handlers/start_vapp.rs: the segments of the manifest, the CPU over
 them, and the run loop. It takes the steps of `RiscvMachine` on flat arrays that hold the packaged pages, until
 the host fails; or it shows how the host got past a proof.
 */
module DeviceRuns {
  import opened MachineInts
  import opened FlatMemory
  import opened MerkleTree
  import opened ProofVerifier
  import opened AesCtrMode
  import opened RiscvMachine
  import opened MachineRuns
  import opened HostLinks
  import opened HonestHosts
  import opened OutsourcedMemories
  import opened OutsourcedSegments
  import opened DeviceCpus
  import HostMemory

  // ---------------------------------------------------------------------------------------
  // The run loop
  // ---------------------------------------------------------------------------------------

  lemma RunLonger(run: seq<Machine>, next: Machine)
    requires IsRun(run) && MachineRuns.Next(run[|run| - 1], next)
    ensures IsRun(run + [next])
  {
    var longer := run + [next];
    forall i | 0 < i < |longer| ensures MachineRuns.Next(longer[i - 1], longer[i]) {
      if i < |run| {
        assert MachineRuns.Next(run[i - 1], run[i]);
      }
    }
  }

  /** The run so far ends in the machine that the CPU stands for, unless the host got past a proof. */
  ghost predicate EndsIn(v: View, start: Machine, run: seq<Machine>) {
    !v.broken ==> IsRun(run) && run[0] == start && (!v.failed ==> v.m == run[|run| - 1])
  }

  /** Why the loop ended: after all its rounds, by an error of the machine, or by one of the host. */
  ghost predicate Ends(v: View, run: seq<Machine>, e: Option<CpuError>, steps: nat) {
    match e
    case None => !v.failed && (!v.broken ==> |run| == steps + 1)
    case Some(error) =>
      v.failed == IsHostError(error) && (!v.broken && !v.failed ==> v.m.Valid() && RunStep(v.m) == Err(error))
  }

  /** The loop, for a number of rounds. */
  method Run(cpu: DeviceCpu, steps: nat) returns (e: Option<CpuError>, ghost run: seq<Machine>)
    requires cpu.Valid() && !cpu.Now().failed && !cpu.Now().broken && Started(cpu.Now().m)
    modifies cpu`pc, cpu`reservationAddr, cpu.regs, cpu.Memories()
    ensures cpu.Valid() && Moved(cpu.Host(), old(cpu.Now()), cpu.Now())
    ensures EndsIn(cpu.Now(), old(cpu.Now()).m, run) && Ends(cpu.Now(), run, e, steps)
  {
    ghost var v := cpu.Now();
    run := [v.m];
    for i := 0 to steps
      invariant cpu.Valid() && !cpu.Now().failed && Moved(cpu.Host(), v, cpu.Now())
      invariant EndsIn(cpu.Now(), v.m, run) && (!cpu.Now().broken ==> |run| == i + 1)
    {
      ghost var before := cpu.Now();
      e := cpu.Step();
      ghost var after := cpu.Now();
      if e.Some? {
        return;
      }
      if !after.broken {
        RunLonger(run, after.m);
      }
      run := run + [after.m];
    }
    e := None;
  }

  // ---------------------------------------------------------------------------------------
  // Starting an application
  // ---------------------------------------------------------------------------------------

  /** What the manifest says about a section. */
  datatype Manifest = Manifest(start: u32, size: u32, nPages: u32, root: Digest)

  /** The root commits to these pages, and they back the section. */
  ghost predicate Describes(h: Hash, section: Manifest, pages: seq<bytes>) {
    && Addressable(section.start, section.size)
    && section.nPages == HostMemory.NPages(section.start, section.start + section.size)
    && |pages| == HostMemory.NextPowerOfTwo(section.nPages) && Backs(section.start, section.size, pages)
    && CommitsTo(h, section.root, pages)
  }

  /** The stack pointer: the last word of the stack, rounded down to a multiple of four. */
  function StackPointer(stack: Manifest): u32
    requires Addressable(stack.start, stack.size)
  {
    var last := stack.start + stack.size - 4;
    last - last % 4
  }

  /** It is the largest multiple of four that leaves room for a word. */
  lemma StackPointerIsLast(stack: Manifest)
    requires Addressable(stack.start, stack.size)
    ensures var (sp, end) := (StackPointer(stack), stack.start + stack.size);
            sp % 4 == 0 && sp + 4 <= end && forall other :: other % 4 == 0 && other + 4 <= end ==> other <= sp
  {
  }

  /** The machine that the application starts as. */
  ghost function FirstMachine(entrypoint: u32, code: Manifest, data: Manifest, stack: Manifest,
                              codePages: seq<bytes>, dataPages: seq<bytes>, stackPages: seq<bytes>): (m: Machine)
    requires Backs(code.start, code.size, codePages) && Backs(data.start, data.size, dataPages)
    requires Backs(stack.start, stack.size, stackPages)
    ensures m.Valid()
  {
    Machine(entrypoint, seq(32, _ => 0)[2 := StackPointer(stack)], FlatOf(code.start, code.size, codePages),
            FlatOf(data.start, data.size, dataPages), FlatOf(stack.start, stack.size, stackPages), None)
  }

  /** An empty cache, over the connection and the counter of all. */
  method NewMemory(h: Hash, host: HostLink, aesCtr: AesCtr, hmac: CodeHmac, maxPagesInCache: nat, kind: SectionKind,
                   nPages: u32, root: Digest, ghost pages: seq<bytes>)
    returns (memory: OutsourcedMemory)
    requires maxPagesInCache > 0 && |pages| == HostMemory.NextPowerOfTwo(nPages) && ArePages(pages) && CommitsTo(h, root, pages)
    requires host.Valid() && aesCtr.Valid() && aesCtr.short
    requires host.SoFar().Honest? ==> HoldsPages(host.SoFar().state, h, hmac, kind, pages)
    ensures fresh(memory) && memory.host == host && memory.aesCtr == aesCtr && memory.h == h && memory.nPages == nPages
    ensures memory.Valid() && !memory.failed && memory.breach.None? && memory.pages == pages
    ensures memory.sectionKind == kind && memory.isReadonly == kind.CodeSection?
  {
    memory := new OutsourcedMemory(h, host, aesCtr, hmac, maxPagesInCache, kind.CodeSection?, kind, nPages, root, pages);
  }

  /** The segment over it. */
  method NewSegment(h: Hash, host: HostLink, aesCtr: AesCtr, hmac: CodeHmac, maxPagesInCache: nat, kind: SectionKind,
                     start: u32, size: u32, nPages: u32, root: Digest, ghost pages: seq<bytes>)
    returns (segment: OutsourcedSegment)
    requires maxPagesInCache > 0 && Addressable(start, size) && nPages == HostMemory.NPages(start, start + size)
    requires |pages| == HostMemory.NextPowerOfTwo(nPages) && ArePages(pages) && CommitsTo(h, root, pages)
    requires host.Valid() && aesCtr.Valid() && aesCtr.short
    requires host.SoFar().Honest? ==> HoldsPages(host.SoFar().state, h, hmac, kind, pages)
    ensures fresh(segment) && fresh(segment.memory) && segment.memory.host == host && segment.memory.aesCtr == aesCtr
    ensures segment.Valid() && !segment.memory.failed && segment.memory.breach.None? && segment.memory.pages == pages
    ensures segment.memory.sectionKind == kind && segment.memory.isReadonly == kind.CodeSection?
    ensures segment.startAddress == start && segment.size == size && segment.memory.h == h
  {
    var memory := NewMemory(h, host, aesCtr, hmac, maxPagesInCache, kind, nPages, root, pages);
    segment := new OutsourcedSegment(start, size, memory);
  }

  /** A section of the manifest. */
  method LoadSection(h: Hash, host: HostLink, aesCtr: AesCtr, hmac: CodeHmac, maxPagesInCache: nat, kind: SectionKind,
                     section: Manifest, ghost pages: seq<bytes>)
    returns (segment: OutsourcedSegment)
    requires maxPagesInCache > 0 && Describes(h, section, pages)
    requires host.Valid() && aesCtr.Valid() && aesCtr.short
    requires host.SoFar().Honest? ==> HoldsPages(host.SoFar().state, h, hmac, kind, pages)
    ensures fresh(segment) && fresh(segment.memory) && segment.memory.host == host && segment.memory.aesCtr == aesCtr
    ensures IsStarted(segment, h)
    ensures segment.memory.sectionKind == kind && segment.memory.isReadonly == kind.CodeSection?
    ensures segment.AsFlat() == FlatOf(section.start, section.size, pages)
  {
    var start, size := section.start, section.size;
    segment := NewSegment(h, host, aesCtr, hmac, maxPagesInCache, kind, start, size, section.nPages, section.root, pages);
  }

  /** All sections of the manifest. */
  method LoadSections(h: Hash, host: HostLink, cipher: Cipher, hmac: CodeHmac, caches: (nat, nat, nat),
                      code: Manifest, data: Manifest, stack: Manifest,
                      ghost codePages: seq<bytes>, ghost dataPages: seq<bytes>, ghost stackPages: seq<bytes>)
    returns (codeSeg: OutsourcedSegment, dataSeg: OutsourcedSegment, stackSeg: OutsourcedSegment)
    requires caches.0 > 0 && caches.1 > 0 && caches.2 > 0 && host.Valid()
    requires Describes(h, code, codePages) && Describes(h, data, dataPages) && Describes(h, stack, stackPages)
    requires host.SoFar().Honest?
    requires HoldsPages(host.SoFar().state, h, hmac, CodeSection, codePages)
    requires HoldsPages(host.SoFar().state, h, hmac, DataSection, dataPages)
    requires HoldsPages(host.SoFar().state, h, hmac, StackSection, stackPages)
    ensures AreShared(codeSeg, dataSeg, stackSeg) && codeSeg.memory.host == host && codeSeg.memory.aesCtr.cipher == cipher
    ensures fresh(codeSeg.memory) && fresh(dataSeg.memory) && fresh(stackSeg.memory)
    ensures fresh(codeSeg.memory.aesCtr) && fresh(codeSeg.memory.aesCtr.nonce)
    ensures IsStarted(codeSeg, h) && IsStarted(dataSeg, h) && IsStarted(stackSeg, h)
    ensures codeSeg.AsFlat() == FlatOf(code.start, code.size, codePages)
    ensures dataSeg.AsFlat() == FlatOf(data.start, data.size, dataPages)
    ensures stackSeg.AsFlat() == FlatOf(stack.start, stack.size, stackPages)
  {
    var aesCtr := new AesCtr(cipher);
    codeSeg := LoadSection(h, host, aesCtr, hmac, caches.0, CodeSection, code, codePages);
    dataSeg := LoadSection(h, host, aesCtr, hmac, caches.1, DataSection, data, dataPages);
    stackSeg := LoadSection(h, host, aesCtr, hmac, caches.2, StackSection, stack, stackPages);
  }

  /** Nothing went wrong yet. */
  ghost predicate IsStarted(segment: OutsourcedSegment, h: Hash)
    reads segment.memory, segment.memory.host, segment.memory.aesCtr, segment.memory.aesCtr.nonce
  {
    match segment.memory.breach
    case None => segment.Valid() && !segment.memory.failed && segment.memory.h == h
    case Some(_) => false
  }

  /** A CPU over three segments, with a stack pointer. */
  method NewCpu(entrypoint: u32, codeSeg: OutsourcedSegment, dataSeg: OutsourcedSegment, stackSeg: OutsourcedSegment,
                stackPointer: u32)
    returns (cpu: DeviceCpu)
    requires AreShared(codeSeg, dataSeg, stackSeg) && codeSeg.Valid() && dataSeg.Valid() && stackSeg.Valid()
    ensures cpu.Valid() && fresh(cpu) && fresh(cpu.regs)
    ensures cpu.codeSeg == codeSeg && cpu.dataSeg == dataSeg && cpu.stackSeg == stackSeg
    ensures cpu.Now().m == Machine(entrypoint, seq(32, _ => 0)[2 := stackPointer], codeSeg.AsFlat(), dataSeg.AsFlat(),
                                   stackSeg.AsFlat(), None)
  {
    cpu := new DeviceCpu(entrypoint, codeSeg, dataSeg, stackSeg);
    cpu.Assign(2, stackPointer);
  }

  /** The CPU over the three segments, before its first step. */
  method StartCpu(h: Hash, host: HostLink, cipher: Cipher, hmac: CodeHmac, caches: (nat, nat, nat), entrypoint: u32,
                  code: Manifest, data: Manifest, stack: Manifest,
                  ghost codePages: seq<bytes>, ghost dataPages: seq<bytes>, ghost stackPages: seq<bytes>)
    returns (cpu: DeviceCpu)
    requires caches.0 > 0 && caches.1 > 0 && caches.2 > 0 && host.Valid() && host.asked == []
    requires Describes(h, code, codePages) && Describes(h, data, dataPages) && Describes(h, stack, stackPages)
    requires host.SoFar()
          == Honest(HostState(h, hmac, ClearLeaves(codePages), ClearLeaves(dataPages), ClearLeaves(stackPages), []))
    ensures fresh(cpu) && fresh(cpu.regs) && fresh(cpu.Memories() - {host}) && cpu.Host() == host
    ensures cpu.Valid() && cpu.codeSeg.memory.aesCtr.cipher == cipher && IsOf(cpu, h)
    ensures cpu.Now() == View(FirstMachine(entrypoint, code, data, stack, codePages, dataPages, stackPages), [], false, false)
  {
    var codeSeg, dataSeg, stackSeg :=
      LoadSections(h, host, cipher, hmac, caches, code, data, stack, codePages, dataPages, stackPages);
    cpu := NewCpu(entrypoint, codeSeg, dataSeg, stackSeg, StackPointer(stack));
  }

  /** All sections use this hash. */
  ghost predicate IsOf(cpu: DeviceCpu, h: Hash) {
    cpu.codeSeg.memory.h == h && cpu.dataSeg.memory.h == h && cpu.stackSeg.memory.h == h
  }

  /** A breach as it is shown: a collision, or an authentication code for another code page. */
  ghost predicate ShowsBreach(memory: OutsourcedMemory, h: Hash)
    reads memory, memory.host
  {
    match memory.breach
    case None => true
    case Some(Collision(pair)) => IsCollision(h, pair)
    case Some(b) => b.Forgery? && memory.IsBreach(b)
  }

  lemma BreachesAreShown(cpu: DeviceCpu, h: Hash)
    requires cpu.Valid() && IsOf(cpu, h)
    ensures ShowsBreach(cpu.codeSeg.memory, h)
    ensures ShowsBreach(cpu.dataSeg.memory, h) && ShowsBreach(cpu.stackSeg.memory, h)
    ensures cpu.dataSeg.memory.breach.Some? ==> cpu.dataSeg.memory.breach.value.Collision?
    ensures cpu.stackSeg.memory.breach.Some? ==> cpu.stackSeg.memory.breach.value.Collision?
  {
  }

  /** An honest host gets past no proof, and fails only by being asked too often. */
  lemma HonestHostServes(cpu: DeviceCpu)
    requires cpu.Valid() && cpu.Host().Since([], SECTIONS, true)
    ensures NeverDeviates(cpu.Host().strategy, cpu.Host().start, cpu.Host().horizon) ==>
              && !cpu.Now().broken
              && (cpu.Now().failed && Total(cpu.codeSeg.memory.aesCtr.cipher) ==> |cpu.Now().asked| > cpu.Host().horizon)
  {
    FailsOnlyWhenLost(cpu.codeSeg.memory, SECTIONS);
    FailsOnlyWhenLost(cpu.dataSeg.memory, SECTIONS);
    FailsOnlyWhenLost(cpu.stackSeg.memory, SECTIONS);
  }

  lemma CountersDiffer(cpu: DeviceCpu)
    requires cpu.Valid()
    ensures var aesCtr := cpu.codeSeg.memory.aesCtr;
            aesCtr.messages <= MESSAGES ==> NeverRepeats(aesCtr.used, aesCtr.messages)
  {
  }

  /** There is such a host, with authentication codes or without, and for all parts into which it cuts proofs. */
  lemma HonestHostExists(h: Hash, hmac: CodeHmac, code: Manifest, data: Manifest, stack: Manifest,
                         codePages: seq<bytes>, dataPages: seq<bytes>, stackPages: seq<bytes>,
                         hmacs: bool, cut: nat -> nat, horizon: nat)
    requires Describes(h, code, codePages) && Describes(h, data, dataPages) && Describes(h, stack, stackPages)
    ensures var host := HostState(h, hmac, ClearLeaves(codePages), ClearLeaves(dataPages), ClearLeaves(stackPages), []);
            Servable(host) && NeverDeviates(HonestStrategy(host, hmacs, cut), host, horizon)
  {
    ClearIsServable(codePages);
    ClearIsServable(dataPages);
    ClearIsServable(stackPages);
    StrategyNeverDeviates(HostState(h, hmac, ClearLeaves(codePages), ClearLeaves(dataPages), ClearLeaves(stackPages), []),
                          hmacs, cut, horizon);
  }

  /**
   From the manifest to the end of the run, against any host and any eviction strategy. The machine takes the
   steps of a run over flat arrays with the packaged pages, and ends by an error of that run, by one of the
   host, or after the given number of rounds; or a breach shows how the host got past a proof. An honest host
   gets past none, and fails only when the connection does. No counter block is used twice for the first 2^96
   committed pages, of all sections together.
   */
  method StartVapp(h: Hash, cipher: Cipher, hmac: CodeHmac, caches: (nat, nat, nat), entrypoint: u32,
                   code: Manifest, data: Manifest, stack: Manifest,
                   strategy: seq<Request> -> Response, horizon: nat, steps: nat,
                   ghost codePages: seq<bytes>, ghost dataPages: seq<bytes>, ghost stackPages: seq<bytes>)
    returns (e: Option<CpuError>, device: DeviceCpu, ghost run: seq<Machine>)
    requires caches.0 > 0 && caches.1 > 0 && caches.2 > 0 && entrypoint % 2 == 0
    requires Describes(h, code, codePages) && Describes(h, data, dataPages) && Describes(h, stack, stackPages)
    ensures device.Valid()
    ensures EndsIn(device.Now(), FirstMachine(entrypoint, code, data, stack, codePages, dataPages, stackPages), run)
    ensures Ends(device.Now(), run, e, steps)
    ensures ShowsBreach(device.codeSeg.memory, h)
    ensures ShowsBreach(device.dataSeg.memory, h) && ShowsBreach(device.stackSeg.memory, h)
    ensures var host := HostState(h, hmac, ClearLeaves(codePages), ClearLeaves(dataPages), ClearLeaves(stackPages), []);
            NeverDeviates(strategy, host, horizon) ==>
              && !device.Now().broken
              && (device.Now().failed && Total(cipher) ==> |device.Now().asked| > horizon)
    ensures var aesCtr := device.codeSeg.memory.aesCtr;
            aesCtr.messages <= MESSAGES ==> NeverRepeats(aesCtr.used, aesCtr.messages)
  {
    ghost var honest := HostState(h, hmac, ClearLeaves(codePages), ClearLeaves(dataPages), ClearLeaves(stackPages), []);
    var host := new HostLink(strategy, horizon, honest);
    device := StartCpu(h, host, cipher, hmac, caches, entrypoint, code, data, stack, codePages, dataPages, stackPages);
    e, run := Run(device, steps);
    BreachesAreShown(device, h);
    HonestHostServes(device);
    CountersDiffer(device);
  }
}
