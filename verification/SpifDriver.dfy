/** Probing and removing the kernel driver (spif-driver/spif-driver.c): every resource the
    driver acquires is released exactly once, on the error ladders as well as on removal.

    The kernel is a set of held resources. A resource can be acquired only while it is not held
    and released only while it is, so nothing can be released twice. Whether an acquisition is
    granted, and what the device tree and the board report, is the environment's choice. */
module SpifDriver {
  import opened Arithmetic

  datatype Resource =
    | Foreign(id: nat)                     // whatever else the kernel holds
    | DrvMem | ApbMap | DevClass | ChrdevRegion(count: nat)
    | PipeMem(pipe: nat) | Irq(pipe: nat, line: int) | DmaMap(pipe: nat)
    | Device(pipe: nat) | Cdev(pipe: nat)

  /** The answers that one pipe gets; `irq` is what the interrupt lookup returns. */
  datatype PipeEnv = PipeEnv(
    mem: bool, node: bool, irq: int, irqGrant: bool, addr: bool, remap: bool, device: bool, cdev: bool)

  datatype Env = Env(
    drvMem: bool, apbNode: bool, apbAddr: bool, apbMap: bool, signature: bool,
    rsvdNode: bool, rsvdAddr: bool, rsvdPa: nat, rsvdSz: nat,
    devClass: bool, region: bool,
    outps: nat, pipes: seq<PipeEnv>)

  /** An interrupt is used on output pipes that have one. */
  predicate UsesIrq(e: Env, k: nat)
    requires k < |e.pipes|
  {
    k < e.outps && e.pipes[k].irq > 0
  }

  predicate DmacGranted(e: Env, k: nat)
    requires k < |e.pipes|
  {
    var p := e.pipes[k];
    p.node && (UsesIrq(e, k) ==> p.irqGrant) && p.addr && p.remap
  }

  predicate PipeGranted(e: Env, k: nat)
    requires k < |e.pipes|
  {
    e.pipes[k].mem && DmacGranted(e, k) && e.pipes[k].device && e.pipes[k].cdev
  }

  predicate ApbGranted(e: Env) { e.apbNode && e.apbAddr && e.apbMap && e.signature }

  predicate PipesGranted(e: Env) {
    e.devClass && e.region && forall k :: 0 <= k < |e.pipes| ==> PipeGranted(e, k)
  }

  /** Nothing the driver asks for is refused. */
  predicate AllGranted(e: Env) {
    e.drvMem && ApbGranted(e) && e.rsvdNode && e.rsvdAddr && PipesGranted(e)
  }

  // ---------------------------------------------------------------------------
  // What a loaded driver holds
  // ---------------------------------------------------------------------------

  function DmacSet(e: Env, k: nat): set<Resource>
    requires k < |e.pipes|
  {
    {DmaMap(k)} + if UsesIrq(e, k) then {Irq(k, e.pipes[k].irq)} else {}
  }

  function PipeSet(e: Env, k: nat): set<Resource>
    requires k < |e.pipes|
  {
    {PipeMem(k), Device(k), Cdev(k)} + DmacSet(e, k)
  }

  function FirstPipes(e: Env, n: nat): set<Resource>
    requires n <= |e.pipes|
  {
    if n == 0 then {} else FirstPipes(e, n - 1) + PipeSet(e, n - 1)
  }

  function DeviceSet(e: Env): set<Resource> {
    {DevClass, ChrdevRegion(|e.pipes|)} + FirstPipes(e, |e.pipes|)
  }

  function FullSet(e: Env): set<Resource> {
    {DrvMem, ApbMap} + DeviceSet(e)
  }

  /** What the first `n` pipes hold, resource by resource: four for every pipe, and an
      interrupt for every output pipe that has one. */
  predicate HeldByFirst(e: Env, n: nat, r: Resource)
    requires n <= |e.pipes|
  {
    match r
    case PipeMem(k) => k < n
    case DmaMap(k) => k < n
    case Device(k) => k < n
    case Cdev(k) => k < n
    case Irq(k, line) => k < n && UsesIrq(e, k) && line == e.pipes[k].irq
    case _ => false
  }

  lemma {:induction false} FirstPipesMembers(e: Env, n: nat, r: Resource)
    requires n <= |e.pipes|
    ensures r in FirstPipes(e, n) <==> HeldByFirst(e, n, r)
  {
    hide PipeSet, HeldByFirst;
    if n == 0 {
      NothingHeld(e, r);
    } else {
      FirstPipesMembers(e, n - 1, r);
      PipeSetMembers(e, n - 1, r);
    }
  }

  lemma NothingHeld(e: Env, r: Resource)
    ensures !HeldByFirst(e, 0, r)
  {
  }

  lemma PipeSetMembers(e: Env, k: nat, r: Resource)
    requires k < |e.pipes|
    ensures r in PipeSet(e, k) <==> HeldByFirst(e, k + 1, r) && !HeldByFirst(e, k, r)
    ensures HeldByFirst(e, k, r) ==> HeldByFirst(e, k + 1, r)
  {
  }

  /** The full set has no more and no less. */
  lemma FullSetMembers(e: Env, r: Resource)
    ensures r in FullSet(e) <==>
            r in {DrvMem, ApbMap, DevClass, ChrdevRegion(|e.pipes|)} || HeldByFirst(e, |e.pipes|, r)
  {
    FirstPipesMembers(e, |e.pipes|, r);
  }

  predicate OfPipe(r: Resource, k: nat) {
    match r
    case PipeMem(p) => p == k
    case Irq(p, _) => p == k
    case DmaMap(p) => p == k
    case Device(p) => p == k
    case Cdev(p) => p == k
    case _ => false
  }

  /** A resource that no pipe owns. */
  predicate Shared(r: Resource) {
    r.Foreign? || r.DrvMem? || r.ApbMap? || r.DevClass? || r.ChrdevRegion?
  }

  lemma FirstPipesOnly(e: Env, n: nat)
    requires n <= |e.pipes|
    ensures forall r, k :: r in FirstPipes(e, n) && k >= n ==> !OfPipe(r, k)
  {
    forall r | r in FirstPipes(e, n)
      ensures HeldByFirst(e, n, r)
    {
      FirstPipesMembers(e, n, r);
    }
  }

  // ---------------------------------------------------------------------------
  // The kernel and the driver's data
  // ---------------------------------------------------------------------------

  class Kernel {
    var held: set<Resource>

    constructor ()
      ensures held == {}
    {
      held := {};
    }

    method Acquire(r: Resource, grant: bool) returns (ok: bool)
      requires r !in held
      modifies this
      ensures ok == grant && held == if ok then old(held) + {r} else old(held)
    {
      ok := grant;
      if ok {
        held := held + {r};
      }
    }

    method Release(r: Resource)
      requires r in held
      modifies this
      ensures held == old(held) - {r}
    {
      held := held - {r};
    }
  }

  class PipeData {
    const slab: nat                        // the allocation this structure lives in
    var pmemPa: nat
    var pmemSz: nat
    var devNum: nat
    var devOpen: bool
    var dmarVa: nat
    var dmaIrq: int
    var next: PipeData?

    constructor (slab: nat)
      ensures this.slab == slab
    {
      this.slab := slab;
      pmemPa, pmemSz, devNum, devOpen, dmarVa, dmaIrq, next := 0, 0, 0, false, 0, 0, null;
    }
  }

  class DrvData {
    var pipes: nat
    var outps: nat
    var pipeList: PipeData?
    var rsvdPa: nat
    var rsvdSz: nat

    constructor ()
    {
      pipes, outps, pipeList, rsvdPa, rsvdSz := 0, 0, null, 0, 0;
    }
  }

  /** Bytes of each of the two buffers of a pipe; nothing when there is none. */
  function BufferSize(rsvdSz: nat, pipes: nat): nat {
    if pipes == 0 then 0 else Div(rsvdSz, 2 * pipes)
  }

  /** Where the buffers of pipe `k` start. */
  function BufferBase(rsvdPa: nat, rsvdSz: nat, pipes: nat, k: nat): nat {
    rsvdPa + k * (2 * BufferSize(rsvdSz, pipes))
  }

  lemma NextBase(rsvdPa: nat, rsvdSz: nat, pipes: nat, k: nat)
    ensures BufferBase(rsvdPa, rsvdSz, pipes, 0) == rsvdPa
    ensures BufferBase(rsvdPa, rsvdSz, pipes, k + 1) ==
            BufferBase(rsvdPa, rsvdSz, pipes, k) + 2 * BufferSize(rsvdSz, pipes)
  {
  }

  /** Pipe `k` is set up. */
  ghost predicate PipeReady(e: Env, p: PipeData, k: nat)
    requires k < |e.pipes|
    reads p
  {
    && p.slab == k && p.devNum == k && p.dmarVa == k
    && p.dmaIrq == (if k < e.outps then e.pipes[k].irq else 0)
    && !p.devOpen
    && p.pmemSz == BufferSize(e.rsvdSz, |e.pipes|)
    && p.pmemPa == BufferBase(e.rsvdPa, e.rsvdSz, |e.pipes|, k)
  }

  /** The linked list from `head` holds the pipes `ps`, the last one first. */
  ghost predicate Chain(e: Env, head: PipeData?, ps: seq<PipeData>)
    requires |ps| <= |e.pipes|
    reads ps
  {
    && (head == if ps == [] then null else ps[|ps| - 1])
    && (forall k :: 0 <= k < |ps| ==> PipeReady(e, ps[k], k))
    && (forall k :: 0 <= k < |ps| ==> Linked(ps, k))
  }

  ghost predicate Linked(ps: seq<PipeData>, k: nat)
    requires k < |ps|
    reads ps[k]
  {
    ps[k].next == if k == 0 then null else ps[k - 1]
  }

  // ---------------------------------------------------------------------------
  // Acquisition, with its error ladders
  // ---------------------------------------------------------------------------

  method DmacInit(kern: Kernel, e: Env, k: nat, pipe: PipeData) returns (ok: bool)
    requires k < |e.pipes| && forall r <- kern.held :: OfPipe(r, k) ==> r == PipeMem(k)
    modifies kern, pipe
    ensures ok == DmacGranted(e, k)
    ensures kern.held == if ok then old(kern.held) + DmacSet(e, k) else old(kern.held)
    ensures ok ==> pipe.dmarVa == k && pipe.dmaIrq == (if k < e.outps then e.pipes[k].irq else 0)
    ensures pipe.next == old(pipe.next)
  {
    var answers := e.pipes[k];
    if !answers.node {
      return false;
    }
    if k < e.outps {
      pipe.dmaIrq := answers.irq;
      if pipe.dmaIrq > 0 {
        ok := kern.Acquire(Irq(k, pipe.dmaIrq), answers.irqGrant);
        if !ok {
          return;
        }
      }
    } else {
      pipe.dmaIrq := 0;
    }
    ok := answers.addr;
    if ok {
      ok := kern.Acquire(DmaMap(k), answers.remap);
    }
    if ok {
      pipe.dmarVa := k;
    } else if pipe.dmaIrq > 0 {
      kern.Release(Irq(k, pipe.dmaIrq));
    }
  }

  method CdevInit(kern: Kernel, e: Env, k: nat, pipe: PipeData) returns (ok: bool)
    requires k < |e.pipes| && Device(k) !in kern.held && Cdev(k) !in kern.held
    modifies kern, pipe`devOpen
    ensures ok == (e.pipes[k].device && e.pipes[k].cdev)
    ensures kern.held == if ok then old(kern.held) + {Device(k), Cdev(k)} else old(kern.held)
    ensures ok ==> !pipe.devOpen
  {
    ok := kern.Acquire(Device(k), e.pipes[k].device);
    if ok {
      pipe.devOpen := false;
      ok := kern.Acquire(Cdev(k), e.pipes[k].cdev);
      if !ok {
        kern.Release(Device(k));
      }
    }
  }

  /** The first step of the error ladder: give back what `DmacInit` acquired. */
  method UndoDmac(kern: Kernel, e: Env, k: nat, pipe: PipeData, ghost rest: set<Resource>)
    requires k < |e.pipes| && pipe.dmarVa == k && pipe.dmaIrq == (if k < e.outps then e.pipes[k].irq else 0)
    requires kern.held == rest + DmacSet(e, k) && forall r <- rest :: OfPipe(r, k) ==> r == PipeMem(k)
    modifies kern
    ensures kern.held == rest
  {
    kern.Release(DmaMap(pipe.dmarVa));
    if pipe.dmaIrq > 0 {
      kern.Release(Irq(k, pipe.dmaIrq));
    }
  }

  /** One iteration of the loop over pipes, down to its own error ladder. */
  method PipeInit(kern: Kernel, e: Env, k: nat, pmemPa: nat, pmemSz: nat) returns (pipe: PipeData?)
    requires k < |e.pipes| && forall r <- kern.held :: !OfPipe(r, k)
    requires pmemSz == BufferSize(e.rsvdSz, |e.pipes|) && pmemPa == BufferBase(e.rsvdPa, e.rsvdSz, |e.pipes|, k)
    modifies kern
    ensures (pipe != null) == PipeGranted(e, k)
    ensures pipe != null ==> fresh(pipe) && PipeReady(e, pipe, k)
    ensures kern.held == if pipe != null then old(kern.held) + PipeSet(e, k) else old(kern.held)
  {
    hide BufferBase, BufferSize;
    var ok := kern.Acquire(PipeMem(k), e.pipes[k].mem);
    if !ok {
      return null;
    }
    pipe := new PipeData(k);
    ok := DmacInit(kern, e, k, pipe);
    if ok {
      pipe.devNum, pipe.pmemPa, pipe.pmemSz := k, pmemPa, pmemSz;
      ok := CdevInit(kern, e, k, pipe);
      if !ok {
        UndoDmac(kern, e, k, pipe, old(kern.held) + {PipeMem(k)});
      }
    }
    if !ok {
      kern.Release(PipeMem(pipe.slab));
      assert kern.held == old(kern.held);
      pipe := null;
    }
  }

  /** The body of both release loops. */
  method ReleasePipe(kern: Kernel, pipe: PipeData, ghost e: Env, ghost k: nat, ghost rest: set<Resource>)
    requires k < |e.pipes| && PipeReady(e, pipe, k)
    requires kern.held == rest + PipeSet(e, k) && forall r <- rest :: !OfPipe(r, k)
    modifies kern
    ensures kern.held == rest
  {
    kern.Release(Cdev(pipe.devNum));
    kern.Release(Device(pipe.devNum));
    kern.Release(DmaMap(pipe.dmarVa));
    if pipe.dmaIrq > 0 {
      kern.Release(Irq(pipe.slab, pipe.dmaIrq));
    }
    kern.Release(PipeMem(pipe.slab));
  }

  /** Walk the list and release every pipe on it. */
  method ReleasePipes(kern: Kernel, head: PipeData?, ghost e: Env, ghost ps: seq<PipeData>, ghost base: set<Resource>)
    requires |ps| <= |e.pipes| && Chain(e, head, ps)
    requires kern.held == base + FirstPipes(e, |ps|) && forall r <- base :: Shared(r)
    modifies kern
    ensures kern.held == base
  {
    hide PipeSet, PipeReady;
    var next := head;
    ghost var n: nat := |ps|;
    while next != null
      invariant n <= |ps| && (next == if n == 0 then null else ps[n - 1])
      invariant kern.held == base + FirstPipes(e, n)
      decreases n
    {
      var pipe := next;
      n := n - 1;
      assert Linked(ps, n);
      next := pipe.next;
      FirstPipesOnly(e, n);
      ghost var rest := base + FirstPipes(e, n);
      assert kern.held == rest + PipeSet(e, n);
      ReleasePipe(kern, pipe, e, n, rest);
    }
  }

  /** The loop over pipes: it stops at the first one that is refused something. */
  method CreatePipes(kern: Kernel, e: Env, drv: DrvData, pmemSz: nat)
    returns (ok: bool, list: PipeData?, ghost ps: seq<PipeData>)
    requires drv.pipes == |e.pipes| && drv.rsvdPa == e.rsvdPa && pmemSz == BufferSize(e.rsvdSz, |e.pipes|)
    requires forall r <- kern.held :: Shared(r)
    modifies kern
    ensures |ps| <= |e.pipes| && Chain(e, list, ps) && fresh(ps)
    ensures kern.held == old(kern.held) + FirstPipes(e, |ps|)
    ensures forall j :: 0 <= j < |ps| ==> PipeGranted(e, j)
    ensures if ok then |ps| == |e.pipes| else |ps| < |e.pipes| && !PipeGranted(e, |ps|)
  {
    hide PipeSet, PipeGranted, BufferBase, BufferSize;
    var pmemPa := drv.rsvdPa;
    NextBase(e.rsvdPa, e.rsvdSz, |e.pipes|, 0);
    ok, list, ps := true, null, [];
    var k := 0;
    while k < drv.pipes && ok
      invariant k == |ps| <= drv.pipes == |e.pipes|
      invariant ok ==> pmemPa == BufferBase(e.rsvdPa, e.rsvdSz, |e.pipes|, k)
      invariant Chain(e, list, ps) && fresh(ps)
      invariant kern.held == old(kern.held) + FirstPipes(e, k)
      invariant forall j :: 0 <= j < k ==> PipeGranted(e, j)
      invariant !ok ==> k < |e.pipes| && !PipeGranted(e, k)
      decreases drv.pipes - k, ok
    {
      ok, list, ps := AddPipe(kern, e, k, pmemPa, pmemSz, list, ps, old(kern.held));
      if ok {
        NextBase(e.rsvdPa, e.rsvdSz, |e.pipes|, k);
        pmemPa := pmemPa + 2 * pmemSz;
        k := k + 1;
      }
    }
  }

  /** One more pipe at the head of the list, or everything as it was. */
  method AddPipe(kern: Kernel, e: Env, k: nat, pmemPa: nat, pmemSz: nat, list: PipeData?,
                 ghost ps: seq<PipeData>, ghost base: set<Resource>)
    returns (ok: bool, head: PipeData?, ghost qs: seq<PipeData>)
    requires k == |ps| < |e.pipes| && Chain(e, list, ps)
    requires kern.held == base + FirstPipes(e, |ps|) && forall r <- base :: Shared(r)
    requires pmemSz == BufferSize(e.rsvdSz, |e.pipes|) && pmemPa == BufferBase(e.rsvdPa, e.rsvdSz, |e.pipes|, k)
    modifies kern
    ensures ok == PipeGranted(e, k)
    ensures |qs| == |ps| + (if ok then 1 else 0) && Chain(e, head, qs)
    ensures fresh(set p | p in qs && p !in ps)
    ensures kern.held == base + FirstPipes(e, |qs|)
  {
    hide PipeSet, PipeGranted;
    FirstPipesOnly(e, k);
    ok, head, qs := true, list, ps;
    var pipe := PipeInit(kern, e, k, pmemPa, pmemSz);
    if pipe == null {
      ok := false;
    } else {
      head := Push(e, pipe, list, ps);
      qs := ps + [pipe];
    }
  }

  lemma SizeIsQuotient(rsvdSz: nat, pipes: nat)
    requires pipes >= 1
    ensures BufferSize(rsvdSz, pipes) == Div(rsvdSz, 2 * pipes)
  {
  }

  /** Put a new pipe at the head of the list. */
  method Push(ghost e: Env, pipe: PipeData, list: PipeData?, ghost ps: seq<PipeData>) returns (head: PipeData)
    requires |ps| < |e.pipes| && Chain(e, list, ps) && pipe !in ps && PipeReady(e, pipe, |ps|)
    modifies pipe`next
    ensures Chain(e, head, ps + [pipe])
  {
    pipe.next := list;
    head := pipe;
    ghost var all := ps + [pipe];
    forall k | 0 <= k < |all|
      ensures PipeReady(e, all[k], k) && Linked(all, k)
    {
      if k < |ps| {
        assert all[k] == ps[k] != pipe && old(PipeReady(e, ps[k], k) && Linked(ps, k));
      }
    }
  }

  /** How setting up the pipes, and probing, can end; a fault is a division by zero, where the
      kernel stops the driver. */
  datatype Outcome = Success | Refused | Fault

  /** The outcome of asking for things that are all granted, or not. */
  function OutcomeOf(granted: bool, e: Env): Outcome {
    if !granted then Refused else if |e.pipes| == 0 then Fault else Success
  }

  method PipesInit(kern: Kernel, e: Env, drv: DrvData) returns (r: Outcome, ghost ps: seq<PipeData>)
    requires drv.pipes == |e.pipes| && drv.rsvdPa == e.rsvdPa && drv.rsvdSz == e.rsvdSz
    requires forall r <- kern.held :: r.Foreign? || r.DrvMem? || r.ApbMap?
    modifies kern, drv
    ensures r == OutcomeOf(PipesGranted(e), e)
    ensures kern.held == if r == Refused then old(kern.held) else old(kern.held) + DeviceSet(e)
    ensures drv.pipes == old(drv.pipes)
    ensures r == Success ==> |ps| == |e.pipes| && Chain(e, drv.pipeList, ps)
  {
    hide PipeSet, PipeGranted, BufferBase, BufferSize;
    ps := [];
    var ok := kern.Acquire(DevClass, e.devClass);
    if !ok {
      return Refused, ps;
    }
    ok := kern.Acquire(ChrdevRegion(drv.pipes), e.region);
    if !ok {
      kern.Release(DevClass);
      return Refused, ps;
    }
    if drv.pipes == 0 {
      return Fault, ps;
    }
    SizeIsQuotient(e.rsvdSz, |e.pipes|);
    ghost var base := kern.held;
    var list;
    ok, list, ps := CreatePipes(kern, e, drv, Div(drv.rsvdSz, 2 * drv.pipes));
    if ok {
      drv.pipeList := list;
      r := Success;
    } else {
      ReleasePipes(kern, list, e, ps, base);
      kern.Release(ChrdevRegion(drv.pipes));
      kern.Release(DevClass);
      r := Refused;
    }
  }

  method ApbrInit(kern: Kernel, e: Env, drv: DrvData) returns (ok: bool)
    requires ApbMap !in kern.held
    modifies kern, drv
    ensures ok == ApbGranted(e)
    ensures kern.held == if ok then old(kern.held) + {ApbMap} else old(kern.held)
    ensures ok ==> drv.pipes == |e.pipes| && drv.outps == e.outps
  {
    ok := e.apbNode && e.apbAddr;
    if ok {
      ok := kern.Acquire(ApbMap, e.apbMap);
    }
    if ok {
      if !e.signature {
        kern.Release(ApbMap);
        return false;
      }
      drv.pipes, drv.outps := |e.pipes|, e.outps;
    }
  }

  /** The state a successful probe leaves for removal. */
  ghost predicate Loaded(kern: Kernel, e: Env, drv: DrvData, ps: seq<PipeData>, base: set<Resource>)
    reads kern, drv, ps
  {
    && |ps| == |e.pipes| == drv.pipes && Chain(e, drv.pipeList, ps)
    && (forall r <- base :: r.Foreign?)
    && kern.held == base + FullSet(e)
  }

  /** MAIN RESULT. Refused anything, in any iteration, probing leaves the kernel as it found it.
      Refused nothing, it ends holding exactly the full set: loaded if the board reports a pipe,
      and otherwise stopped where it divides the memory by the number of pipes. */
  method Probe(kern: Kernel, e: Env) returns (r: Outcome, drv: DrvData?, ghost ps: seq<PipeData>)
    requires forall r <- kern.held :: r.Foreign?
    modifies kern
    ensures r == OutcomeOf(AllGranted(e), e)
    ensures r == Success <==> drv != null
    ensures kern.held == if r == Refused then old(kern.held) else old(kern.held) + FullSet(e)
    ensures r == Success ==> Loaded(kern, e, drv, ps, old(kern.held))
  {
    ps, drv := [], null;
    ghost var base := kern.held;
    var ok := kern.Acquire(DrvMem, e.drvMem);
    if !ok {
      return Refused, null, ps;
    }
    var data := new DrvData();
    ok := ApbrInit(kern, e, data);
    if ok {
      r := Refused;
      if e.rsvdNode && e.rsvdAddr {
        data.rsvdPa, data.rsvdSz := e.rsvdPa, e.rsvdSz;
        r, ps := PipesInit(kern, e, data);
      }
      if r == Fault {
        return;
      }
      ok := r == Success;
      if ok {
        drv := data;
      } else {
        kern.Release(ApbMap);
      }
    }
    if !ok {
      kern.Release(DrvMem);
      assert kern.held == base;
      r := Refused;
    }
  }

  /** MAIN RESULT. Removal undoes a successful probe: it releases the full set, nothing else. */
  method Remove(kern: Kernel, drv: DrvData, ghost e: Env, ghost ps: seq<PipeData>, ghost base: set<Resource>)
    requires Loaded(kern, e, drv, ps, base)
    modifies kern
    ensures kern.held == base
  {
    hide Chain, FirstPipes;
    ghost var shared := base + {DrvMem, ApbMap, DevClass, ChrdevRegion(drv.pipes)};
    assert kern.held == shared + FirstPipes(e, |ps|);
    FirstPipesOnly(e, |ps|);
    ReleasePipes(kern, drv.pipeList, e, ps, shared);
    kern.Release(ChrdevRegion(drv.pipes));
    kern.Release(DevClass);
    kern.Release(ApbMap);
    kern.Release(DrvMem);
    assert kern.held == base;
  }
}
