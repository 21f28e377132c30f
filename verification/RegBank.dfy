/** The register bank (spif_common/src/hssl_reg_bank.sv): configuration registers in banked
    arrays, diagnostic counters, a packet write port and an APB read and write port.
    Words are numbers below 2^32; a register of `w` bits keeps a word modulo 2^w. */
module RegBank {
  import opened Arithmetic

  const WORDS: nat := 0x1_0000_0000

  type Word = n: nat | n < WORDS
  type Nibble = n: nat | n < 16

  const IFCAS_SEC: nat := 0
  const RTKEY_SEC: nat := 1
  const RTMSK_SEC: nat := 2
  const RTRTE_SEC: nat := 3
  const DCCNT_SEC: nat := 4
  const MPKEY_SEC: nat := 5
  const MPMSK_SEC: nat := 6
  const MPSFT_SEC: nat := 7
  const MPLMT_SEC: nat := 8
  const FLVAL_SEC: nat := 9
  const FLMSK_SEC: nat := 11
  const DSKEY_SEC: nat := 13
  const DSMSK_SEC: nat := 14
  const DSSFT_SEC: nat := 15

  const SOFT_RES_REG: nat := 1
  const STATUS_REG: nat := 14
  const HW_VER_REG: nat := 15

  const NUM_IFREGS: nat := 7
  const NUM_RTREGS: nat := 16
  const NUM_DCREGS: nat := 5
  const NUM_MPREGS_PIPE: nat := 4
  const NUM_FLREGS_PIPE: nat := 8
  const NUM_DSREGS: nat := 6

  const BAD_REG: Word := 0xdead_beef
  const ALL_ONES: Word := 0xffff_ffff

  /** The configuration arrays. */
  datatype Bank = Bank(
    hssl: seq<Word>,
    rtKey: seq<Word>, rtMsk: seq<Word>, rtRte: seq<Word>,
    mpKey: seq<Word>, mpMsk: seq<Word>, mpSft: seq<Word>, mpLmt: seq<Word>,
    flVal: seq<Word>, flMsk: seq<Word>,
    dsKey: seq<Word>, dsMsk: seq<Word>, dsSft: seq<Word>)

  type Counters = c: seq<Word> | |c| == NUM_DCREGS
    witness seq(NUM_DCREGS, _ => 0)
  type Enables = c: seq<bool> | |c| == NUM_DCREGS
    witness seq(NUM_DCREGS, _ => false)

  datatype Regs = Regs(bank: Bank, ctr: Counters, prdata: Word, pready: bool)

  /** The status and version words are collected from signals, not stored. */
  datatype Input = Input(
    psel: bool, pwrite: bool, paddr: nat, pwdata: Word,
    prxEn: bool, prxAddr: nat, prxData: Word,
    cnt: Enables,
    status: Word, version: Word)

  predicate ApbRead(i: Input) { i.psel && !i.pwrite }
  predicate ApbWrite(i: Input) { i.psel && i.pwrite }

  // APB addresses are byte addresses, packet addresses are word addresses
  function Sec(addr: nat): Nibble { (addr / 64) % 16 }
  function Reg(addr: nat): Nibble { (addr / 4) % 16 }
  function ApbSec(i: Input): Nibble { Sec(i.paddr) }
  function ApbReg(i: Input): Nibble { Reg(i.paddr) }
  function PrxSec(i: Input): Nibble { (i.prxAddr / 16) % 16 }
  function PrxReg(i: Input): Nibble { i.prxAddr % 16 }

  predicate SoftReset(i: Input) {
    || (i.prxEn && PrxSec(i) == IFCAS_SEC && PrxReg(i) == SOFT_RES_REG)
    || (ApbWrite(i) && ApbSec(i) == IFCAS_SEC && ApbReg(i) == SOFT_RES_REG)
  }

  /** A write beyond the end of an array is ignored. */
  function Store(a: seq<Word>, reg: Nibble, v: Word): (b: seq<Word>)
    ensures |b| == |a|
  {
    if reg < |a| then a[reg := v] else a
  }

  function Fill(n: nat, v: Word): (a: seq<Word>)
    ensures |a| == n && forall k :: 0 <= k < n ==> a[k] == v
  {
    seq(n, _ => v)
  }

  /** Default values; entry 1 of the first array is not a register and keeps what it had. */
  function Defaults(b: Bank, pipes: nat): Bank {
    Bank(
      if |b.hssl| == NUM_IFREGS then [0, b.hssl[SOFT_RES_REG], 0xffff_fd00, 32, 0, 1000, 256] else b.hssl,
      Fill(NUM_RTREGS, ALL_ONES), Fill(NUM_RTREGS, 0), Fill(NUM_RTREGS, 0),
      Fill(pipes, 0), Fill(NUM_MPREGS_PIPE * pipes, 0), Fill(NUM_MPREGS_PIPE * pipes, 0),
      Fill(NUM_MPREGS_PIPE * pipes, ALL_ONES),
      Fill(NUM_FLREGS_PIPE * pipes, ALL_ONES), Fill(NUM_FLREGS_PIPE * pipes, 0),
      Fill(NUM_DSREGS, 0), Fill(NUM_DSREGS, ALL_ONES), Fill(NUM_DSREGS, 0))
  }

  function Write(b: Bank, sec: Nibble, reg: Nibble, v: Word): Bank {
    match sec
    case IFCAS_SEC => b.(hssl := Store(b.hssl, reg, v))
    case RTKEY_SEC => b.(rtKey := Store(b.rtKey, reg, v))
    case RTMSK_SEC => b.(rtMsk := Store(b.rtMsk, reg, v))
    case RTRTE_SEC => b.(rtRte := Store(b.rtRte, reg, v % 8))
    case MPKEY_SEC => b.(mpKey := Store(b.mpKey, reg, v))
    case MPMSK_SEC => b.(mpMsk := Store(b.mpMsk, reg, v))
    case MPSFT_SEC => b.(mpSft := Store(b.mpSft, reg, v % 64))
    case MPLMT_SEC => b.(mpLmt := Store(b.mpLmt, reg, v))
    case FLVAL_SEC => b.(flVal := Store(b.flVal, reg, v))
    case FLMSK_SEC => b.(flMsk := Store(b.flMsk, reg, v))
    case DSKEY_SEC => b.(dsKey := Store(b.dsKey, reg, v))
    case DSMSK_SEC => b.(dsMsk := Store(b.dsMsk, reg, v))
    case DSSFT_SEC => b.(dsSft := Store(b.dsSft, reg, v % 32))
    case _ => b
  }

  function NextBank(b: Bank, i: Input, pipes: nat): Bank {
    if SoftReset(i) then Defaults(b, pipes)
    else if i.prxEn then Write(b, PrxSec(i), PrxReg(i), i.prxData)
    else if ApbWrite(i) then Write(b, ApbSec(i), ApbReg(i), i.pwdata)
    else b
  }

  predicate PrxCounterWrite(i: Input, k: nat) { i.prxEn && PrxSec(i) == DCCNT_SEC && PrxReg(i) == k }

  predicate ApbCounterWrite(i: Input, k: nat) { ApbWrite(i) && ApbSec(i) == DCCNT_SEC && ApbReg(i) == k }

  function NextCounter(c: Word, i: Input, k: nat): Word
    requires k < NUM_DCREGS
  {
    if PrxCounterWrite(i, k) then i.prxData
    else if ApbCounterWrite(i, k) then i.pwdata
    else if i.cnt[k] then (c + 1) % WORDS
    else c
  }

  /** The array of a section, empty where there is none. */
  function Array(b: Bank, sec: Nibble): seq<Word> {
    match sec
    case IFCAS_SEC => b.hssl
    case RTKEY_SEC => b.rtKey
    case RTMSK_SEC => b.rtMsk
    case RTRTE_SEC => b.rtRte
    case MPKEY_SEC => b.mpKey
    case MPMSK_SEC => b.mpMsk
    case MPSFT_SEC => b.mpSft
    case MPLMT_SEC => b.mpLmt
    case FLVAL_SEC => b.flVal
    case FLMSK_SEC => b.flMsk
    case DSKEY_SEC => b.dsKey
    case DSMSK_SEC => b.dsMsk
    case DSSFT_SEC => b.dsSft
    case _ => []
  }

  /** What a configuration register holds. */
  function Cell(b: Bank, sec: Nibble, reg: Nibble): Word {
    if reg < |Array(b, sec)| then Array(b, sec)[reg] else 0
  }

  /** What a read of a stored register shows: mapper shifts are signed 6-bit numbers. */
  function View(sec: Nibble, v: Word): Word {
    if sec == MPSFT_SEC && 32 <= v < 64 then v + (WORDS - 64) else v
  }

  function ReadValue(s: Regs, i: Input): Word {
    var sec, reg := ApbSec(i), ApbReg(i);
    if sec == IFCAS_SEC && reg == STATUS_REG then i.status
    else if sec == IFCAS_SEC && reg == HW_VER_REG then i.version
    else if sec == DCCNT_SEC then if reg < NUM_DCREGS then s.ctr[reg] else BAD_REG
    else if reg < |Array(s.bank, sec)| then View(sec, Array(s.bank, sec)[reg])
    else BAD_REG
  }

  function Step(s: Regs, i: Input, pipes: nat): Regs {
    Regs(
      NextBank(s.bank, i, pipes),
      seq(NUM_DCREGS, k requires 0 <= k < NUM_DCREGS => NextCounter(s.ctr[k], i, k)),
      if ApbRead(i) then ReadValue(s, i) else s.prdata,
      !(ApbRead(i) && i.prxEn))
  }

  /** After hardware reset: defaults everywhere, counters at zero. */
  predicate IsReset(s: Regs, pipes: nat) {
    && |s.bank.hssl| == NUM_IFREGS && s.bank == Defaults(s.bank, pipes)
    && s.ctr == seq(NUM_DCREGS, _ => 0) && !s.pready
  }

  function Run(s0: Regs, trace: seq<Input>, pipes: nat): Regs {
    if trace == [] then s0 else Step(Run(s0, trace[..|trace| - 1], pipes), trace[|trace| - 1], pipes)
  }

  // ---------------------------------------------------------------------------
  // One flat register map
  // ---------------------------------------------------------------------------

  function Size(sec: Nibble, pipes: nat): nat {
    match sec
    case IFCAS_SEC => NUM_IFREGS
    case RTKEY_SEC | RTMSK_SEC | RTRTE_SEC => NUM_RTREGS
    case MPKEY_SEC => pipes
    case MPMSK_SEC | MPSFT_SEC | MPLMT_SEC => NUM_MPREGS_PIPE * pipes
    case FLVAL_SEC | FLMSK_SEC => NUM_FLREGS_PIPE * pipes
    case DSKEY_SEC | DSMSK_SEC | DSSFT_SEC => NUM_DSREGS
    case _ => 0
  }

  function Narrow(sec: Nibble, v: Word): Word {
    if sec == RTRTE_SEC then v % 8 else if sec == MPSFT_SEC then v % 64 else if sec == DSSFT_SEC then v % 32 else v
  }

  /** A configuration register: it has an array entry, and is not the soft-reset address. */
  predicate IsRegister(sec: Nibble, reg: Nibble, pipes: nat) {
    reg < Size(sec, pipes) && !(sec == IFCAS_SEC && reg == SOFT_RES_REG)
  }

  /** The documented default of a register. */
  function Default(sec: Nibble, reg: Nibble): Word {
    if sec == IFCAS_SEC then
      if reg == 2 then 0xffff_fd00 else if reg == 3 then 32 else if reg == 5 then 1000
      else if reg == 6 then 256 else 0
    else if sec == RTKEY_SEC || sec == MPLMT_SEC || sec == FLVAL_SEC || sec == DSMSK_SEC then ALL_ONES
    else 0
  }

  /** The write that wins a clock: a packet write shuts out an APB write. */
  datatype Winner = NoWrite | WriteTo(sec: Nibble, reg: Nibble, data: Word)

  function WinningWrite(i: Input): Winner {
    if i.prxEn then WriteTo(PrxSec(i), PrxReg(i), i.prxData)
    else if ApbWrite(i) then WriteTo(ApbSec(i), ApbReg(i), i.pwdata)
    else NoWrite
  }

  /** The value a flat register map holds: the last winning write to this very register since
      the last soft reset, or its default. */
  function LastValue(trace: seq<Input>, sec: Nibble, reg: Nibble): Word {
    if trace == [] || SoftReset(trace[|trace| - 1]) then Default(sec, reg)
    else
      var w := WinningWrite(trace[|trace| - 1]);
      if w.WriteTo? && w.sec == sec && w.reg == reg then Narrow(sec, w.data)
      else LastValue(trace[..|trace| - 1], sec, reg)
  }

  predicate WellFormed(b: Bank, pipes: nat) {
    forall sec: Nibble :: |Array(b, sec)| == Size(sec, pipes)
  }

  lemma WriteOneCell(b: Bank, sec: Nibble, reg: Nibble, v: Word, sec': Nibble)
    ensures |Array(Write(b, sec, reg, v), sec')| == |Array(b, sec')|
    ensures Array(Write(b, sec, reg, v), sec') ==
            if sec' == sec then Store(Array(b, sec), reg, Narrow(sec, v)) else Array(b, sec')
  {
  }

  lemma DefaultsAreDocumented(b: Bank, pipes: nat, sec: Nibble)
    requires |b.hssl| == NUM_IFREGS
    ensures |Array(Defaults(b, pipes), sec)| == Size(sec, pipes)
    ensures forall reg: Nibble :: IsRegister(sec, reg, pipes) ==>
              Array(Defaults(b, pipes), sec)[reg] == Default(sec, reg)
  {
  }

  /** Soft reset, by either port, gives every register its documented default. */
  lemma SoftResetRestores(s: Regs, i: Input, pipes: nat, sec: Nibble, reg: Nibble)
    requires WellFormed(s.bank, pipes) && SoftReset(i) && IsRegister(sec, reg, pipes)
    ensures Cell(Step(s, i, pipes).bank, sec, reg) == Default(sec, reg)
    ensures forall k: nat :: k < NUM_DCREGS ==> Step(s, i, pipes).ctr[k] == NextCounter(s.ctr[k], i, k)
  {
    hide Defaults, Array, Default, NextCounter, ReadValue;
    HsslLength(s.bank, pipes);
    DefaultsAreDocumented(s.bank, pipes, sec);
  }

  lemma StepWellFormed(b: Bank, i: Input, pipes: nat)
    requires WellFormed(b, pipes)
    ensures WellFormed(NextBank(b, i, pipes), pipes)
  {
    hide Write, Defaults, Array;
    assert |b.hssl| == NUM_IFREGS by {
      HsslIsSectionZero(b);
      assert |Array(b, 0)| == Size(0, pipes);
    }
    forall sec: Nibble
      ensures |Array(NextBank(b, i, pipes), sec)| == Size(sec, pipes)
    {
      DefaultsAreDocumented(b, pipes, sec);
      WriteOneCell(b, PrxSec(i), PrxReg(i), i.prxData, sec);
      WriteOneCell(b, ApbSec(i), ApbReg(i), i.pwdata, sec);
    }
  }

  lemma HsslIsSectionZero(b: Bank)
    ensures Array(b, 0) == b.hssl
  {
  }

  lemma {:induction false} RunWellFormed(s0: Regs, trace: seq<Input>, pipes: nat)
    requires IsReset(s0, pipes)
    ensures WellFormed(Run(s0, trace, pipes).bank, pipes)
  {
    if trace == [] {
      forall sec: Nibble
        ensures |Array(s0.bank, sec)| == Size(sec, pipes)
      {
        DefaultsAreDocumented(s0.bank, pipes, sec);
      }
    } else {
      hide Array, Size, NextBank;
      RunWellFormed(s0, trace[..|trace| - 1], pipes);
      StepWellFormed(Run(s0, trace[..|trace| - 1], pipes).bank, trace[|trace| - 1], pipes);
    }
  }

  /** MAIN RESULT. After any interleaving of packet writes, APB accesses and soft resets the
      banked arrays hold, register by register, the flat map. */
  lemma {:induction false} BankRefinesFlatMap(s0: Regs, trace: seq<Input>, pipes: nat, sec: Nibble, reg: Nibble)
    requires IsReset(s0, pipes) && IsRegister(sec, reg, pipes)
    ensures |Array(Run(s0, trace, pipes).bank, sec)| == Size(sec, pipes)
    ensures Cell(Run(s0, trace, pipes).bank, sec, reg) == LastValue(trace, sec, reg)
  {
    hide Write, Defaults, Array, Default, Size, Narrow;
    RunWellFormed(s0, trace, pipes);
    if trace == [] {
      DefaultsAreDocumented(s0.bank, pipes, sec);
    } else {
      var b, i := Run(s0, trace[..|trace| - 1], pipes).bank, trace[|trace| - 1];
      BankRefinesFlatMap(s0, trace[..|trace| - 1], pipes, sec, reg);
      RunWellFormed(s0, trace[..|trace| - 1], pipes);
      HsslLength(b, pipes);
      DefaultsAreDocumented(b, pipes, sec);
      WriteOneCell(b, PrxSec(i), PrxReg(i), i.prxData, sec);
      WriteOneCell(b, ApbSec(i), ApbReg(i), i.pwdata, sec);
    }
  }

  lemma HsslLength(b: Bank, pipes: nat)
    requires WellFormed(b, pipes)
    ensures |b.hssl| == NUM_IFREGS
  {
    assert |Array(b, 0)| == Size(0, pipes);
  }

  // ---------------------------------------------------------------------------
  // Counters
  // ---------------------------------------------------------------------------

  /** The last write to a counter, a packet write going before an APB write to the same one. */
  function LastCounterWrite(trace: seq<Input>, k: nat): Word {
    if trace == [] then 0
    else
      var i := trace[|trace| - 1];
      if PrxCounterWrite(i, k) then i.prxData
      else if ApbCounterWrite(i, k) then i.pwdata
      else LastCounterWrite(trace[..|trace| - 1], k)
  }

  /** Clocks with the counter enabled since that write. */
  function CountedSince(trace: seq<Input>, k: nat): nat
    requires k < NUM_DCREGS
  {
    if trace == [] then 0
    else
      var i := trace[|trace| - 1];
      if PrxCounterWrite(i, k) || ApbCounterWrite(i, k) then 0
      else CountedSince(trace[..|trace| - 1], k) + if i.cnt[k] then 1 else 0
  }

  /** MAIN RESULT. A counter is its last write plus the enabled clocks since, modulo 2^32; no
      soft reset, and no write to any other register, changes it. */
  lemma {:induction false} CounterMeaning(s0: Regs, trace: seq<Input>, pipes: nat, k: nat)
    requires IsReset(s0, pipes) && k < NUM_DCREGS
    ensures Run(s0, trace, pipes).ctr[k] == (LastCounterWrite(trace, k) + CountedSince(trace, k)) % WORDS
  {
    hide NextBank, ReadValue, PrxCounterWrite, ApbCounterWrite, Defaults;
    if trace == [] {
      assert LastCounterWrite(trace, k) + CountedSince(trace, k) == 0;
    } else {
      var before, i := trace[..|trace| - 1], trace[|trace| - 1];
      CounterMeaning(s0, before, pipes, k);
      var n := LastCounterWrite(before, k) + CountedSince(before, k);
      Wrap(n);
      var c := Run(s0, before, pipes).ctr[k];
      assert Run(s0, trace, pipes).ctr[k] == NextCounter(c, i, k);
    }
  }

  lemma Wrap(n: nat)
    ensures (n % WORDS + 1) % WORDS == (n + 1) % WORDS
  {
  }

  // ---------------------------------------------------------------------------
  // Reads
  // ---------------------------------------------------------------------------

  /** Entry 1 of the first array is no register: no write reaches it. */
  lemma {:induction false} EntryOneStays(s0: Regs, trace: seq<Input>, pipes: nat)
    requires IsReset(s0, pipes)
    ensures |Run(s0, trace, pipes).bank.hssl| == NUM_IFREGS
    ensures Run(s0, trace, pipes).bank.hssl[SOFT_RES_REG] == s0.bank.hssl[SOFT_RES_REG]
  {
    if trace == [] {
    } else {
      hide ReadValue, NextCounter;
      EntryOneStays(s0, trace[..|trace| - 1], pipes);
    }
  }

  /** What the flat register map, the counters and the signals say a read returns. */
  function Expected(s0: Regs, trace: seq<Input>, i: Input, pipes: nat): Word
    requires IsReset(s0, pipes)
  {
    var sec, reg := ApbSec(i), ApbReg(i);
    if sec == IFCAS_SEC && reg == SOFT_RES_REG then s0.bank.hssl[SOFT_RES_REG]
    else if sec == IFCAS_SEC && reg == STATUS_REG then i.status
    else if sec == IFCAS_SEC && reg == HW_VER_REG then i.version
    else if sec == DCCNT_SEC && reg < NUM_DCREGS then
      (LastCounterWrite(trace, reg) + CountedSince(trace, reg)) % WORDS
    else if IsRegister(sec, reg, pipes) then View(sec, LastValue(trace, sec, reg))
    else BAD_REG
  }

  /** MAIN RESULT. Every APB read, after any run: a register shows the flat map's value, a mapper
      shift sign-extended; a counter its closed form; status and version their signals; the
      soft-reset address whatever was there at power-up; any other address the bad-register word. */
  lemma ReadReturnsLastValue(s0: Regs, trace: seq<Input>, i: Input, pipes: nat)
    requires IsReset(s0, pipes) && ApbRead(i)
    ensures Step(Run(s0, trace, pipes), i, pipes).prdata == Expected(s0, trace, i, pipes)
  {
    var sec, reg := ApbSec(i), ApbReg(i);
    RunWellFormed(s0, trace, pipes);
    assert |Array(Run(s0, trace, pipes).bank, sec)| == Size(sec, pipes);
    if sec == DCCNT_SEC {
      hide Array, Size, NextBank, NextCounter;
      if reg < NUM_DCREGS {
        CounterMeaning(s0, trace, pipes, reg);
      }
    } else if sec == IFCAS_SEC && reg == SOFT_RES_REG {
      HsslIsSectionZero(Run(s0, trace, pipes).bank);
      hide Array, NextBank, NextCounter;
      EntryOneStays(s0, trace, pipes);
    } else if IsRegister(sec, reg, pipes) {
      hide Array, Size, NextBank, NextCounter;
      BankRefinesFlatMap(s0, trace, pipes, sec, reg);
    } else {
      hide Array, NextBank, NextCounter;
    }
  }

  /** The clock `i` as a clock of an APB read. */
  function Reading(i: Input, addr: nat): Input {
    i.(psel := true, pwrite := false, paddr := addr)
  }

  /** The clocks of an APB read up to its completion: a setup clock, then one for every wait. */
  function Reads(clocks: seq<Input>, addr: nat): seq<Input> {
    seq(|clocks|, k requires 0 <= k < |clocks| => Reading(clocks[k], addr))
  }

  lemma ReadClock(s0: Regs, trace: seq<Input>, clocks: seq<Input>, addr: nat, pipes: nat, n: nat)
    requires n < |clocks|
    ensures Run(s0, trace + Reads(clocks[..n + 1], addr), pipes) ==
            Step(Run(s0, trace + Reads(clocks[..n], addr), pipes), Reading(clocks[n], addr), pipes)
  {
    hide Step;
    var before, i := trace + Reads(clocks[..n], addr), Reading(clocks[n], addr);
    assert Reads(clocks[..n + 1], addr) == Reads(clocks[..n], addr) + [i];
    assert trace + Reads(clocks[..n + 1], addr) == before + [i];
    assert (before + [i])[..|before|] == before;
  }

  /** The APB read over `clocks` ends after the first of them that leaves ready high; the last of
      them is the one that captures the data. */
  predicate Completes(s0: Regs, trace: seq<Input>, clocks: seq<Input>, addr: nat, pipes: nat) {
    && clocks != []
    && forall n :: 1 <= n <= |clocks| ==>
         (Run(s0, trace + Reads(clocks[..n], addr), pipes).pready <==> n == |clocks|)
  }

  /** A clock of a read without a packet write changes no register and captures what it reads. */
  lemma QuietReadKeepsBank(s: Regs, i: Input, pipes: nat)
    requires ApbRead(i) && !i.prxEn
    ensures var t := Step(s, i, pipes);
            && t.bank == s.bank && t.prdata == ReadValue(s, i)
            && forall k: nat :: k < NUM_DCREGS ==> t.ctr[k] == if i.cnt[k] then (s.ctr[k] + 1) % WORDS else s.ctr[k]
  {
    hide ReadValue, Write, Defaults;
  }

  /** MAIN RESULT. A whole APB read, with any number of wait clocks: it waits exactly as long as
      packet writes keep coming, and a register read shows the register as it stands when the read
      completes, whatever those writes did. A counter read is that of one clock before. */
  lemma WholeRead(s0: Regs, trace: seq<Input>, clocks: seq<Input>, addr: nat, pipes: nat)
    requires IsReset(s0, pipes) && Completes(s0, trace, clocks, addr, pipes)
    ensures forall n :: 0 <= n < |clocks| ==> (clocks[n].prxEn <==> n < |clocks| - 1)
    ensures var s := Run(s0, trace + Reads(clocks, addr), pipes);
            && (IsRegister(Sec(addr), Reg(addr), pipes) ==>
                  s.prdata == View(Sec(addr), Cell(s.bank, Sec(addr), Reg(addr))))
            && (Sec(addr) == DCCNT_SEC && Reg(addr) < NUM_DCREGS ==>
                  s.ctr[Reg(addr)] == (s.prdata + if clocks[|clocks| - 1].cnt[Reg(addr)] then 1 else 0) % WORDS)
  {
    hide Run, ReadValue, NextBank, NextCounter, IsRegister, Reads;
    forall n | 0 <= n < |clocks|
      ensures clocks[n].prxEn <==> n < |clocks| - 1
    {
      ReadClock(s0, trace, clocks, addr, pipes, n);
      assert clocks[n].prxEn <==> !Run(s0, trace + Reads(clocks[..n + 1], addr), pipes).pready;
    }
    var n := |clocks| - 1;
    var i, s := Reading(clocks[n], addr), Run(s0, trace + Reads(clocks[..n], addr), pipes);
    ReadClock(s0, trace, clocks, addr, pipes, n);
    assert clocks[..n + 1] == clocks;
    QuietReadKeepsBank(s, i, pipes);
    RunWellFormed(s0, trace + Reads(clocks[..n], addr), pipes);
    ReadShowsCell(s, i, pipes);
  }

  lemma ReadShowsCell(s: Regs, i: Input, pipes: nat)
    requires WellFormed(s.bank, pipes)
    ensures IsRegister(ApbSec(i), ApbReg(i), pipes) ==>
              ReadValue(s, i) == View(ApbSec(i), Cell(s.bank, ApbSec(i), ApbReg(i)))
    ensures ApbSec(i) == DCCNT_SEC && ApbReg(i) < NUM_DCREGS ==> ReadValue(s, i) == s.ctr[ApbReg(i)]
  {
    assert |Array(s.bank, ApbSec(i))| == Size(ApbSec(i), pipes);
    hide Array;
  }

  // ---------------------------------------------------------------------------
  // APB writes that collide with packet writes
  // ---------------------------------------------------------------------------

  /** The clock `i` as a clock of an APB write. */
  function Writing(i: Input, addr: nat, v: Word): Input {
    i.(psel := true, pwrite := true, paddr := addr, pwdata := v)
  }

  /** The register at `addr` after a run. */
  function After(s0: Regs, trace: seq<Input>, pipes: nat, addr: nat): Word {
    Cell(Run(s0, trace, pipes).bank, Sec(addr), Reg(addr))
  }

  predicate PacketWrites(i: Input, addr: nat) {
    i.prxEn && PrxSec(i) == Sec(addr) && PrxReg(i) == Reg(addr)
  }

  predicate PacketResets(i: Input) {
    i.prxEn && PrxSec(i) == IFCAS_SEC && PrxReg(i) == SOFT_RES_REG
  }

  /** One clock of the write takes effect exactly when no packet write comes with it, to whatever
      register. The comment in the source promises a delay; the APB is told ready all the same. */
  lemma ApbClockTakesIff(s0: Regs, trace: seq<Input>, i: Input, addr: nat, pipes: nat)
    requires IsReset(s0, pipes) && IsRegister(Sec(addr), Reg(addr), pipes)
    ensures (forall v: Word :: After(s0, trace + [Writing(i, addr, v)], pipes, addr) == Narrow(Sec(addr), v))
            <==> !i.prxEn
    ensures forall v: Word :: Run(s0, trace + [Writing(i, addr, v)], pipes).pready
  {
    hide Run, Narrow, LastValue;
    forall v: Word
      ensures After(s0, trace + [Writing(i, addr, v)], pipes, addr) ==
              if i.prxEn then After(s0, trace + [Writing(i, addr, 0)], pipes, addr) else Narrow(Sec(addr), v)
      ensures Run(s0, trace + [Writing(i, addr, v)], pipes).pready
    {
      AfterClock(s0, trace, i, addr, v, pipes);
      AfterClock(s0, trace, i, addr, 0, pipes);
    }
    NarrowTells(Sec(addr));
    assert i.prxEn ==> After(s0, trace + [Writing(i, addr, 1)], pipes, addr) ==
                       After(s0, trace + [Writing(i, addr, 0)], pipes, addr);
  }

  lemma NarrowTells(sec: Nibble)
    ensures Narrow(sec, 0) != Narrow(sec, 1)
  {
  }

  /** What one clock of an APB write leaves in its register. */
  lemma AfterClock(s0: Regs, trace: seq<Input>, i: Input, addr: nat, v: Word, pipes: nat)
    requires IsReset(s0, pipes) && IsRegister(Sec(addr), Reg(addr), pipes)
    ensures After(s0, trace + [Writing(i, addr, v)], pipes, addr) ==
            if !i.prxEn then Narrow(Sec(addr), v)
            else if PacketResets(i) then Default(Sec(addr), Reg(addr))
            else if PacketWrites(i, addr) then Narrow(Sec(addr), i.prxData)
            else After(s0, trace, pipes, addr)
    ensures Run(s0, trace + [Writing(i, addr, v)], pipes).pready
  {
    var w := Writing(i, addr, v);
    assert (trace + [w])[..|trace|] == trace;
    BankRefinesFlatMap(s0, trace, pipes, Sec(addr), Reg(addr));
    BankRefinesFlatMap(s0, trace + [w], pipes, Sec(addr), Reg(addr));
    hide NextBank, ReadValue, Array, Narrow, Default, Size, NextCounter;
  }

  /** MAIN RESULT. An APB write holds its address and data for a setup clock `a` and an access
      clock `b`, and the register bank, which never looks at the enable, writes in both. The
      write takes effect exactly when no packet write comes in the access clock, or none comes in
      the setup clock and the one in the access clock leaves this register alone. */
  lemma ApbWriteTakesIff(s0: Regs, trace: seq<Input>, a: Input, b: Input, addr: nat, pipes: nat)
    requires IsReset(s0, pipes) && IsRegister(Sec(addr), Reg(addr), pipes)
    ensures (forall v: Word :: After(s0, trace + [Writing(a, addr, v)] + [Writing(b, addr, v)], pipes, addr)
                               == Narrow(Sec(addr), v))
            <==> !b.prxEn || (!a.prxEn && !PacketResets(b) && !PacketWrites(b, addr))
  {
    hide Narrow, Run, Default, After;
    var free := !b.prxEn || (!a.prxEn && !PacketResets(b) && !PacketWrites(b, addr));
    forall v: Word
      ensures After(s0, trace + [Writing(a, addr, v)] + [Writing(b, addr, v)], pipes, addr) ==
              if free then Narrow(Sec(addr), v)
              else After(s0, trace + [Writing(a, addr, 0)] + [Writing(b, addr, 0)], pipes, addr)
    {
      AfterClock(s0, trace, a, addr, v, pipes);
      AfterClock(s0, trace, a, addr, 0, pipes);
      AfterClock(s0, trace + [Writing(a, addr, v)], b, addr, v, pipes);
      AfterClock(s0, trace + [Writing(a, addr, 0)], b, addr, 0, pipes);
    }
    NarrowTells(Sec(addr));
    assert !free ==> After(s0, trace + [Writing(a, addr, 1)] + [Writing(b, addr, 1)], pipes, addr) ==
                     After(s0, trace + [Writing(a, addr, 0)] + [Writing(b, addr, 0)], pipes, addr);
  }

  /** Counters are different: what decides is only whether the access clock brings a packet write
      to the very same counter. */
  lemma CounterWriteTakesIff(s: Regs, b: Input, addr: nat, pipes: nat)
    requires Sec(addr) == DCCNT_SEC && Reg(addr) < NUM_DCREGS
    ensures (forall v: Word :: Step(s, Writing(b, addr, v), pipes).ctr[Reg(addr)] == v)
            <==> !PrxCounterWrite(b, Reg(addr))
  {
    hide NextBank, ReadValue;
    var k := Reg(addr);
    if PrxCounterWrite(b, k) {
      var v := if b.prxData == 0 then 1 else 0;
      assert Step(s, Writing(b, addr, v), pipes).ctr[k] == b.prxData != v;
    }
  }

  // ---------------------------------------------------------------------------
  // Addresses, in numbers
  // ---------------------------------------------------------------------------

  /** The word that an APB byte address names: the two low bits do not matter. */
  function WordAt(addr: nat): nat { (addr / 4) % 256 }

  /** Both ports see the same words: 16 registers to a section, packets by word address, the APB
      by byte address. */
  lemma AddressesDecode(i: Input, addr: nat)
    ensures 16 * Sec(addr) + Reg(addr) == WordAt(addr)
    ensures 16 * PrxSec(i) + PrxReg(i) == i.prxAddr % 256
  {
    assert addr / 64 == addr / 4 / 16;
    WordDecodes(addr / 4);
    WordDecodes(i.prxAddr);
  }

  lemma WordDecodes(w: nat)
    ensures 16 * ((w / 16) % 16) + w % 16 == w % 256
  {
    var high, low := w / 16, w % 16;
    assert w == 256 * (high / 16) + (16 * (high % 16) + low);
    Remainder(w, 256, high / 16, 16 * (high % 16) + low);
  }

  /** The register map. */
  lemma RegisterMap(a: nat, pipes: nat)
    requires a < 256
    ensures IsRegister(a / 16, a % 16, pipes) <==>
            || a == 0 || 2 <= a < 7
            || 16 <= a < 64
            || (80 <= a < 96 && a - 80 < pipes)
            || (96 <= a < 112 && a - 96 < 4 * pipes)
            || (112 <= a < 128 && a - 112 < 4 * pipes)
            || (128 <= a < 144 && a - 128 < 4 * pipes)
            || (144 <= a < 160 && a - 144 < 8 * pipes)
            || (176 <= a < 192 && a - 176 < 8 * pipes)
            || 208 <= a < 214 || 224 <= a < 230 || 240 <= a < 246
  {
  }

  /** The default of every register. */
  lemma DefaultMap(a: nat)
    requires a < 256
    ensures Default(a / 16, a % 16) ==
            if a == 2 then 0xffff_fd00 else if a == 3 then 32 else if a == 5 then 1000 else if a == 6 then 256
            else if 16 <= a < 32 || 128 <= a < 160 || 224 <= a < 240 then 0xffff_ffff
            else 0
  {
  }

  /** The soft reset is at word 1, the counters are at words 64 to 68, for both ports. */
  lemma SpecialAddresses(i: Input, k: nat)
    requires k < 5
    ensures SoftReset(i) <==>
            (i.prxEn && i.prxAddr % 256 == 1) || (i.psel && i.pwrite && WordAt(i.paddr) == 1)
    ensures PrxCounterWrite(i, k) <==> i.prxEn && i.prxAddr % 256 == 64 + k
    ensures ApbCounterWrite(i, k) <==> i.psel && i.pwrite && WordAt(i.paddr) == 64 + k
  {
    AddressesDecode(i, i.paddr);
  }

  /** What a read shows of a value written to a register in section `sec`: routes have 3 bits,
      distiller shifts 5, and mapper shifts are 6-bit numbers with a sign. */
  function Shown(sec: nat, v: Word): int {
    if sec == 3 then v % 8
    else if sec == 15 then v % 32
    else if sec == 7 then if v % 64 < 32 then v % 64 else 0x1_0000_0000 - 64 + v % 64
    else v
  }

  /** A write of `v` at word `a` that takes effect, from either port. */
  predicate WritesAt(w: Input, a: nat, v: Word) {
    || (w.prxEn && w.prxAddr % 256 == a && w.prxData == v && !(w.psel && w.pwrite && WordAt(w.paddr) == 1))
    || (!w.prxEn && w.psel && w.pwrite && WordAt(w.paddr) == a && w.pwdata == v)
  }

  /** MAIN RESULT. What either port writes at a word address, the APB reads there: at any of the
      word's byte addresses, after any number of clocks without a write. */
  lemma WriteThenRead(s0: Regs, before: seq<Input>, w: Input, quiet: seq<Input>, i: Input, pipes: nat, a: nat, v: Word)
    requires IsReset(s0, pipes) && a < 256 && IsRegister(a / 16, a % 16, pipes) && WritesAt(w, a, v)
    requires forall j <- quiet :: !j.prxEn && !(j.psel && j.pwrite)
    requires i.psel && !i.pwrite && WordAt(i.paddr) == a
    ensures Step(Run(s0, before + [w] + quiet, pipes), i, pipes).prdata == Shown(a / 16, v)
  {
    var trace := before + [w] + quiet;
    AddressesDecode(i, i.paddr);
    SectionOfWord(a, ApbSec(i), ApbReg(i));
    ReadReturnsLastValue(s0, trace, i, pipes);
    ValueStays(before, w, quiet, a, v);
    ViewShows(a / 16, v);
    NotSpecial(a, pipes);
    hide Run, Step, View, LastValue, Narrow, Shown, IsRegister;
  }

  lemma NotSpecial(a: nat, pipes: nat)
    requires a < 256 && IsRegister(a / 16, a % 16, pipes)
    ensures a / 16 != 4 && !(a / 16 == 0 && a % 16 in {1, 14, 15})
  {
  }

  lemma ViewShows(sec: Nibble, v: Word)
    ensures View(sec, Narrow(sec, v)) == Shown(sec, v)
  {
  }

  lemma WriteWins(w: Input, a: nat, v: Word)
    requires a < 256 && a != 1 && WritesAt(w, a, v)
    ensures !SoftReset(w) && WinningWrite(w) == WriteTo(a / 16, a % 16, v)
  {
    hide WordAt;
    AddressesDecode(w, w.paddr);
    if w.prxEn {
      SectionOfWord(a, PrxSec(w), PrxReg(w));
    } else {
      SectionOfWord(a, ApbSec(w), ApbReg(w));
    }
  }

  lemma {:induction false} ValueStays(before: seq<Input>, w: Input, quiet: seq<Input>, a: nat, v: Word)
    requires a < 256 && a != 1 && WritesAt(w, a, v) && forall j <- quiet :: !j.prxEn && !(j.psel && j.pwrite)
    ensures LastValue(before + [w] + quiet, a / 16, a % 16) == Narrow(a / 16, v)
    decreases |quiet|
  {
    hide Narrow, WritesAt;
    var trace := before + [w] + quiet;
    if quiet == [] {
      assert trace == before + [w] && (before + [w])[..|before|] == before;
      WriteWins(w, a, v);
    } else {
      assert trace[..|trace| - 1] == before + [w] + quiet[..|quiet| - 1];
      assert trace[|trace| - 1] == quiet[|quiet| - 1] && quiet[|quiet| - 1] in quiet;
      ValueStays(before, w, quiet[..|quiet| - 1], a, v);
    }
  }

  lemma SectionOfWord(a: nat, sec: Nibble, reg: Nibble)
    requires a == 16 * sec + reg
    ensures sec == a / 16 && reg == a % 16
  {
  }

  /** What the addresses that are not configuration registers read as. */
  lemma SpecialReads(s0: Regs, trace: seq<Input>, i: Input, pipes: nat)
    requires IsReset(s0, pipes) && i.psel && !i.pwrite
    ensures var a, r := WordAt(i.paddr), Step(Run(s0, trace, pipes), i, pipes).prdata;
            && (a == 14 ==> r == i.status)
            && (a == 15 ==> r == i.version)
            && (64 <= a < 69 ==> r == (LastCounterWrite(trace, a - 64) + CountedSince(trace, a - 64)) % 0x1_0000_0000)
            && (a !in {1, 14, 15} && !(64 <= a < 69) && !IsRegister(a / 16, a % 16, pipes) ==> r == 0xdead_beef)
  {
    hide Run, Step, LastValue, View, IsRegister, LastCounterWrite, CountedSince, WordAt, IsReset;
    var a := WordAt(i.paddr);
    AddressesDecode(i, i.paddr);
    SectionOfWord(a, ApbSec(i), ApbReg(i));
    ReadReturnsLastValue(s0, trace, i, pipes);
  }

  // ---------------------------------------------------------------------------
  // The register bank itself
  // ---------------------------------------------------------------------------

  class HsslRegBank {
    var bank: Bank
    var ctr: Counters
    var prdata: Word
    var pready: bool

    const pipes: nat
    ghost var atReset: Regs
    ghost var trace: seq<Input>

    function Registers(): Regs
      reads this
    {
      Regs(bank, ctr, prdata, pready)
    }

    ghost predicate Valid()
      reads this
    {
      IsReset(atReset, pipes) && Registers() == Run(atReset, trace, pipes)
    }

    constructor (pipes: nat, entry1: Word, data: Word)
      ensures Valid() && trace == [] && this.pipes == pipes
    {
      this.pipes := pipes;
      var b := Bank(Fill(NUM_IFREGS, entry1), [], [], [], [], [], [], [], [], [], [], [], []);
      bank, ctr, prdata, pready := Defaults(b, pipes), seq(NUM_DCREGS, _ => 0), data, false;
      trace := [];
      atReset := Regs(Defaults(b, pipes), seq(NUM_DCREGS, _ => 0), data, false);
    }

    /** The counters, one block for each. */
    method NextCounters(i: Input) returns (c: Counters)
      ensures c == Step(Registers(), i, pipes).ctr
    {
      hide NextBank, ReadValue;
      c := ctr;
      for k := 0 to NUM_DCREGS
        invariant forall j :: 0 <= j < k ==> c[j] == NextCounter(ctr[j], i, j)
        invariant forall j :: k <= j < NUM_DCREGS ==> c[j] == ctr[j]
      {
        if PrxCounterWrite(i, k) {
          c := c[k := i.prxData];
        } else if ApbCounterWrite(i, k) {
          c := c[k := i.pwdata];
        } else if i.cnt[k] {
          c := c[k := (c[k] + 1) % WORDS];
        }
      }
    }

    /** One rising clock edge. */
    method Clock(i: Input)
      requires Valid()
      modifies this
      ensures Valid() && atReset == old(atReset) && trace == old(trace) + [i]
      ensures Registers() == Step(old(Registers()), i, pipes)
    {
      hide Write, Defaults, ReadValue, NextCounter;
      assert (trace + [i])[..|trace|] == trace;
      var counters := NextCounters(i);
      if ApbRead(i) {
        prdata := ReadValue(Registers(), i);
      }
      if SoftReset(i) {
        bank := Defaults(bank, pipes);
      } else if i.prxEn {
        bank := Write(bank, PrxSec(i), PrxReg(i), i.prxData);
      } else if ApbWrite(i) {
        bank := Write(bank, ApbSec(i), ApbReg(i), i.pwdata);
      }
      pready := !(ApbRead(i) && i.prxEn);
      ctr := counters;
      trace := trace + [i];
    }
  }
}
