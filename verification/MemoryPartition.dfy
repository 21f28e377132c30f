/** How the driver divides its reserved memory between pipes, and what it lets a process map
    (spif-driver/spif-driver.c, lines 764 to 822 and 388 to 410). */
module MemoryPartition {
  import opened Arithmetic
  import opened SpifDriver

  const PAGE: nat := 0x1000

  /** A range of physical addresses. */
  datatype Range = Range(start: nat, size: nat) {
    predicate Inside(r: Range) { r.start <= start && start + size <= r.start + r.size }
    predicate Apart(r: Range) { start + size <= r.start || r.start + r.size <= start }
  }

  datatype Memory = Memory(pa: nat, size: nat, pipes: nat) {
    predicate Valid() { pipes >= 1 }
    function Whole(): Range { Range(pa, size) }
  }

  /** The buffers in address order: the input buffer of pipe `k` is number `2k`, its output
      buffer number `2k + 1`. */
  function Buffer(m: Memory, b: nat): Range
    requires m.Valid()
  {
    var sz := BufferSize(m.size, m.pipes);
    Range(BufferBase(m.pa, m.size, m.pipes, b / 2) + if b % 2 == 1 then sz else 0, sz)
  }

  lemma BufferStart(m: Memory, b: nat)
    requires m.Valid()
    ensures Buffer(m, b).start == m.pa + BufferSize(m.size, m.pipes) * b
  {
    var sz, k := BufferSize(m.size, m.pipes), b / 2;
    assert k * (2 * sz) == sz * (2 * k);
    assert sz * (2 * k + 1) == sz * (2 * k) + sz;
  }

  /** MAIN RESULT. All buffers lie inside the reserved memory and no two of them overlap, for
      any number of pipes and any size. */
  lemma BuffersPartitionMemory(m: Memory, b: nat, c: nat)
    requires m.Valid() && b < c < 2 * m.pipes
    ensures Buffer(m, b).Inside(m.Whole()) && Buffer(m, c).Inside(m.Whole())
    ensures Buffer(m, b).Apart(Buffer(m, c))
  {
    var sz := BufferSize(m.size, m.pipes);
    BufferStart(m, b);
    BufferStart(m, c);
    MulStep(sz, b, c);
    MulStep(sz, c, 2 * m.pipes);
    assert sz * (2 * m.pipes) <= m.size by {
      SizeIsQuotient(m.size, m.pipes);
      assert sz * (2 * m.pipes) == (2 * m.pipes) * sz;
    }
    hide BufferSize, BufferBase, Buffer;
  }

  // ---------------------------------------------------------------------------
  // Mapping
  // ---------------------------------------------------------------------------

  /** The two buffers of one pipe. */
  function OwnBuffers(m: Memory, k: nat): Range
    requires m.Valid()
  {
    Range(BufferBase(m.pa, m.size, m.pipes, k), 2 * BufferSize(m.size, m.pipes))
  }

  /** The size check of the map operation. A process asks for whole pages. */
  predicate Accepted(m: Memory, vsize: nat)
    requires m.Valid()
  {
    vsize > 0 && vsize % PAGE == 0 && vsize <= 2 * BufferSize(m.size, m.pipes)
  }

  /** What gets mapped: the page frame number drops the offset of the buffer in its page. */
  function Mapped(m: Memory, k: nat, vsize: nat): Range
    requires m.Valid()
  {
    var base := BufferBase(m.pa, m.size, m.pipes, k);
    Range(base - base % PAGE, vsize)
  }

  /** MAIN RESULT. Every mapping accepted for a pipe stays inside its own two buffers exactly
      when they start on a page boundary, or are too small for a page to be accepted. */
  lemma MappingInsideIff(m: Memory, k: nat)
    requires m.Valid() && k < m.pipes
    ensures (forall v :: Accepted(m, v) ==> Mapped(m, k, v).Inside(OwnBuffers(m, k))) <==>
            (BufferBase(m.pa, m.size, m.pipes, k) % PAGE == 0 || 2 * BufferSize(m.size, m.pipes) < PAGE)
  {
    hide BufferBase, BufferSize;
    var sz := 2 * BufferSize(m.size, m.pipes);
    if BufferBase(m.pa, m.size, m.pipes, k) % PAGE != 0 && sz >= PAGE {
      assert Accepted(m, PAGE) && !Mapped(m, k, PAGE).Inside(OwnBuffers(m, k));
    }
  }

  /** From a page boundary every mapping of whole pages that stays inside is accepted, and no
      other. */
  lemma AcceptedIffInside(m: Memory, k: nat, v: nat)
    requires m.Valid() && v > 0 && v % 4096 == 0
    ensures BufferBase(m.pa, m.size, m.pipes, k) % 4096 == 0 ==>
              (Accepted(m, v) <==> Mapped(m, k, v).Inside(OwnBuffers(m, k)))
    ensures Mapped(m, k, v).size == v
  {
    hide BufferBase, BufferSize;
  }

  /** All pipes start on a page boundary exactly when the reserved memory does and, with more
      than one pipe, two buffers make up whole pages. */
  lemma AllAlignedIff(m: Memory)
    requires m.Valid()
    ensures (forall k: nat :: k < m.pipes ==> BufferBase(m.pa, m.size, m.pipes, k) % PAGE == 0) <==>
            (m.pa % PAGE == 0 && (m.pipes == 1 || (2 * BufferSize(m.size, m.pipes)) % PAGE == 0))
  {
    hide BufferBase, BufferSize;
    NextBase(m.pa, m.size, m.pipes, 0);
    if m.pa % PAGE == 0 && (2 * BufferSize(m.size, m.pipes)) % PAGE == 0 {
      forall k: nat | k < m.pipes
        ensures BufferBase(m.pa, m.size, m.pipes, k) % PAGE == 0
      {
        AlignedFrom(m, k);
      }
    }
  }

  lemma {:induction false} AlignedFrom(m: Memory, k: nat)
    requires m.Valid() && m.pa % PAGE == 0 && (2 * BufferSize(m.size, m.pipes)) % PAGE == 0
    ensures BufferBase(m.pa, m.size, m.pipes, k) % PAGE == 0
    decreases k
  {
    hide BufferBase, BufferSize;
    if k == 0 {
      NextBase(m.pa, m.size, m.pipes, 0);
    } else {
      NextBase(m.pa, m.size, m.pipes, k - 1);
      AlignedFrom(m, k - 1);
    }
  }

  /** Where a misaligned mapping starts: below the reserved memory for pipe 0, and in the output
      buffer of the pipe before for any other. */
  lemma MisalignedMapping(m: Memory, k: nat, v: nat)
    requires m.Valid() && k < m.pipes
    ensures BufferBase(m.pa, m.size, m.pipes, k) % PAGE != 0 && Accepted(m, v) ==>
              if k == 0 then Mapped(m, k, v).start < m.pa
              else !Mapped(m, k, v).Apart(Buffer(m, 2 * k - 1))
  {
    hide BufferBase, BufferSize, Buffer;
    if k == 0 {
      NextBase(m.pa, m.size, m.pipes, 0);
    } else {
      PreviousOutput(m, k);
    }
  }

  /** The output buffer of the pipe before ends where the buffers of pipe `k` start. */
  lemma PreviousOutput(m: Memory, k: nat)
    requires m.Valid() && k > 0
    ensures var sz := BufferSize(m.size, m.pipes);
            Buffer(m, 2 * k - 1) == Range(BufferBase(m.pa, m.size, m.pipes, k) - sz, sz)
  {
    assert (2 * k - 1) / 2 == k - 1;
    NextBase(m.pa, m.size, m.pipes, k - 1);
    hide BufferBase, BufferSize;
  }

  /** With three pipes in one mebibyte the second pipe's mapping starts below its own buffers,
      in the output buffer of the first. */
  lemma MisalignedExample()
    ensures var m := Memory(0, 0x10_0000, 3);
            var v := PAGE;
            Accepted(m, v) && !Mapped(m, 1, v).Inside(OwnBuffers(m, 1)) && !Mapped(m, 1, v).Apart(Buffer(m, 1))
  {
    var m := Memory(0, 0x10_0000, 3);
    assert BufferSize(m.size, m.pipes) == 174762;
    assert BufferBase(m.pa, m.size, m.pipes, 1) == 349524;
    assert 349524 % 0x1000 == 1364;
  }
}
