/** The event filter and the event-to-key mapper of a pipe, both pure logic
    (spif_common/src/pkt_assembler.sv, lines 84 to 118). */
module Mapper {
  import opened Bits
  import opened Words
  import EvtDispatcher

  type Shift = n: nat | n < 64                  // MPSFT_BITS == 6, two's complement

  datatype Filter = Filter(val: bv32, msk: bv32)

  datatype Field = Field(msk: bv32, sft: Shift, lmt: bv32)

  const NUM_FLREGS: nat := 8
  const NUM_MPREGS: nat := 4

  type Filters = f: seq<Filter> | |f| == NUM_FLREGS
    witness seq(NUM_FLREGS, _ => Filter(0, 0))
  type Fields = f: seq<Field> | |f| == NUM_MPREGS
    witness seq(NUM_MPREGS, _ => Field(0, 0, 0))

  datatype Config = Config(filters: Filters, key: bv32, fields: Fields)

  /** The 5-bit complement the hardware shifts left by when bit 5 of the register is set. */
  function LeftShift(sft: Shift): nat {
    ((31 - sft % 32) + 1) % 32
  }

  function FieldValue(f: Field, event: bv32): bv32 {
    if f.sft >= 32 then Shl(And(event, f.msk), LeftShift(f.sft)) else Shr(And(event, f.msk), f.sft % 32)
  }

  predicate Passes(c: Config, event: bv32) {
    && (forall f <- c.filters :: f.val != And(event, f.msk))
    && (forall f <- c.fields :: !Over(FieldValue(f, event), f.lmt))
  }

  function MappedKey(c: Config, event: bv32): bv32 {
    Or(Or(Or(Or(c.key, FieldValue(c.fields[0], event)), FieldValue(c.fields[1], event)),
          FieldValue(c.fields[2], event)), FieldValue(c.fields[3], event))
  }

  // ---------------------------------------------------------------------------
  // The documented meaning of a shift register
  // ---------------------------------------------------------------------------

  /** The register as a two's complement number. */
  function Signed(sft: Shift): (n: int)
    ensures -32 <= n < 32 && (n - sft) % 64 == 0
  {
    if sft < 32 then sft else sft - 64
  }

  /** A negative count shifts left, any other right. */
  function SignedShift(v: bv32, n: int): bv32 {
    if n < 0 then Shl(v, -n) else Shr(v, n)
  }

  lemma ShiftMeans(f: Field, e: bv32)
    requires f.sft != 32
    ensures FieldValue(f, e) == SignedShift(And(e, f.msk), Signed(f.sft))
  {
    hide And, Shl, Shr;
    if f.sft > 32 {
      assert LeftShift(f.sft) == 64 - f.sft;
    }
  }

  /** A count of -32 should shift everything out, and shifts nothing. */
  lemma LastShiftFails(f: Field)
    requires f == Field(ALL_ONES, 32, 0)
    ensures FieldValue(f, 1) != SignedShift(And(1, f.msk), Signed(f.sft))
  {
    hide And, Shl, Shr;
    AndIdentity(1);
    ShlNone(1);
    ShlAll(1);
  }

  /** MAIN RESULT. The hardware shift is the documented one for every mask and event exactly
      when the count is not -32: the 5-bit complement of that one is 0, no shift at all. */
  lemma ShiftMeaningIff(sft: Shift)
    ensures (forall f: Field, e :: f.sft == sft ==> FieldValue(f, e) == SignedShift(And(e, f.msk), Signed(sft)))
            <==> Signed(sft) != -32
  {
    hide And, FieldValue, SignedShift;
    if sft == 32 {
      LastShiftFails(Field(ALL_ONES, sft, 0));
    } else {
      forall f: Field, e | f.sft == sft
        ensures FieldValue(f, e) == SignedShift(And(e, f.msk), Signed(sft))
      {
        ShiftMeans(f, e);
      }
    }
  }

  // ---------------------------------------------------------------------------
  // Bit by bit
  // ---------------------------------------------------------------------------

  /** Where bit `b` of a field comes from in the event: the documented count further left, or
      the bit itself for the count -32. */
  function FromBit(f: Field, b: nat): int { b + if f.sft == 32 then 0 else Signed(f.sft) }

  /** Bit `b` of a field: a bit of the event under the mask, moved. */
  predicate FieldBit(f: Field, e: bv32, b: nat) {
    var from := FromBit(f, b);
    0 <= from < 32 && HasBit(e, from) && HasBit(f.msk, from)
  }

  lemma FieldBits(f: Field, e: bv32, b: nat)
    requires b < 32
    ensures HasBit(FieldValue(f, e), b) <==> FieldBit(f, e, b)
  {
    hide HasBit, And, Shl, Shr;
    var v := And(e, f.msk);
    if f.sft >= 32 {
      var n := LeftShift(f.sft);
      assert n == if f.sft == 32 then 0 else 64 - f.sft;
      ShlBit(v, n, b);
      if b >= n {
        AndBit(e, f.msk, b - n);
      }
    } else {
      ShrBit(v, f.sft, b);
      AndBit(e, f.msk, b + f.sft);
      if b + f.sft >= 32 {
        BitBeyond(e, b + f.sft);
      }
    }
  }

  /** MAIN RESULT. The mapped key, bit by bit and for every configuration: the bits of the fixed
      key and those of the four fields, no others. */
  lemma KeyBits(c: Config, e: bv32, b: nat)
    requires b < 32
    ensures HasBit(MappedKey(c, e), b) <==>
            HasBit(c.key, b) || exists k :: 0 <= k < 4 && FieldBit(c.fields[k], e, b)
  {
    hide HasBit, Or, FieldValue, FieldBit;
    var v := seq(4, k requires 0 <= k < 4 => FieldValue(c.fields[k], e));
    forall k | 0 <= k < 4
      ensures HasBit(v[k], b) <==> FieldBit(c.fields[k], e, b)
    {
      FieldBits(c.fields[k], e, b);
    }
    OrBit(c.key, v[0], b);
    OrBit(Or(c.key, v[0]), v[1], b);
    OrBit(Or(Or(c.key, v[0]), v[1]), v[2], b);
    OrBit(Or(Or(Or(c.key, v[0]), v[1]), v[2]), v[3], b);
  }

  /** A filter matches an event that agrees with its value in every bit of the mask; a value with
      a bit outside the mask matches none. */
  predicate FilterMatches(f: Filter, e: bv32) {
    forall b :: 0 <= b < 32 ==> (HasBit(f.val, b) <==> HasBit(e, b) && HasBit(f.msk, b))
  }

  lemma FilterBits(f: Filter, e: bv32)
    ensures f.val == And(e, f.msk) <==> FilterMatches(f, e)
  {
    hide HasBit, And;
    Extensional(f.val, And(e, f.msk));
    forall b | 0 <= b < 32
      ensures HasBit(And(e, f.msk), b) <==> HasBit(e, b) && HasBit(f.msk, b)
    {
      AndBit(e, f.msk, b);
    }
  }

  /** The four fields of an event as words, known by their bits. */
  predicate AreFields(v: seq<bv32>, c: Config, e: bv32) {
    && |v| == 4
    && forall k, b :: 0 <= k < 4 && 0 <= b < 32 ==> (HasBit(v[k], b) <==> FieldBit(c.fields[k], e, b))
  }

  lemma FieldsKnownByBits(v: seq<bv32>, c: Config, e: bv32, k: nat)
    requires AreFields(v, c, e) && k < 4
    ensures v[k] == FieldValue(c.fields[k], e)
  {
    hide HasBit, FieldBit, FieldValue;
    forall b | 0 <= b < 32
      ensures HasBit(v[k], b) == HasBit(FieldValue(c.fields[k], e), b)
    {
      FieldBits(c.fields[k], e, b);
    }
    Extensional(v[k], FieldValue(c.fields[k], e));
  }

  /** No filter matches the event, and no field is beyond its limit. */
  predicate Kept(c: Config, e: bv32, v: seq<bv32>)
    requires |v| == 4
  {
    && (forall k :: 0 <= k < 8 ==> !FilterMatches(c.filters[k], e))
    && (forall k :: 0 <= k < 4 ==> !Over(v[k], c.fields[k].lmt))
  }

  /** MAIN RESULT. Which events get through, for every configuration. */
  lemma PassesIff(c: Config, e: bv32, v: seq<bv32>)
    requires AreFields(v, c, e)
    ensures Passes(c, e) <==> Kept(c, e, v)
  {
    hide FilterMatches, FieldValue, And, AreFields, Over;
    assert |v| == 4 by { FourFields(v, c, e); }
    forall k | 0 <= k < 8
      ensures c.filters[k].val == And(e, c.filters[k].msk) <==> FilterMatches(c.filters[k], e)
      ensures c.filters[k] in c.filters
    {
      FilterBits(c.filters[k], e);
    }
    forall k | 0 <= k < 4
      ensures v[k] == FieldValue(c.fields[k], e)
      ensures c.fields[k] in c.fields
    {
      FieldsKnownByBits(v, c, e, k);
    }
  }

  lemma FourFields(v: seq<bv32>, c: Config, e: bv32)
    requires AreFields(v, c, e)
    ensures |v| == 4
  {
  }

  /** The fields of every event are there to be known. */
  lemma FieldsOf(c: Config, e: bv32) returns (v: seq<bv32>)
    ensures AreFields(v, c, e)
  {
    hide HasBit, FieldBit, FieldValue;
    v := seq(4, k requires 0 <= k < 4 => FieldValue(c.fields[k], e));
    forall k, b | 0 <= k < 4 && 0 <= b < 32
      ensures HasBit(v[k], b) <==> FieldBit(c.fields[k], e, b)
    {
      FieldBits(c.fields[k], e, b);
    }
  }

  // ---------------------------------------------------------------------------
  // Round trip
  // ---------------------------------------------------------------------------

  /** The key bits a field can set. */
  function Image(f: Field): bv32 { FieldValue(f, ALL_ONES) }

  /** Undo the shift of a field. */
  function Unshift(f: Field, v: bv32): bv32 {
    if f.sft >= 32 then Shr(v, LeftShift(f.sft)) else Shl(v, f.sft % 32)
  }

  /** Read a field back from a key. */
  function Recover(f: Field, key: bv32): bv32 { Unshift(f, And(key, Image(f))) }

  /** Shifting the mask pushes no bit out of the word. */
  predicate Lossless(f: Field) { Unshift(f, Image(f)) == f.msk }

  /** No fixed bit of the key, and no other field, reaches the key bits of field `k`. */
  predicate Clear(c: Config, k: nat)
    requires k < NUM_MPREGS
  {
    && And(c.key, Image(c.fields[k])) == 0
    && forall j :: 0 <= j < NUM_MPREGS && j != k ==> And(Image(c.fields[j]), Image(c.fields[k])) == 0
  }

  lemma FieldWithinImage(f: Field, e: bv32)
    ensures Within(FieldValue(f, e), Image(f))
  {
    hide And, Shl, Shr;
    var a, n := And(e, f.msk), if f.sft >= 32 then LeftShift(f.sft) else f.sft % 32;
    AndIdentity(f.msk);
    WithinMask(e, f.msk);
    ShlAnd(a, f.msk, n);
    ShrAnd(a, f.msk, n);
  }

  lemma FieldComesBack(f: Field, e: bv32)
    requires Lossless(f)
    ensures Unshift(f, FieldValue(f, e)) == And(e, f.msk)
  {
    hide And, Shl, Shr;
    AndIdentity(f.msk);
    WithinMask(e, f.msk);
    ShiftedBack(And(e, f.msk), f.msk, if f.sft >= 32 then LeftShift(f.sft) else f.sft % 32);
  }

  lemma Apart(x: bv32, y: bv32, img: bv32)
    requires Within(x, y) && And(y, img) == 0
    ensures And(x, img) == 0
  {
  }

  lemma OtherFieldApart(c: Config, e: bv32, j: nat, k: nat)
    requires j < NUM_MPREGS && k < NUM_MPREGS && j != k && Clear(c, k)
    ensures And(FieldValue(c.fields[j], e), Image(c.fields[k])) == 0
  {
    hide And, FieldValue, Image;
    FieldWithinImage(c.fields[j], e);
    Apart(FieldValue(c.fields[j], e), Image(c.fields[j]), Image(c.fields[k]));
  }

  lemma KeyShowsField(c: Config, e: bv32, k: nat)
    requires k < NUM_MPREGS && Clear(c, k)
    ensures And(MappedKey(c, e), Image(c.fields[k])) == FieldValue(c.fields[k], e)
  {
    hide And, Or, FieldValue, Image;
    var img, x := Image(c.fields[k]), FieldValue(c.fields[k], e);
    var v := seq(4, j requires 0 <= j < 4 => FieldValue(c.fields[j], e));
    forall j | 0 <= j < 4
      ensures And(v[j], img) == if j == k then x else 0
    {
      if j == k {
        FieldWithinImage(c.fields[k], e);
      } else {
        OtherFieldApart(c, e, j, k);
      }
    }
    var key1 := Or(c.key, v[0]);
    var key2 := Or(key1, v[1]);
    var key3 := Or(key2, v[2]);
    AndOr(c.key, v[0], img);
    AndOr(key1, v[1], img);
    AndOr(key2, v[2], img);
    AndOr(key3, v[3], img);
    OrZero(0);
    OrZero(x);
  }

  /** MAIN RESULT. When a field loses no bits and neither the fixed key nor another field reaches
      its bits of the key, that field of every event can be read back from the mapped key. */
  lemma FieldRecoverable(c: Config, e: bv32, k: nat)
    requires k < NUM_MPREGS && Clear(c, k) && Lossless(c.fields[k])
    ensures Recover(c.fields[k], MappedKey(c, e)) == And(e, c.fields[k].msk)
  {
    hide And, FieldValue, MappedKey, Image;
    KeyShowsField(c, e, k);
    FieldComesBack(c.fields[k], e);
  }

  /** The distiller register that undoes a field shifted left. */
  function Undo(f: Field): EvtDispatcher.DistillerReg {
    EvtDispatcher.DistillerReg(0, Image(f), LeftShift(f.sft))
  }

  /** MAIN RESULT. An event mapped into SpiNNaker and sent back out: the output distiller,
      set up with the image of a field shifted left, returns that field of the event. */
  lemma DistillerUndoesMapper(c: Config, e: bv32, k: nat)
    requires k < NUM_MPREGS && Clear(c, k) && Lossless(c.fields[k]) && c.fields[k].sft >= 32
    ensures EvtDispatcher.Distill(Undo(c.fields[k]), MappedKey(c, e)) == And(e, c.fields[k].msk)
  {
    hide And, Or, Shr, FieldValue, MappedKey, Image;
    FieldRecoverable(c, e, k);
    OrZero(Recover(c.fields[k], MappedKey(c, e)));
  }
}
