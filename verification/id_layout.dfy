/**
  The 64-bit Snowflake identifier layout, most significant bit first:
  1 reserved bit (0), 41 bits of milliseconds since a custom epoch,
  10 bits of machine ID and 12 bits of per-millisecond sequence.

  The source works on unbounded integers: a left shift by `k` is a
  multiplication by 2^k, an arithmetic right shift by `k` is floor division
  by 2^k, and `x & (2^k - 1)` is the non-negative remainder of `x` modulo
  2^k, also for negative `x`. Dafny's `/` and `%` by a positive divisor are
  exactly floor division and the non-negative remainder, so the encoding
  below is exact for every integer timestamp, including ones before the
  epoch. The three fields occupy disjoint bits once the machine ID is below
  2^10 and the sequence below 2^12, so the bitwise OR of the shifted fields
  is their sum.
*/
module IdLayout {

  /** Custom epoch: 2025-01-01 00:00:00 UTC, in milliseconds since the Unix epoch. */
  const Epoch: int := 1735689600000

  const TimestampShift: nat := 22
  const MachineIdShift: nat := 12

  const MaxMachineId: int := 1023  // 2^10 - 1
  const MaxSequence: int := 4095   // 2^12 - 1

  /** 2^TimestampShift: the weight of one millisecond in an identifier. */
  const TimestampUnit: int := 4194304
  /** 2^MachineIdShift: the weight of one machine-ID step in an identifier. */
  const MachineIdUnit: int := 4096

  /** 2^41 and 2^63: the capacity of the timestamp field and of a signed 64-bit word. */
  const TimestampCapacity: int := 2199023255552
  const SignedWordCapacity: int := 9223372036854775808

  function Pow2(n: nat): nat {
    if n == 0 then 1 else 2 * Pow2(n - 1)
  }

  /**
    The literal weights above are the powers of two the shifts and masks
    denote: a left shift by `TimestampShift` or `MachineIdShift` multiplies by
    the unit, and each maximum is a mask of ones below the next field.
  */
  lemma ShiftWeights()
    ensures TimestampUnit == Pow2(TimestampShift)
    ensures MachineIdUnit == Pow2(MachineIdShift)
    ensures MaxSequence == Pow2(MachineIdShift) - 1
    ensures MaxMachineId == Pow2(TimestampShift - MachineIdShift) - 1
    ensures TimestampCapacity == Pow2(41)
    ensures SignedWordCapacity == Pow2(63)
  {
    assert Pow2(7) == 128 && Pow2(10) == 1024 && Pow2(12) == MachineIdUnit;
    Pow2Add(12, 10);
    Pow2Add(12, 7);
    assert Pow2(19) == 524288;
    Pow2Add(22, 19);
    assert Pow2(41) == TimestampUnit * 524288 == TimestampCapacity;
    Pow2Add(41, 22);
    assert Pow2(63) == TimestampCapacity * TimestampUnit == SignedWordCapacity;
  }

  lemma {:induction false} Pow2Add(a: nat, b: nat)
    ensures Pow2(a + b) == Pow2(a) * Pow2(b)
    decreases a
  {
    if a > 0 {
      Pow2Add(a - 1, b);
    }
  }

  /** Machine IDs that the generator accepts at construction. */
  type MachineId = m: int | 0 <= m <= MaxMachineId

  predicate InSequenceRange(s: int) {
    0 <= s <= MaxSequence
  }

  /** The fields recovered from an identifier, with the identifier itself. */
  datatype Parsed = Parsed(id: int, timestamp: int, machineId: int, sequence: int)

  /**
    Packs an absolute millisecond timestamp, a machine ID and a sequence
    number into an identifier. The identifier lies in the block of
    `TimestampUnit` consecutive values that belongs to its timestamp, so
    identifiers are ordered by timestamp first.
  */
  function Encode(timestamp: int, machineId: MachineId, sequence: int): (id: int)
    requires InSequenceRange(sequence)
    ensures (timestamp - Epoch) * TimestampUnit <= id < (timestamp - Epoch + 1) * TimestampUnit
  {
    (timestamp - Epoch) * TimestampUnit + machineId * MachineIdUnit + sequence
  }

  /**
    Splits any integer into timestamp, machine ID and sequence. It never
    fails: it is a structural decode, not a validity check.
  */
  function ParseId(id: int): (p: Parsed)
    ensures p.id == id
    ensures 0 <= p.machineId <= MaxMachineId
    ensures InSequenceRange(p.sequence)
  {
    Parsed(id,
           id / TimestampUnit + Epoch,
           (id / MachineIdUnit) % (MaxMachineId + 1),
           id % (MaxSequence + 1))
  }

  /** Floor division and remainder are determined by any decomposition `q * d + r` with `0 <= r < d`. */
  lemma DivModUnique(q: int, r: int, d: int)
    requires 0 < d && 0 <= r < d
    ensures (q * d + r) / d == q
    ensures (q * d + r) % d == r
  {
    var a := q * d + r;
    var q' := a / d;
    var r' := a % d;
    assert a == q' * d + r';
    assert (q - q') * d == r' - r;
    if q' < q {
      assert (q - q') * d >= d by { MulAtLeast(q - q', d); }
    } else if q < q' {
      assert (q' - q) * d >= d by { MulAtLeast(q' - q, d); }
    }
  }

  lemma MulAtLeast(k: int, d: int)
    requires k >= 1 && d > 0
    ensures k * d >= d
  {
  }

  /** Decoding an encoded identifier gives back exactly the fields that were packed. */
  lemma ParseEncode(timestamp: int, machineId: MachineId, sequence: int)
    requires InSequenceRange(sequence)
    ensures ParseId(Encode(timestamp, machineId, sequence))
         == Parsed(Encode(timestamp, machineId, sequence), timestamp, machineId, sequence)
  {
    var off := timestamp - Epoch;
    var id := Encode(timestamp, machineId, sequence);
    DivModUnique(off, machineId * MachineIdUnit + sequence, TimestampUnit);
    assert id == (off * (MaxMachineId + 1) + machineId) * MachineIdUnit + sequence;
    DivModUnique(off * (MaxMachineId + 1) + machineId, sequence, MachineIdUnit);
    DivModUnique(off, machineId, MaxMachineId + 1);
  }

  /** Every integer is the encoding of the fields it decodes to. */
  lemma EncodeParse(id: int)
    ensures var p := ParseId(id); Encode(p.timestamp, p.machineId, p.sequence) == id
  {
    var p := ParseId(id);
    var a := id / MachineIdUnit;
    assert id == a * MachineIdUnit + id % MachineIdUnit;
    assert a == (a / (MaxMachineId + 1)) * (MaxMachineId + 1) + a % (MaxMachineId + 1);
    var tail := p.machineId * MachineIdUnit + p.sequence;
    assert id == (a / (MaxMachineId + 1)) * TimestampUnit + tail;
    DivModUnique(a / (MaxMachineId + 1), tail, TimestampUnit);
  }

  /** Equal identifiers come from equal fields. */
  lemma EncodeInjective(t1: int, m1: MachineId, s1: int, t2: int, m2: MachineId, s2: int)
    requires InSequenceRange(s1) && InSequenceRange(s2)
    requires Encode(t1, m1, s1) == Encode(t2, m2, s2)
    ensures t1 == t2 && m1 == m2 && s1 == s2
  {
    ParseEncode(t1, m1, s1);
    ParseEncode(t2, m2, s2);
  }

  /** Identifiers compare exactly as their (timestamp, machine ID, sequence) triples compare lexicographically. */
  lemma EncodeOrder(t1: int, m1: MachineId, s1: int, t2: int, m2: MachineId, s2: int)
    requires InSequenceRange(s1) && InSequenceRange(s2)
    ensures Encode(t1, m1, s1) < Encode(t2, m2, s2)
        <==> t1 < t2 || (t1 == t2 && (m1 < m2 || (m1 == m2 && s1 < s2)))
  {
    var id1, id2 := Encode(t1, m1, s1), Encode(t2, m2, s2);
    if t1 < t2 {
      assert (t1 - Epoch + 1) * TimestampUnit <= (t2 - Epoch) * TimestampUnit;
    } else if t2 < t1 {
      assert (t2 - Epoch + 1) * TimestampUnit <= (t1 - Epoch) * TimestampUnit;
    }
  }

  /**
    The source never checks the 41-bit limit of the timestamp field; while
    the offset from the epoch fits in it, the identifier is a non-negative
    value below 2^63, so the reserved top bit of a 64-bit word stays 0.
  */
  lemma EncodeFitsSignedWord(timestamp: int, machineId: MachineId, sequence: int)
    requires InSequenceRange(sequence)
    requires 0 <= timestamp - Epoch < TimestampCapacity
    ensures 0 <= Encode(timestamp, machineId, sequence) < SignedWordCapacity
  {
    assert (timestamp - Epoch + 1) * TimestampUnit <= TimestampCapacity * TimestampUnit;
  }

  /** The identifier `1000 << 22` is one second after the epoch, on machine 0 with sequence 0. */
  lemma KnownVector()
    ensures ParseId(1000 * TimestampUnit) == Parsed(1000 * TimestampUnit, 1735689601000, 0, 0)
  {
    ParseEncode(1735689601000, 0, 0);
  }
}
