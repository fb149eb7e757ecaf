/**
 * The 64-bit identifier layout of SUID and its field arithmetic:
 *
 *   bits 63..32  timestamp   (clock in milliseconds >> 10, low 32 bits)
 *   bits 31..8   increment   (the generator's counter & 0xFFFFFF)
 *   bits  7..0   instanceId  (0..255)
 *
 * `Pack` is the expression of `get()`, `IncOf`, `InstOf` and `ParseTime` are the field
 * extraction of `parse`, all in Java `long` arithmetic.
 */
module SuidLayout {
  import opened JavaInt

  /** `xFFFFFF`: the mask that keeps 24 bits of the counter. */
  const INC_MASK: Long := 0xFF_FFFF
  /** `xFF`: the mask that keeps the 8-bit instance id. */
  const INSTANCE_MASK: Long := 0xFF
  /** Number of distinct increment values, 2^24. */
  const INC_SPAN: int := 0x100_0000
  /** Number of distinct instance ids, 2^8. */
  const INSTANCE_SPAN: int := 0x100
  /** Milliseconds in one step of the coarse timestamp, 2^10. */
  const TICK: int := 0x400

  /**
   * The identifier `get()` returns when the clock reads nowMillis, the counter has just
   * been incremented to inc, and the generator's instance id is instanceId.
   */
  function Pack(nowMillis: Long, inc: Long, instanceId: Long): Long
  {
    Add(Add(Shl(Shr(nowMillis, 10), 32), Shl(And(inc, INC_MASK), 8)), instanceId)
  }

  /** The 32-bit coarse timestamp that a clock reading of nowMillis stands for. */
  function Timestamp(nowMillis: Long): (t: nat)
    ensures t < TWO_32
  {
    (nowMillis / TICK) % TWO_32
  }

  /** A 32-bit pattern read as a Java `int`. */
  function SignedTimestamp(t: nat): (s: int)
    requires t < TWO_32
    ensures -TWO_31 <= s < TWO_31 && (t - s) % TWO_32 == 0
  {
    if t < TWO_31 then t else t - TWO_32
  }

  /** Bits 63..32 of an identifier, read as an unsigned 32-bit number. */
  function TimestampField(id: Long): (t: nat)
    ensures t < TWO_32
  {
    Unsigned(id) / TWO_32
  }

  /** `(id >> 8) & xFFFFFF`: the increment field, as `parse` extracts it. */
  function IncOf(id: Long): Long
  {
    And(Shr(id, 8), INC_MASK)
  }

  /** `id & xFF`: the instance id field, as `parse` extracts it. */
  function InstOf(id: Long): Long
  {
    And(id, INSTANCE_MASK)
  }

  /**
   * `(now >> 42 << 42) + (id >> 22)`: the time `parse` reconstructs, from the high bits
   * of its own clock reading nowMillis and the top 42 bits of the identifier.
   */
  function ParseTime(nowMillis: Long, id: Long): Long
  {
    Add(Shl(Shr(nowMillis, 42), 42), Shr(id, 22))
  }

  /** The three values `parse` computes before formatting them. */
  datatype Decoded = Decoded(time: Long, inc: Long, instanceId: Long)

  function Parse(nowMillis: Long, id: Long): (d: Decoded)
    ensures d.time == ParseTime(nowMillis, id)
    ensures Shr(d.time, 10) % TWO_32 == TimestampField(id) && d.time % TICK == d.inc / 0x4000
    ensures d.inc == (id / 0x100) % INC_SPAN && d.instanceId == id % INSTANCE_SPAN
    ensures 0 <= d.inc < INC_SPAN && 0 <= d.instanceId < INSTANCE_SPAN
  {
    MaskedFields(id);
    ParseTimeFields(nowMillis, id);
    Decoded(ParseTime(nowMillis, id), IncOf(id), InstOf(id))
  }

  /** The masked fields are the remainders the masks stand for. */
  lemma MaskedFields(id: Long)
    ensures IncOf(id) == (id / 0x100) % INC_SPAN
    ensures InstOf(id) == id % INSTANCE_SPAN
  {
    Pow2Literals();
    AndLowMask(Shr(id, 8), 24);
    AndLowMask(id, 8);
  }

  /** `get()`'s summands, each as a plain number. */
  lemma PackSummands(nowMillis: Long, inc: Long)
    ensures Shl(Shr(nowMillis, 10), 32) == SignedTimestamp(Timestamp(nowMillis)) * TWO_32
    ensures Shl(And(inc, INC_MASK), 8) == (inc % INC_SPAN) * 0x100
  {
    Pow2Literals();
    AndLowMask(inc, 24);
    var s := nowMillis / TICK;
    var t := Timestamp(nowMillis);
    var q := s / TWO_32;
    assert s == q * TWO_32 + t;
    assert s * TWO_32 == q * TWO_64 + t * TWO_32;
    ModAddMultiple(t * TWO_32 + TWO_63, TWO_64, q);
    if t < TWO_31 {
      DivModUnique(t * TWO_32 + TWO_63, TWO_64, 0, t * TWO_32 + TWO_63);
    } else {
      DivModUnique(t * TWO_32 + TWO_63, TWO_64, 1, t * TWO_32 + TWO_63 - TWO_64);
    }
  }

  /**
   * The identifier `get()` builds is exactly
   * signed-timestamp * 2^32 + (inc mod 2^24) * 2^8 + instanceId: the three summands never
   * carry into each other and the sum never wraps.
   */
  lemma PackValue(nowMillis: Long, inc: Long, instanceId: Long)
    requires 0 <= instanceId < INSTANCE_SPAN
    ensures Pack(nowMillis, inc, instanceId)
         == SignedTimestamp(Timestamp(nowMillis)) * TWO_32 + (inc % INC_SPAN) * 0x100 + instanceId
  {
    PackSummands(nowMillis, inc);
  }

  /**
   * `parse`'s extraction inverts the layout: from hi * 2^32 + inc * 2^8 + instanceId,
   * with inc and instanceId in range, it reads back exactly inc and instanceId.
   */
  lemma FieldsOfLayout(id: Long, hi: int, inc: int, instanceId: int)
    requires 0 <= inc < INC_SPAN && 0 <= instanceId < INSTANCE_SPAN
    requires id == hi * TWO_32 + inc * 0x100 + instanceId
    ensures IncOf(id) == inc && InstOf(id) == instanceId
  {
    MaskedFields(id);
    DivModUnique(id, 0x100, hi * INC_SPAN + inc, instanceId);
    ModAddMultiple(inc, INC_SPAN, hi);
    DivModUnique(inc, INC_SPAN, 0, inc);
    DivModUnique(id, INSTANCE_SPAN, hi * INC_SPAN + inc, instanceId);
  }

  /** Reading the increment back from a `get()` result gives the counter modulo 2^24. */
  lemma IncRoundTrip(nowMillis: Long, inc: Long, instanceId: Long)
    requires 0 <= instanceId < INSTANCE_SPAN
    ensures IncOf(Pack(nowMillis, inc, instanceId)) == inc % INC_SPAN
  {
    PackValue(nowMillis, inc, instanceId);
    FieldsOfLayout(Pack(nowMillis, inc, instanceId), SignedTimestamp(Timestamp(nowMillis)),
                   inc % INC_SPAN, instanceId);
  }

  /** Reading the instance id back from a `get()` result gives the generator's id. */
  lemma InstanceRoundTrip(nowMillis: Long, inc: Long, instanceId: Long)
    requires 0 <= instanceId < INSTANCE_SPAN
    ensures InstOf(Pack(nowMillis, inc, instanceId)) == instanceId
  {
    PackValue(nowMillis, inc, instanceId);
    FieldsOfLayout(Pack(nowMillis, inc, instanceId), SignedTimestamp(Timestamp(nowMillis)),
                   inc % INC_SPAN, instanceId);
  }

  /** Bits 63..32 of a `get()` result are the low 32 bits of `nowMillis >> 10`. */
  lemma TimestampRoundTrip(nowMillis: Long, inc: Long, instanceId: Long)
    requires 0 <= instanceId < INSTANCE_SPAN
    ensures TimestampField(Pack(nowMillis, inc, instanceId)) == Timestamp(nowMillis)
    ensures Timestamp(nowMillis) == Shr(nowMillis, 10) % TWO_32
  {
    Pow2Literals();
    var id := Pack(nowMillis, inc, instanceId);
    var t := Timestamp(nowMillis);
    var low := (inc % INC_SPAN) * 0x100 + instanceId;
    PackValue(nowMillis, inc, instanceId);
    assert Unsigned(id) == t * TWO_32 + low;
    DivModUnique(Unsigned(id), TWO_32, t, low);
  }

  /** All three fields of a `get()` result read back. */
  lemma PackFields(nowMillis: Long, inc: Long, instanceId: Long)
    requires 0 <= instanceId < INSTANCE_SPAN
    ensures IncOf(Pack(nowMillis, inc, instanceId)) == inc % INC_SPAN
    ensures InstOf(Pack(nowMillis, inc, instanceId)) == instanceId
    ensures TimestampField(Pack(nowMillis, inc, instanceId)) == Timestamp(nowMillis)
  {
    IncRoundTrip(nowMillis, inc, instanceId);
    InstanceRoundTrip(nowMillis, inc, instanceId);
    TimestampRoundTrip(nowMillis, inc, instanceId);
  }

  /**
   * The three summands of `get()` occupy disjoint bits, so adding them is the same as
   * or-ing them.
   */
  lemma PackIsOr(nowMillis: Long, inc: Long, instanceId: Long)
    requires 0 <= instanceId < INSTANCE_SPAN
    ensures Pack(nowMillis, inc, instanceId)
         == Or(Or(Shl(Shr(nowMillis, 10), 32), Shl(And(inc, INC_MASK), 8)), instanceId)
  {
    Pow2Literals();
    var t := Timestamp(nowMillis);
    var i := inc % INC_SPAN;
    var hi := Shl(Shr(nowMillis, 10), 32);
    var mid := Shl(And(inc, INC_MASK), 8);
    PackSummands(nowMillis, inc);
    PackValue(nowMillis, inc, instanceId);
    assert Unsigned(hi) == t * TWO_32;
    assert Unsigned(mid) == i * 0x100;
    BitOrDisjoint(t, i * 0x100, 32);
    var upper := Or(hi, mid);
    assert Unsigned(upper) == t * TWO_32 + i * 0x100;
    var upperBits := t * INC_SPAN + i;
    assert Unsigned(upper) == upperBits * 0x100 == upperBits * Pow2(8);
    BitOrDisjoint(upperBits, instanceId, 8);
    assert BitOr(Unsigned(upper), Unsigned(instanceId)) == upperBits * 0x100 + instanceId;
    assert Or(upper, instanceId) == Signed(upperBits * 0x100 + instanceId);
  }

  /**
   * Two `get()` results are equal exactly when their timestamps, their increments modulo
   * 2^24 and their instance ids are.
   */
  lemma PackInjective(n1: Long, c1: Long, i1: Long, n2: Long, c2: Long, i2: Long)
    requires 0 <= i1 < INSTANCE_SPAN && 0 <= i2 < INSTANCE_SPAN
    ensures Pack(n1, c1, i1) == Pack(n2, c2, i2)
        <==> Timestamp(n1) == Timestamp(n2) && c1 % INC_SPAN == c2 % INC_SPAN && i1 == i2
  {
    PackValue(n1, c1, i1);
    PackValue(n2, c2, i2);
    IncRoundTrip(n1, c1, i1);
    IncRoundTrip(n2, c2, i2);
    InstanceRoundTrip(n1, c1, i1);
    InstanceRoundTrip(n2, c2, i2);
    TimestampRoundTrip(n1, c1, i1);
    TimestampRoundTrip(n2, c2, i2);
  }

  /**
   * `get()` results compare as signed `long`s in the lexicographic order of
   * (signed timestamp, increment, instance id).
   */
  lemma PackOrder(n1: Long, c1: Long, i1: Long, n2: Long, c2: Long, i2: Long)
    requires 0 <= i1 < INSTANCE_SPAN && 0 <= i2 < INSTANCE_SPAN
    ensures Pack(n1, c1, i1) < Pack(n2, c2, i2)
        <==> var s1, s2 := SignedTimestamp(Timestamp(n1)), SignedTimestamp(Timestamp(n2));
             var m1, m2 := c1 % INC_SPAN, c2 % INC_SPAN;
             s1 < s2 || (s1 == s2 && (m1 < m2 || (m1 == m2 && i1 < i2)))
  {
    PackValue(n1, c1, i1);
    PackValue(n2, c2, i2);
  }

  /** A clock reading splits into its 2^42-ms window, its timestamp and its milliseconds. */
  lemma ClockSplit(nowMillis: Long)
    ensures Shr(nowMillis, 10) == Shr(nowMillis, 42) * TWO_32 + Timestamp(nowMillis)
    ensures nowMillis == Shr(nowMillis, 10) * TICK + nowMillis % TICK
    ensures Shl(Shr(nowMillis, 42), 42) == Shr(nowMillis, 42) * 0x400_0000_0000
  {
    Pow2Literals();
    DivDiv(nowMillis, TICK, TWO_32);
    var s := nowMillis / TICK;
    assert s == (s / TWO_32) * TWO_32 + s % TWO_32;
  }

  /** Any identifier splits into its signed top 32 bits and its low 32 bits. */
  lemma IdSplit(id: Long)
    ensures id == SignedTimestamp(TimestampField(id)) * TWO_32 + Unsigned(id) % TWO_32
    ensures Shr(id, 22) == SignedTimestamp(TimestampField(id)) * TICK + (Unsigned(id) % TWO_32) / 0x40_0000
    ensures Ushr(id, 22) == TimestampField(id) * TICK + (Unsigned(id) % TWO_32) / 0x40_0000
    ensures IncOf(id) / 0x4000 == (Unsigned(id) % TWO_32) / 0x40_0000
  {
    Pow2Literals();
    var u := Unsigned(id);
    var t := TimestampField(id);
    var low := u % TWO_32;
    var st := SignedTimestamp(t);
    assert u == t * TWO_32 + low;
    assert id == st * TWO_32 + low;
    DivModUnique(id, 0x40_0000, st * TICK + low / 0x40_0000, low % 0x40_0000);
    DivModUnique(u, 0x40_0000, t * TICK + low / 0x40_0000, low % 0x40_0000);
    FieldsOfLayout(id, st, low / 0x100, low % 0x100);
    DivDiv(low, 0x100, 0x4000);
  }

  /** A signed timestamp is congruent to its unsigned pattern. */
  lemma SignedTimestampMod(t: nat, m: int)
    requires t < TWO_32
    ensures (SignedTimestamp(t) + m * TWO_32) % TWO_32 == t
  {
    ModAddMultiple(SignedTimestamp(t), TWO_32, m);
    DivModUnique(SignedTimestamp(t), TWO_32, if t < TWO_31 then 0 else -1, t);
  }

  /**
   * Wrapping q * 2^10 + h to a `long` keeps the low 10 bits h and changes the quotient by
   * a multiple of 2^54 (none at all when the sum is already a `long`).
   */
  lemma WrapTicks(x: int, q: int, h: int)
    requires 0 <= h < TICK && x == q * TICK + h
    ensures Wrap(x) % TICK == h
    ensures (Wrap(x) / TICK - q) % 0x40_0000_0000_0000 == 0
    ensures -TWO_63 <= x < TWO_63 ==> Wrap(x) / TICK == q
  {
    var p := Wrap(x);
    var k := (p - x) / TWO_64;
    assert p == x + k * TWO_64;
    assert p == (q + k * 0x40_0000_0000_0000) * TICK + h;
    DivModUnique(p, TICK, q + k * 0x40_0000_0000_0000, h);
  }

  /**
   * Whatever the identifier and the clock, the time `parse` reconstructs carries the
   * identifier's timestamp in bits 41..10 and the top 10 bits of its increment in bits
   * 9..0: it is accurate only to the 1024-ms timestamp step.
   */
  lemma ParseTimeFields(nowMillis: Long, id: Long)
    ensures Shr(ParseTime(nowMillis, id), 10) % TWO_32 == TimestampField(id)
    ensures ParseTime(nowMillis, id) % TICK == IncOf(id) / 0x4000
  {
    Pow2Literals();
    var a := Shr(nowMillis, 42);
    var t := TimestampField(id);
    var st := SignedTimestamp(t);
    var h := (Unsigned(id) % TWO_32) / 0x40_0000;
    ClockSplit(nowMillis);
    IdSplit(id);
    var q := a * TWO_32 + st;
    var p := ParseTime(nowMillis, id);
    assert p == Wrap(q * TICK + h);
    WrapTicks(q * TICK + h, q, h);
    var m := (p / TICK - q) / 0x40_0000_0000_0000;
    assert p / TICK == st + (a + m * 0x40_0000) * TWO_32;
    SignedTimestampMod(t, a + m * 0x40_0000);
  }

  /**
   * What `parse` was evidently meant to compute: the same reconstruction with the
   * zero-filling `id >>> 22`, so that the timestamp field is read as unsigned.
   */
  function IntendedParseTime(nowMillis: Long, id: Long): Long
  {
    Add(Shl(Shr(nowMillis, 42), 42), Ushr(id, 22))
  }

  /** The low 32 bits of a `get()` result, and their top 10 bits. */
  lemma PackLow(nowGen: Long, inc: Long, instanceId: Long)
    requires 0 <= instanceId < INSTANCE_SPAN
    ensures Unsigned(Pack(nowGen, inc, instanceId)) % TWO_32 == (inc % INC_SPAN) * 0x100 + instanceId
    ensures ((inc % INC_SPAN) * 0x100 + instanceId) / 0x40_0000 == (inc % INC_SPAN) / 0x4000
  {
    var i := inc % INC_SPAN;
    PackValue(nowGen, inc, instanceId);
    TimestampRoundTrip(nowGen, inc, instanceId);
    assert Unsigned(Pack(nowGen, inc, instanceId)) == Timestamp(nowGen) * TWO_32 + i * 0x100 + instanceId;
    DivModUnique(Unsigned(Pack(nowGen, inc, instanceId)), TWO_32, Timestamp(nowGen), i * 0x100 + instanceId);
    DivModUnique(i * 0x100 + instanceId, 0x40_0000, i / 0x4000, (i % 0x4000) * 0x100 + instanceId);
  }

  /** The time the intended `parse` reconstructs for a `get()` result, before it wraps. */
  lemma IntendedParseTimeOfPack(nowGen: Long, inc: Long, instanceId: Long, nowMillis: Long)
    requires 0 <= instanceId < INSTANCE_SPAN
    requires Shr(nowMillis, 42) == Shr(nowGen, 42)
    ensures IntendedParseTime(nowMillis, Pack(nowGen, inc, instanceId))
         == Wrap(Shr(nowGen, 10) * TICK + (inc % INC_SPAN) / 0x4000)
  {
    Pow2Literals();
    var id := Pack(nowGen, inc, instanceId);
    ClockSplit(nowGen);
    IdSplit(id);
    PackLow(nowGen, inc, instanceId);
    TimestampRoundTrip(nowGen, inc, instanceId);
  }

  /** `x >> 10` is x divided by 2^10, rounded down. */
  lemma ShrTick(x: Long)
    ensures Shr(x, 10) == x / TICK
  {
    Pow2Literals();
  }

  /**
   * Putting h in place of the low 10 bits of a `long` n keeps n's tick count, and the sum
   * does not wrap.
   */
  lemma TicksRecover(n: Long, h: int, p: int)
    requires 0 <= h < TICK && p == Wrap((n / TICK) * TICK + h)
    ensures p == n - n % TICK + h && p / TICK == n / TICK
  {
    var g := n / TICK;
    assert n == g * TICK + n % TICK;
    DivModUnique(g * TICK + h, TICK, g, h);
  }

  /**
   * Parsed within the same 2^42-ms window as it was generated, an identifier's
   * reconstructed time is its generation time with the low 10 bits of milliseconds
   * replaced by the top 10 bits of the increment.
   */
  lemma IntendedParseTimeRecovers(nowGen: Long, inc: Long, instanceId: Long, nowMillis: Long)
    requires 0 <= instanceId < INSTANCE_SPAN
    requires Shr(nowMillis, 42) == Shr(nowGen, 42)
    ensures IntendedParseTime(nowMillis, Pack(nowGen, inc, instanceId))
         == nowGen - nowGen % TICK + (inc % INC_SPAN) / 0x4000
    ensures Shr(IntendedParseTime(nowMillis, Pack(nowGen, inc, instanceId)), 10) == Shr(nowGen, 10)
  {
    var p := IntendedParseTime(nowMillis, Pack(nowGen, inc, instanceId));
    IntendedParseTimeOfPack(nowGen, inc, instanceId, nowMillis);
    ShrTick(nowGen);
    ShrTick(p);
    TicksRecover(nowGen, (inc % INC_SPAN) / 0x4000, p);
  }

  /** The time `parse` reconstructs for a `get()` result, before it wraps to a `long`. */
  lemma ParseTimeOfPack(nowGen: Long, inc: Long, instanceId: Long, nowMillis: Long)
    requires 0 <= instanceId < INSTANCE_SPAN
    requires Shr(nowMillis, 42) == Shr(nowGen, 42)
    ensures ParseTime(nowMillis, Pack(nowGen, inc, instanceId))
         == Wrap((Shr(nowGen, 10) + SignedTimestamp(Timestamp(nowGen)) - Timestamp(nowGen)) * TICK
                 + (inc % INC_SPAN) / 0x4000)
  {
    Pow2Literals();
    var id := Pack(nowGen, inc, instanceId);
    ClockSplit(nowGen);
    IdSplit(id);
    PackLow(nowGen, inc, instanceId);
    TimestampRoundTrip(nowGen, inc, instanceId);
  }

  /**
   * Moving a clock's tick count by -2^32 before wrapping it to a `long` always leaves a
   * different tick count: the wrap moves it by multiples of 2^54 only.
   */
  lemma WrapTicksShift(g: int, d: int, h: int)
    requires -0x20_0000_0000_0000 <= g < 0x20_0000_0000_0000
    requires d == 0 || d == -TWO_32
    requires 0 <= h < TICK
    ensures Wrap((g + d) * TICK + h) / TICK == g <==> d == 0
  {
    var p := Wrap((g + d) * TICK + h);
    WrapTicks((g + d) * TICK + h, g + d, h);
    if d != 0 {
      var m := (p / TICK - (g + d)) / 0x40_0000_0000_0000;
      assert p / TICK == g - TWO_32 + m * 0x40_0000_0000_0000;
      if m == 0 {
        assert p / TICK != g;
      } else {
        assert p / TICK > g;
      }
    }
  }

  /**
   * As written, with the sign-extending `id >> 22`, the reconstruction is right only
   * while bit 31 of the timestamp is clear, i.e. for clock readings below 2^41 ms
   * (before 2039-09-07); from then on it lands 2^42 ms too early.
   */
  lemma ParseTimeSignExtends(nowGen: Long, inc: Long, instanceId: Long, nowMillis: Long)
    requires 0 <= instanceId < INSTANCE_SPAN
    requires Shr(nowMillis, 42) == Shr(nowGen, 42)
    ensures Shr(ParseTime(nowMillis, Pack(nowGen, inc, instanceId)), 10) == Shr(nowGen, 10)
        <==> Timestamp(nowGen) < TWO_31
  {
    ParseTimeOfPack(nowGen, inc, instanceId, nowMillis);
    ShrSignShift(nowGen, (inc % INC_SPAN) / 0x4000, ParseTime(nowMillis, Pack(nowGen, inc, instanceId)));
  }

  /** TicksSignShift restated on `>> 10` for the value ParseTimeOfPack gives. */
  lemma ShrSignShift(n: Long, h: int, p: Long)
    requires 0 <= h < TICK
    requires p == Wrap((Shr(n, 10) + SignedTimestamp(Timestamp(n)) - Timestamp(n)) * TICK + h)
    ensures Shr(p, 10) == Shr(n, 10) <==> Timestamp(n) < TWO_31
  {
    ShrTick(n);
    ShrTick(p);
    TicksSignShift(n, Timestamp(n), h, p);
  }

  /**
   * Moving a `long`'s tick count by the difference between a 32-bit pattern's signed
   * and unsigned readings keeps that tick count exactly when the pattern's sign bit is clear.
   */
  lemma TicksSignShift(n: Long, t: nat, h: int, p: int)
    requires t < TWO_32 && 0 <= h < TICK
    requires p == Wrap((n / TICK + SignedTimestamp(t) - t) * TICK + h)
    ensures p / TICK == n / TICK <==> t < TWO_31
  {
    QuotientBelow(n, TICK, -0x20_0000_0000_0000);
    QuotientAbove(n, TICK, 0x20_0000_0000_0000 - 1);
    WrapTicksShift(n / TICK, SignedTimestamp(t) - t, h);
  }

  /**
   * The first identifier issued at 2^41 ms (2039-09-07T15:47:35.552Z) by instance 0 is
   * parsed, on the same day, as -2^41 ms (a date in 1900); the intended reconstruction
   * gives 2^41 ms back.
   */
  lemma ParseTimeCounterexample()
    ensures ParseTime(0x200_0000_0000, Pack(0x200_0000_0000, 1, 0)) == -0x200_0000_0000
    ensures IntendedParseTime(0x200_0000_0000, Pack(0x200_0000_0000, 1, 0)) == 0x200_0000_0000
  {
    Pow2Literals();
    var now: Long := 0x200_0000_0000;
    ClockSplit(now);
    assert Timestamp(now) == TWO_31;
    PackValue(now, 1, 0);
    var id := Pack(now, 1, 0);
    assert id == -TWO_63 + 0x100;
    DivModUnique(id, 0x40_0000, -0x200_0000_0000, 0x100);
    IntendedParseTimeRecovers(now, 1, 0, now);
  }

  /**
   * Identifiers compare as signed `long`s, so the timestamp's sign bit turning on at
   * 2^41 ms makes every identifier issued from 2^41 ms up to 2^42 ms compare below every
   * identifier issued before 2^41 ms, whatever the counters and instance ids.
   */
  lemma OrderTurnsAtSignBit(n1: Long, c1: Long, i1: Long, n2: Long, c2: Long, i2: Long)
    requires 0 <= n1 < 0x200_0000_0000 <= n2 < 0x400_0000_0000
    requires 0 <= i1 < INSTANCE_SPAN && 0 <= i2 < INSTANCE_SPAN
    ensures Pack(n2, c2, i2) < Pack(n1, c1, i1)
  {
    assert TWO_31 <= Timestamp(n2) by {
      QuotientBelow(n2, TICK, TWO_31);
      QuotientAbove(n2, TICK, TWO_32 - 1);
      DivModUnique(n2 / TICK, TWO_32, 0, n2 / TICK);
    }
    assert Timestamp(n1) < TWO_31 by {
      QuotientBelow(n1, TICK, 0);
      QuotientAbove(n1, TICK, TWO_31 - 1);
      DivModUnique(n1 / TICK, TWO_32, 0, n1 / TICK);
    }
    PackOrder(n2, c2, i2, n1, c1, i1);
  }
}
