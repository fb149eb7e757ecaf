# SUID in Dafny

A model of SUID ("Simple Unique Identifier", `org.suid.SUID`) and proofs about it.
SUID packs a 64-bit Java `long` identifier from three fields:

| bits   | field      | value                                           |
|--------|------------|-------------------------------------------------|
| 63..32 | timestamp  | `currentTimeMillis >> 10`, low 32 bits          |
| 31..8  | increment  | the generator's counter after `incrementAndGet`, `& 0xFFFFFF` |
| 7..0   | instanceId | the generator's instance id, 0..255             |

A static table holds 256 generators, one per instance id. Each generator has its own
`AtomicLong` counter. `id(i)` looks a generator up with a range check, `id()` returns
generator 0, `get()` issues an identifier, and `parse` takes an identifier apart again.

Files:

- `java_int.dfy` (module `JavaInt`): Java `long` arithmetic on Dafny's unbounded
  integers. It covers two's-complement wrap-around (`Wrap`, `Add`, `Shl`), the
  sign-extending `>>` (`Shr`) and zero-filling `>>>` (`Ushr`), and `&` and `|` defined
  bit by bit (`And`, `Or`). It also proves that `x & (2^k - 1)` is `x mod 2^k`.
- `suid_layout.dfy` (module `SuidLayout`): the packing expression of `get()` (`Pack`)
  and the field extraction of `parse` (`IncOf`, `InstOf`, `ParseTime`, `Parse`). It
  proves round trips, disjointness of the fields, injectivity, ordering, and what the
  time reconstruction recovers.
- `suid.dfy` (module `Suid`): the stateful part. `Generator` is a class with a mutable
  `counter` and the `instanceId`. `Registry` holds the array of 256 generators that the
  static initializer fills. `Issued` lists the identifiers that a run of `get()` calls
  returns. `GetRun` makes such a run of `Get` calls and returns exactly that list.
  Lemmas show that runs never repeat an identifier.
- `wrappers.dfy` (module `Wrappers`): `Option`, which stands in for Java's `null` result.

Java `long` values are `int`s restricted to the 64-bit range (`JavaInt.Long`). Every
operation wraps exactly as the JVM does. That includes the counter's `incrementAndGet`,
so `AtomicLong` overflow is part of the model. The wall clock is a parameter
(`nowMillis`) of every operation that reads it.

Three facts about the code that a reader of the layout comment might not expect:

- The layout is often written with `|`, but the code adds the three summands.
  `PackIsOr` proves that both give the same result.
- The decoded time is meant to be right as long as the identifier is decoded within
  the 2^42-ms window (about 139 years) in which it was issued. The sign-extending `>>`
  on line 66 makes it wrong while bit 41 of the clock is set, that is from 2039-09-07
  to 2109-05-15 (`ParseTimeSignExtends`). See "## Findings".
- Identifiers compare as signed `long`s, and at 2^41 ms the timestamp's top bit becomes
  the sign bit. Every identifier issued from 2^41 ms up to 2^42 ms compares below every
  identifier issued between 0 and 2^41 ms (`OrderTurnsAtSignBit`).

## Model

| member | source | states |
|---|---|---|
| JavaInt.AndLowMask | org/suid/SUID.java:67-68 | Java `x & (2^k - 1)` equals `x mod 2^k` for every `long` x, negative ones too, so the masks keep the low 24 and 8 bits |
| SuidLayout.MaskedFields | org/suid/SUID.java:67-68 | the increment `parse` extracts is `(id div 2^8) mod 2^24` and the instance id is `id mod 2^8`, for any identifier |
| SuidLayout.Parse | org/suid/SUID.java:65-68 | decoding any `long` cannot fail. It yields the increment `(id div 2^8) mod 2^24` and the instance id `id mod 2^8`. The reconstructed time carries the identifier's timestamp field in bits 41..10 and the top 10 increment bits in bits 9..0 |
| SuidLayout.PackValue | org/suid/SUID.java:48-52 | the identifier `get()` builds equals signed-timestamp * 2^32 + (counter mod 2^24) * 2^8 + instanceId, so the summands never carry and the sum never wraps |
| SuidLayout.PackIsOr | org/suid/SUID.java:49-51 | adding the three shifted summands gives the same `long` as or-ing them, because they occupy disjoint bits |
| SuidLayout.FieldsOfLayout | org/suid/SUID.java:67-68 | for any high part, any 24-bit increment and any 8-bit instance id laid out as the layout describes, `parse`'s masks read back exactly that increment and that instance id |
| SuidLayout.IncRoundTrip | org/suid/SUID.java:50-67 | `(id >> 8) & xFFFFFF` applied to a `get()` result gives the incremented counter modulo 2^24 |
| SuidLayout.InstanceRoundTrip | org/suid/SUID.java:51-68 | `id & xFF` applied to a `get()` result gives the generator's instance id |
| SuidLayout.TimestampRoundTrip | org/suid/SUID.java:49 | bits 63..32 of a `get()` result are the low 32 bits of `nowMillis >> 10` |
| SuidLayout.PackFields | org/suid/SUID.java:49-68 | all three fields of a `get()` result read back: timestamp, counter mod 2^24 and instance id |
| SuidLayout.PackInjective | org/suid/SUID.java:49-51 | two `get()` results are equal if and only if their timestamps, their counters mod 2^24 and their instance ids are equal |
| SuidLayout.PackOrder | org/suid/SUID.java:49-51 | `get()` results compare as signed `long`s exactly in the lexicographic order of (signed timestamp, counter mod 2^24, instance id) |
| SuidLayout.OrderTurnsAtSignBit | org/suid/SUID.java:49-51 | every identifier issued from 2^41 ms up to 2^42 ms compares below every identifier issued between 0 and 2^41 ms, whatever the counters and instance ids |
| SuidLayout.ParseTimeFields | org/suid/SUID.java:66 | for any identifier and any clock, bits 41..10 of the reconstructed time hold the identifier's timestamp field and bits 9..0 hold the top 10 bits of its increment field |
| SuidLayout.ParseTimeOfPack | org/suid/SUID.java:66 | within the generation's 2^42-ms window, `parse` computes the generation tick count shifted by (signed timestamp - unsigned timestamp) ticks, plus the top 10 increment bits |
| SuidLayout.ParseTimeSignExtends | org/suid/SUID.java:66 | within the generation's 2^42-ms window, the decoded time falls in the generation's 1024-ms tick if and only if the timestamp's bit 31 is clear, i.e. the clock is below 2^41 ms in its window |
| SuidLayout.ParseTimeCounterexample | org/suid/SUID.java:66 | the first identifier issued by instance 0 at 2^41 ms is decoded, at the same instant, as -2^41 ms; the corrected decoding gives 2^41 ms |
| SuidLayout.IntendedParseTimeOfPack | org/suid/SUID.java:66 | with `>>>` in place of `>>`, within the generation's 2^42-ms window, the decoded time is the generation tick count times 2^10 plus the top 10 increment bits |
| SuidLayout.IntendedParseTimeRecovers | org/suid/SUID.java:66 | with `>>>`, within the generation's 2^42-ms window, the decoded time equals the generation time with its low 10 ms bits replaced by the top 10 increment bits, so it lies in the same 1024-ms tick |
| Suid.Generator.constructor | org/suid/SUID.java:34-35 | a new generator's counter is 0 and its instance id is 0 |
| Suid.Generator.Get | org/suid/SUID.java:48-53 | the counter is pre-incremented by one (wrapping as a `long`) and nothing else changes; the result packs the clock, the new counter value and the instance id |
| Suid.Registry.constructor | org/suid/SUID.java:37-43 | the table has 256 entries; entry i is a new generator with instance id i and counter 0; the entries are pairwise distinct objects |
| Suid.Registry.Lookup | org/suid/SUID.java:55-59 | `id(i)` is absent if and only if i < 0 or i > 255; otherwise it is table entry i, whose instance id is i |
| Suid.Registry.Default | org/suid/SUID.java:61-63 | `id()` is the generator with instance id 0, the same one `id(0)` returns |
| Suid.Registry.Next | org/suid/SUID.java:48-58 | `id(i).get()` issues nothing if and only if i is out of range; otherwise it advances generator i's counter by one and packs the new value with instance id i; every other counter is unchanged and the table keeps the same generators |
| Suid.IssuedElement | org/suid/SUID.java:48-53 | the k-th identifier of a run of `get()` calls packs the k-th clock reading with the starting counter advanced k + 1 times (wrapping as a `long`) |
| Suid.IssuedAt | org/suid/SUID.java:49-51 | the k-th identifier of a run carries increment (counter + k + 1) mod 2^24, the generator's instance id and the k-th clock reading's timestamp |
| Suid.IssuedDistinct | org/suid/SUID.java:85-92 | at most 2^24 successive `get()` calls on one generator return pairwise distinct identifiers, whatever the clock readings |
| Suid.IssuedAcrossInstances | org/suid/SUID.java:85-92 | runs on generators with different instance ids never share an identifier |
| Suid.AdvancedWraps | org/suid/SUID.java:50 | n calls of `incrementAndGet` from counter c leave the counter at c + n, wrapped as a `long` |
| Suid.GetRun | org/suid/SUID.java:88-92 | successive `get()` calls on one generator, one per clock reading, return exactly the run `Issued` describes, so the no-duplicates lemmas apply to them. They leave the counter at its old value + the number of calls, wrapped as a `long` |

## Left out

- String rendering in `parse` (org/suid/SUID.java:29-31, 70-73): date formatting, hex
  printing and concatenation are library formatting. `Parse` returns the three numbers
  they format.
- `main` (org/suid/SUID.java:76-94) is a demo that prints and fills a `HashSet`. Its
  duplicate check is stated by `IssuedDistinct` and `IssuedAcrossInstances`. Its loop
  makes 500,000 calls per instance, which is below the 2^24 bound.
- `System.currentTimeMillis()` (org/suid/SUID.java:49, 66) is a parameter `nowMillis`.
  `parse` reads the clock separately from `get()`, so the parse lemmas take both readings.
- Atomicity of `AtomicLong` under concurrent callers: `incrementAndGet` is one
  sequential update of `counter`. Thread interleavings are not modelled.
- The static `INSTANCES` array is the `instances` field of a `Registry` object, which
  its constructor fills. No method of the model replaces an entry or changes an
  instance id afterwards. Java also enforces this, because `INSTANCES` and `instanceId`
  are private (org/suid/SUID.java:32, 35). Dafny has no private members, so the model
  does not prevent other code from doing so.
- Suid.Registry.Lookup returns `None` where Java returns `null`.
- Suid.Registry.Next returns `None` for an out-of-range i, where Java's `id(i).get()`
  throws a `NullPointerException`.
- SuidLayout.IntendedParseTimeRecovers and SuidLayout.ParseTimeSignExtends assume that
  the identifier is decoded in the same 2^42-ms window (about 139 years) in which it was
  issued. Across windows the reconstruction is off by multiples of 2^42 ms, and the
  model does not state by how much.

## Findings

| source | as written | input that shows it | evidently intended | confidence | as-written member | corrected member |
|---|---|---|---|---|---|---|
| org/suid/SUID.java:66 | `(now >> 42 << 42) + (id >> 22)` sign-extends the identifier. Once the timestamp field has bit 31 set, the identifier is negative and the decoded time lands 2^42 ms too early | the first `get()` on instance 0 at 2199023255552 ms (2^41 ms, 2039-09-07T15:47:35.552Z) gives id -9223372036854775552; `parse` at that same instant yields time -2199023255552 ms, a date in 1900 | `id >>> 22`, which yields 2199023255552 ms | high (not executed) | SuidLayout.ParseTimeCounterexample | SuidLayout.IntendedParseTimeRecovers |

`SuidLayout.ParseTime` and `SuidLayout.Parse` keep the code as written, with `>>`.
`SuidLayout.IntendedParseTime` is the corrected reconstruction, with `>>>`.
`SuidLayout.ParseTimeSignExtends` shows that the two agree exactly while the clock is
below 2^41 ms in its window.
