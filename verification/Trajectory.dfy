/** The trajectory tail: segments encoded in two versions. */
module Trajectory {

  import opened Options
  import opened Bytes
  import opened ListCodec
  import opened AuxTails

  /** Eight opaque bytes of a float. */
  type F64 = s: seq<Byte> | |s| == 8 witness seq(8, _ => 0)

  datatype MeasureEvent = MeasureEvent(gateIndex: U32, qubit: U32, cbit: U32, p0: F64, p1: F64, outcome: Byte,
                                       preMeasureDigest: seq<Byte>)

  datatype MarginalWitness = MarginalWitness(qubit: U32, referenceP0: F64, referenceP1: F64, stateVector: seq<(F64, F64)>,
                                             digest: seq<Byte>)

  datatype ShotTrace = ShotTrace(shotIndex: U64, shotSeed: U64, finalOutcome: seq<Byte>, classicalBits: seq<Byte>,
                                 measures: seq<MeasureEvent>)

  datatype TrajectorySegment = TrajectorySegment(sampleSeed: U64, shots: U64, measurementSpecHash: seq<Byte>,
                                                 trajectoryDigest: seq<Byte>, qubitCount: U32, unitaryLinkDigest: seq<Byte>,
                                                 traces: seq<ShotTrace>, marginalWitnesses: seq<MarginalWitness>)

  datatype Version = V1 | V2

  // ---- Measure events ----

  function MeasureHead(m: MeasureEvent): seq<Byte> {
    Le32(m.gateIndex) + (Le32(m.qubit) + (Le32(m.cbit) + (m.p0 + (m.p1 + [m.outcome]))))
  }

  function EncMeasure(v: Version, m: MeasureEvent): seq<Byte> {
    MeasureHead(m) + (if v.V2? then Cstr(m.preMeasureDigest) else [])
  }

  function DecMeasure(v: Version, s: seq<Byte>, off: nat): Reading<MeasureEvent> {
    var (gateIndex, next) :- ReadU32(s, off);
    var (qubit, next) :- ReadU32(s, next);
    var (cbit, next) :- ReadU32(s, next);
    var (p0, next) :- ReadFixed(s, next, 8);
    var (p1, next) :- ReadFixed(s, next, 8);
    var (outcome, next) :- ReadByte(s, next);
    if v.V1? then Some((MeasureEvent(gateIndex, qubit, cbit, p0, p1, outcome, []), next))
    else
      var (digest, next) :- ReadCstr(s, next);
      Some((MeasureEvent(gateIndex, qubit, cbit, p0, p1, outcome, digest), next))
  }

  predicate OkMeasure(v: Version, m: MeasureEvent) {
    if v.V1? then m.preMeasureDigest == [] else NulFree(m.preMeasureDigest)
  }

  lemma MeasureParts(v: Version, s: seq<Byte>, off: nat, m: MeasureEvent)
    ensures |EncMeasure(v, m)| == 29 + (if v.V2? then |m.preMeasureDigest| + 1 else 0)
    ensures At(s, off, EncMeasure(v, m)) <==>
      && At(s, off, Le32(m.gateIndex)) && At(s, off + 4, Le32(m.qubit)) && At(s, off + 8, Le32(m.cbit))
      && At(s, off + 12, m.p0) && At(s, off + 20, m.p1) && At(s, off + 28, [m.outcome])
      && (v.V2? ==> At(s, off + 29, Cstr(m.preMeasureDigest)))
  {
    hide Le32;
    var r5 := m.p1 + [m.outcome];
    var r4 := m.p0 + r5;
    var r3 := Le32(m.cbit) + r4;
    var r2 := Le32(m.qubit) + r3;
    AtConcat(s, off, MeasureHead(m), if v.V2? then Cstr(m.preMeasureDigest) else []);
    AtConcat(s, off, Le32(m.gateIndex), r2);
    AtConcat(s, off + 4, Le32(m.qubit), r3);
    AtConcat(s, off + 8, Le32(m.cbit), r4);
    AtConcat(s, off + 12, m.p0, r5);
    AtConcat(s, off + 20, m.p1, [m.outcome]);
  }

  lemma MeasureIff(v: Version, s: seq<Byte>, off: nat, m: MeasureEvent, end: nat)
    ensures DecMeasure(v, s, off) == Some((m, end))
            <==> OkMeasure(v, m) && end == off + |EncMeasure(v, m)| && At(s, off, EncMeasure(v, m))
  {
    hide At, Le32, ReadU32, ReadCstr, ReadByte, EncMeasure;
    MeasureParts(v, s, off, m);
    ReadU32Iff(s, off, m.gateIndex, off + 4);
    ReadU32Iff(s, off + 4, m.qubit, off + 8);
    ReadU32Iff(s, off + 8, m.cbit, off + 12);
    assert ReadFixed(s, off + 12, 8) == Some((m.p0, off + 20)) <==> At(s, off + 12, m.p0);
    assert ReadFixed(s, off + 20, 8) == Some((m.p1, off + 28)) <==> At(s, off + 20, m.p1);
    ReadByteIff(s, off + 28, m.outcome, off + 29);
    ReadCstrIff(s, off + 29, m.preMeasureDigest, off + 30 + |m.preMeasureDigest|);
    ByteEnds(s, off + 28);
  }

  lemma ByteEnds(s: seq<Byte>, off: nat)
    ensures ReadByte(s, off).Some? ==> ReadByte(s, off).value.1 == off + 1
  {
  }

  function MeasureEncoder(v: Version): Encoder<MeasureEvent> { (m: MeasureEvent) => EncMeasure(v, m) }

  function MeasureDecoder(v: Version): Decoder<MeasureEvent> { (s, off) => DecMeasure(v, s, off) }

  function MeasureOk(v: Version): MeasureEvent -> bool { (m: MeasureEvent) => OkMeasure(v, m) }

  lemma MeasureFaithful(v: Version)
    ensures Faithful(MeasureEncoder(v), MeasureDecoder(v), MeasureOk(v))
  {
    hide At, EncMeasure, DecMeasure, OkMeasure;
    forall s: seq<Byte>, off: nat, m: MeasureEvent, end: nat
      ensures DecMeasure(v, s, off) == Some((m, end))
              <==> OkMeasure(v, m) && end == off + |EncMeasure(v, m)| && At(s, off, EncMeasure(v, m))
    {
      MeasureIff(v, s, off, m, end);
    }
  }

  function EncMeasures(v: Version, ms: seq<MeasureEvent>): seq<Byte> { EncList(MeasureEncoder(v), ms) }

  function DecMeasures(v: Version, s: seq<Byte>, off: nat): Reading<seq<MeasureEvent>> {
    DecList(MeasureDecoder(v), s, off)
  }

  ghost predicate OkMeasures(v: Version, ms: seq<MeasureEvent>) { ListOk(MeasureOk(v), ms) }

  lemma MeasuresIff(v: Version, s: seq<Byte>, off: nat, ms: seq<MeasureEvent>, end: nat)
    ensures DecMeasures(v, s, off) == Some((ms, end))
            <==> OkMeasures(v, ms) && end == off + |EncMeasures(v, ms)| && At(s, off, EncMeasures(v, ms))
  {
    hide At, EncMeasure, DecMeasure, OkMeasure, Faithful;
    MeasureFaithful(v);
    ListFaithful(MeasureEncoder(v), MeasureDecoder(v), MeasureOk(v), s, off, ms, end);
  }

  // ---- Shots ----

  function EncShot(v: Version, t: ShotTrace): seq<Byte> {
    Le64(t.shotIndex) + (Le64(t.shotSeed) + (Cstr(t.finalOutcome) + (Le32(|t.classicalBits|) + (t.classicalBits
    + EncMeasures(v, t.measures)))))
  }

  function DecShot(v: Version, s: seq<Byte>, off: nat): Reading<ShotTrace> {
    var (shotIndex, next) :- ReadU64(s, off);
    var (shotSeed, next) :- ReadU64(s, next);
    var (finalOutcome, next) :- ReadCstr(s, next);
    var (classicalLen, next) :- ReadU32(s, next);
    var (classicalBits, next) :- ReadFixed(s, next, classicalLen);
    var (measures, next) :- DecMeasures(v, s, next);
    Some((ShotTrace(shotIndex, shotSeed, finalOutcome, classicalBits, measures), next))
  }

  ghost predicate OkShot(v: Version, t: ShotTrace) {
    NulFree(t.finalOutcome) && |t.classicalBits| < 0x1_0000_0000 && OkMeasures(v, t.measures)
  }

  lemma ShotParts(v: Version, s: seq<Byte>, off: nat, t: ShotTrace)
    ensures var o2 := off + 17 + |t.finalOutcome|;
      var o3 := o2 + 4 + |t.classicalBits|;
      && |EncShot(v, t)| == o3 - off + |EncMeasures(v, t.measures)|
      && (At(s, off, EncShot(v, t)) <==>
            && At(s, off, Le64(t.shotIndex)) && At(s, off + 8, Le64(t.shotSeed)) && At(s, off + 16, Cstr(t.finalOutcome))
            && At(s, o2, Le32(|t.classicalBits|)) && At(s, o2 + 4, t.classicalBits) && At(s, o3, EncMeasures(v, t.measures)))
  {
    hide At, Le32, Le64, EncMeasures;
    var r5 := t.classicalBits + EncMeasures(v, t.measures);
    var r4 := Le32(|t.classicalBits|) + r5;
    var r3 := Cstr(t.finalOutcome) + r4;
    var r2 := Le64(t.shotSeed) + r3;
    var o2 := off + 17 + |t.finalOutcome|;
    AtConcat(s, off, Le64(t.shotIndex), r2);
    AtConcat(s, off + 8, Le64(t.shotSeed), r3);
    AtConcat(s, off + 16, Cstr(t.finalOutcome), r4);
    AtConcat(s, o2, Le32(|t.classicalBits|), r5);
    AtConcat(s, o2 + 4, t.classicalBits, EncMeasures(v, t.measures));
  }

  lemma ShotIff(v: Version, s: seq<Byte>, off: nat, t: ShotTrace, end: nat)
    ensures DecShot(v, s, off) == Some((t, end)) <==> OkShot(v, t) && end == off + |EncShot(v, t)| && At(s, off, EncShot(v, t))
  {
    hide At, Le32, Le64, ReadU32, ReadU64, ReadCstr, EncShot, EncMeasures, DecMeasures, OkMeasures;
    var o2 := off + 17 + |t.finalOutcome|;
    var o3 := o2 + 4 + |t.classicalBits|;
    ShotParts(v, s, off, t);
    ReadU64Iff(s, off, t.shotIndex, off + 8);
    ReadU64Iff(s, off + 8, t.shotSeed, off + 16);
    ReadCstrIff(s, off + 16, t.finalOutcome, o2);
    if |t.classicalBits| < 0x1_0000_0000 {
      ReadU32Iff(s, o2, |t.classicalBits|, o2 + 4);
    }
    assert ReadFixed(s, o2 + 4, |t.classicalBits|) == Some((t.classicalBits, o3)) <==> At(s, o2 + 4, t.classicalBits);
    MeasuresIff(v, s, o3, t.measures, end);
    if DecShot(v, s, off) == Some((t, end)) {
      assert ReadU64(s, off).value.1 == off + 8;
      assert ReadU64(s, off + 8).value.1 == off + 16;
      assert ReadCstr(s, off + 16).value.1 == o2;
      assert ReadU32(s, o2).value.1 == o2 + 4;
      var (len, _) := ReadU32(s, o2).value;
      var (bits, next) := ReadFixed(s, o2 + 4, len).value;
      assert bits == t.classicalBits && next == o3;
      assert DecMeasures(v, s, o3).Some?;
      assert DecMeasures(v, s, o3).value.0 == t.measures;
      assert DecMeasures(v, s, o3).value.1 == end;
    }
  }

  function ShotEncoder(v: Version): Encoder<ShotTrace> { (t: ShotTrace) => EncShot(v, t) }

  function ShotDecoder(v: Version): Decoder<ShotTrace> { (s, off) => DecShot(v, s, off) }

  function EncShots(v: Version, ts: seq<ShotTrace>): seq<Byte> { EncList(ShotEncoder(v), ts) }

  function DecShots(v: Version, s: seq<Byte>, off: nat): Reading<seq<ShotTrace>> { DecList(ShotDecoder(v), s, off) }

  ghost predicate OkShots(v: Version, ts: seq<ShotTrace>) { |ts| < 0x1_0000_0000 && forall i :: 0 <= i < |ts| ==> OkShot(v, ts[i]) }

  lemma ShotsIff(v: Version, s: seq<Byte>, off: nat, ts: seq<ShotTrace>, end: nat)
    ensures DecShots(v, s, off) == Some((ts, end))
            <==> OkShots(v, ts) && end == off + |EncShots(v, ts)| && At(s, off, EncShots(v, ts))
  {
    hide At, EncShot, DecShot, OkShot;
    ghost var ok: ShotTrace -> bool := t => OkShot(v, t);
    forall s: seq<Byte>, off: nat, t: ShotTrace, end: nat
      ensures DecShot(v, s, off) == Some((t, end)) <==> OkShot(v, t) && end == off + |EncShot(v, t)| && At(s, off, EncShot(v, t))
    {
      ShotIff(v, s, off, t, end);
    }
    ListFaithful(ShotEncoder(v), ShotDecoder(v), ok, s, off, ts, end);
  }

  // ---- Marginal witnesses ----

  function EncAmplitude(a: (F64, F64)): seq<Byte> { a.0 + a.1 }

  function DecAmplitude(s: seq<Byte>, off: nat): Reading<(F64, F64)> {
    var (re, next) :- ReadFixed(s, off, 8);
    var (im, next) :- ReadFixed(s, next, 8);
    Some(((re, im), next))
  }

  lemma AmplitudeIff(s: seq<Byte>, off: nat, a: (F64, F64), end: nat)
    ensures DecAmplitude(s, off) == Some((a, end)) <==> end == off + |EncAmplitude(a)| && At(s, off, EncAmplitude(a))
  {
    hide At;
    AtConcat(s, off, a.0, a.1);
    assert ReadFixed(s, off, 8) == Some((a.0, off + 8)) <==> At(s, off, a.0);
    assert ReadFixed(s, off + 8, 8) == Some((a.1, off + 16)) <==> At(s, off + 8, a.1);
  }

  function EncStates(sv: seq<(F64, F64)>): seq<Byte> { EncList(EncAmplitude, sv) }

  function DecStates(s: seq<Byte>, off: nat): Reading<seq<(F64, F64)>> { DecList(DecAmplitude, s, off) }

  lemma StatesIff(s: seq<Byte>, off: nat, sv: seq<(F64, F64)>, end: nat)
    ensures DecStates(s, off) == Some((sv, end))
            <==> |sv| < 0x1_0000_0000 && end == off + |EncStates(sv)| && At(s, off, EncStates(sv))
  {
    hide At, EncAmplitude, DecAmplitude;
    forall s: seq<Byte>, off: nat, a: (F64, F64), end: nat
      ensures DecAmplitude(s, off) == Some((a, end)) <==> end == off + |EncAmplitude(a)| && At(s, off, EncAmplitude(a))
    {
      AmplitudeIff(s, off, a, end);
    }
    ListFaithful(EncAmplitude, DecAmplitude, (a: (F64, F64)) => true, s, off, sv, end);
  }

  function EncWitness(w: MarginalWitness): seq<Byte> {
    Le32(w.qubit) + (w.referenceP0 + (w.referenceP1 + (EncStates(w.stateVector) + Cstr(w.digest))))
  }

  function DecWitness(s: seq<Byte>, off: nat): Reading<MarginalWitness> {
    var (qubit, next) :- ReadU32(s, off);
    var (p0, next) :- ReadFixed(s, next, 8);
    var (p1, next) :- ReadFixed(s, next, 8);
    var (sv, next) :- DecStates(s, next);
    var (digest, next) :- ReadCstr(s, next);
    Some((MarginalWitness(qubit, p0, p1, sv, digest), next))
  }

  predicate OkWitness(w: MarginalWitness) { |w.stateVector| < 0x1_0000_0000 && NulFree(w.digest) }

  lemma WitnessIff(s: seq<Byte>, off: nat, w: MarginalWitness, end: nat)
    ensures DecWitness(s, off) == Some((w, end)) <==> OkWitness(w) && end == off + |EncWitness(w)| && At(s, off, EncWitness(w))
  {
    hide At, Le32, ReadU32, ReadCstr, EncStates, DecStates;
    var r4 := EncStates(w.stateVector) + Cstr(w.digest);
    var r3 := w.referenceP1 + r4;
    var r2 := w.referenceP0 + r3;
    var o5 := off + 20 + |EncStates(w.stateVector)|;
    AtConcat(s, off, Le32(w.qubit), r2);
    AtConcat(s, off + 4, w.referenceP0, r3);
    AtConcat(s, off + 12, w.referenceP1, r4);
    AtConcat(s, off + 20, EncStates(w.stateVector), Cstr(w.digest));
    ReadU32Iff(s, off, w.qubit, off + 4);
    assert ReadFixed(s, off + 4, 8) == Some((w.referenceP0, off + 12)) <==> At(s, off + 4, w.referenceP0);
    assert ReadFixed(s, off + 12, 8) == Some((w.referenceP1, off + 20)) <==> At(s, off + 12, w.referenceP1);
    StatesIff(s, off + 20, w.stateVector, o5);
    ReadCstrIff(s, o5, w.digest, end);
    if DecStates(s, off + 20).Some? {
      var (sv, c) := DecStates(s, off + 20).value;
      StatesIff(s, off + 20, sv, c);
    }
  }

  function EncWitnesses(v: Version, ws: seq<MarginalWitness>): seq<Byte> { if v.V1? then [] else EncList(EncWitness, ws) }

  function DecWitnesses(v: Version, s: seq<Byte>, off: nat): Reading<seq<MarginalWitness>> {
    if v.V1? then Some(([], off)) else DecList(DecWitness, s, off)
  }

  ghost predicate OkWitnesses(v: Version, ws: seq<MarginalWitness>) {
    if v.V1? then ws == [] else |ws| < 0x1_0000_0000 && forall i :: 0 <= i < |ws| ==> OkWitness(ws[i])
  }

  lemma WitnessesIff(v: Version, s: seq<Byte>, off: nat, ws: seq<MarginalWitness>, end: nat)
    requires off <= |s|
    ensures DecWitnesses(v, s, off) == Some((ws, end))
            <==> OkWitnesses(v, ws) && end == off + |EncWitnesses(v, ws)| && At(s, off, EncWitnesses(v, ws))
  {
    hide At, EncWitness, DecWitness, OkWitness;
    NothingAt(s, off);
    forall s: seq<Byte>, off: nat, w: MarginalWitness, end: nat
      ensures DecWitness(s, off) == Some((w, end)) <==> OkWitness(w) && end == off + |EncWitness(w)| && At(s, off, EncWitness(w))
    {
      WitnessIff(s, off, w, end);
    }
    ListFaithful(EncWitness, DecWitness, OkWitness, s, off, ws, end);
  }

  // ---- Segments ----

  /** The fields before the lists. */
  function EncHead(v: Version, g: TrajectorySegment): seq<Byte> {
    Le64(g.sampleSeed) + (Le64(g.shots) + (Cstr(g.measurementSpecHash) + (Cstr(g.trajectoryDigest)
    + (if v.V1? then [] else Le32(g.qubitCount) + Cstr(g.unitaryLinkDigest)))))
  }

  function DecHead(v: Version, s: seq<Byte>, off: nat): Reading<TrajectorySegment> {
    var (sampleSeed, next) :- ReadU64(s, off);
    var (shots, next) :- ReadU64(s, next);
    var (spec, next) :- ReadCstr(s, next);
    var (digest, next) :- ReadCstr(s, next);
    if v.V1? then Some((TrajectorySegment(sampleSeed, shots, spec, digest, 0, [], [], []), next))
    else
      var (qubitCount, next) :- ReadU32(s, next);
      var (link, next) :- ReadCstr(s, next);
      Some((TrajectorySegment(sampleSeed, shots, spec, digest, qubitCount, link, [], []), next))
  }

  predicate OkHead(v: Version, g: TrajectorySegment) {
    && NulFree(g.measurementSpecHash) && NulFree(g.trajectoryDigest)
    && (if v.V1? then g.qubitCount == 0 && g.unitaryLinkDigest == [] else NulFree(g.unitaryLinkDigest))
  }

  function NoLists(g: TrajectorySegment): TrajectorySegment { g.(traces := [], marginalWitnesses := []) }

  lemma HeadParts(v: Version, s: seq<Byte>, off: nat, g: TrajectorySegment)
    ensures var o3 := off + 17 + |g.measurementSpecHash|;
      var o4 := o3 + 1 + |g.trajectoryDigest|;
      && |EncHead(v, g)| == o4 - off + (if v.V1? then 0 else 5 + |g.unitaryLinkDigest|)
      && (At(s, off, EncHead(v, g)) <==>
            && At(s, off, Le64(g.sampleSeed)) && At(s, off + 8, Le64(g.shots)) && At(s, off + 16, Cstr(g.measurementSpecHash))
            && At(s, o3, Cstr(g.trajectoryDigest))
            && (v.V2? ==> At(s, o4, Le32(g.qubitCount)) && At(s, o4 + 4, Cstr(g.unitaryLinkDigest))))
  {
    hide Le32, Le64, At;
    var r5 := if v.V1? then [] else Le32(g.qubitCount) + Cstr(g.unitaryLinkDigest);
    var r4 := Cstr(g.trajectoryDigest) + r5;
    var r3 := Cstr(g.measurementSpecHash) + r4;
    var r2 := Le64(g.shots) + r3;
    var o3 := off + 17 + |g.measurementSpecHash|;
    var o4 := o3 + 1 + |g.trajectoryDigest|;
    AtConcat(s, off, Le64(g.sampleSeed), r2);
    AtConcat(s, off + 8, Le64(g.shots), r3);
    AtConcat(s, off + 16, Cstr(g.measurementSpecHash), r4);
    AtConcat(s, o3, Cstr(g.trajectoryDigest), r5);
    AtConcat(s, o4, Le32(g.qubitCount), Cstr(g.unitaryLinkDigest));
    if At(s, o3, Cstr(g.trajectoryDigest)) {
      AtInside(s, o3, Cstr(g.trajectoryDigest));
      NothingAt(s, o4);
    }
  }

  lemma HeadIff(v: Version, s: seq<Byte>, off: nat, g: TrajectorySegment, end: nat)
    ensures DecHead(v, s, off) == Some((NoLists(g), end))
            <==> OkHead(v, g) && end == off + |EncHead(v, g)| && At(s, off, EncHead(v, g))
  {
    hide At, Le32, Le64, ReadU32, ReadU64, ReadCstr, EncHead;
    var o3 := off + 17 + |g.measurementSpecHash|;
    var o4 := o3 + 1 + |g.trajectoryDigest|;
    HeadParts(v, s, off, g);
    ReadU64Iff(s, off, g.sampleSeed, off + 8);
    ReadU64Iff(s, off + 8, g.shots, off + 16);
    ReadCstrIff(s, off + 16, g.measurementSpecHash, o3);
    ReadCstrIff(s, o3, g.trajectoryDigest, o4);
    ReadU32Iff(s, o4, g.qubitCount, o4 + 4);
    ReadCstrIff(s, o4 + 4, g.unitaryLinkDigest, o4 + 5 + |g.unitaryLinkDigest|);
  }

  function EncSegment(v: Version, g: TrajectorySegment): seq<Byte> {
    EncHead(v, g) + (EncShots(v, g.traces) + EncWitnesses(v, g.marginalWitnesses))
  }

  function DecSegment(v: Version, payload: seq<Byte>, off: nat): Reading<TrajectorySegment> {
    var (head, cursor) :- DecHead(v, payload, off);
    var (traces, cursor) :- DecShots(v, payload, cursor);
    var (witnesses, cursor) :- DecWitnesses(v, payload, cursor);
    Some((head.(traces := traces, marginalWitnesses := witnesses), cursor))
  }

  /** What an encoding can carry: strings without zero bytes, u32-sized lists and, in
      version 1, defaults for the fields of version 2. */
  ghost predicate OkSegment(v: Version, g: TrajectorySegment) {
    OkHead(v, g) && OkShots(v, g.traces) && OkWitnesses(v, g.marginalWitnesses)
  }

  /** Decoding gives g exactly where the encoding of an encodable g stands. */
  lemma SegmentIff(v: Version, s: seq<Byte>, off: nat, g: TrajectorySegment, end: nat)
    ensures DecSegment(v, s, off) == Some((g, end))
            <==> OkSegment(v, g) && end == off + |EncSegment(v, g)| && At(s, off, EncSegment(v, g))
  {
    hide At, EncHead, DecHead, EncShots, DecShots, EncWitnesses, DecWitnesses, OkHead, OkShots, OkWitnesses;
    var o1 := off + |EncHead(v, g)|;
    var o2 := o1 + |EncShots(v, g.traces)|;
    AtConcat(s, off, EncHead(v, g), EncShots(v, g.traces) + EncWitnesses(v, g.marginalWitnesses));
    AtConcat(s, o1, EncShots(v, g.traces), EncWitnesses(v, g.marginalWitnesses));
    HeadIff(v, s, off, g, o1);
    ShotsIff(v, s, o1, g.traces, o2);
    if o2 <= |s| {
      WitnessesIff(v, s, o2, g.marginalWitnesses, end);
    }
    if At(s, o1, EncShots(v, g.traces)) {
      AtInside(s, o1, EncShots(v, g.traces));
    }
    if DecSegment(v, s, off) == Some((g, end)) {
      var (head, c1) := DecHead(v, s, off).value;
      assert head == NoLists(head) by { HeadHasNoLists(v, s, off); }
      assert head == NoLists(g);
      HeadIff(v, s, off, g, c1);
      var (ts, c2) := DecShots(v, s, c1).value;
      ShotsIff(v, s, c1, ts, c2);
      AtInside(s, c1, EncShots(v, ts));
      assert ts == g.traces && c2 == o2;
      var (ws, c3) := DecWitnesses(v, s, c2).value;
      assert ws == g.marginalWitnesses && c3 == end;
    }
  }

  lemma AtInside(s: seq<Byte>, off: nat, x: seq<Byte>)
    requires At(s, off, x)
    ensures off + |x| <= |s|
  {
  }

  lemma HeadHasNoLists(v: Version, s: seq<Byte>, off: nat)
    requires DecHead(v, s, off).Some?
    ensures DecHead(v, s, off).value.0.traces == [] && DecHead(v, s, off).value.0.marginalWitnesses == []
  {
    hide ReadU32, ReadU64, ReadCstr;
  }

  // ---- Round trips ----

  /** Decoding an encoding gives the segment back exactly when the version can carry it. */
  lemma DecodeEncoded(v: Version, g: TrajectorySegment)
    ensures DecSegment(v, EncSegment(v, g), 0) == Some((g, |EncSegment(v, g)|)) <==> OkSegment(v, g)
  {
    hide EncSegment, DecSegment, OkSegment;
    SegmentIff(v, EncSegment(v, g), 0, g, |EncSegment(v, g)|);
  }

  /** A payload that decodes to its end is the encoding of what it decodes to. */
  lemma EncodeDecoded(v: Version, payload: seq<Byte>, g: TrajectorySegment)
    requires DecSegment(v, payload, 0) == Some((g, |payload|))
    ensures OkSegment(v, g) && EncSegment(v, g) == payload
  {
    hide EncSegment, DecSegment, OkSegment;
    SegmentIff(v, payload, 0, g, |payload|);
  }

  /** What version 1 keeps of a segment. */
  function V1View(g: TrajectorySegment): TrajectorySegment {
    g.(qubitCount := 0, unitaryLinkDigest := [], marginalWitnesses := [],
       traces := seq(|g.traces|, i requires 0 <= i < |g.traces| => ShotV1View(g.traces[i])))
  }

  function ShotV1View(t: ShotTrace): ShotTrace {
    t.(measures := seq(|t.measures|, i requires 0 <= i < |t.measures| => t.measures[i].(preMeasureDigest := [])))
  }

  lemma {:induction false} EncAllAgree<T>(enc: Encoder<T>, xs: seq<T>, ys: seq<T>)
    requires |xs| == |ys| && forall i :: 0 <= i < |xs| ==> enc(xs[i]) == enc(ys[i])
    ensures EncAll(enc, xs) == EncAll(enc, ys)
  {
    if xs != [] {
      EncAllAgree(enc, xs[..|xs| - 1], ys[..|xs| - 1]);
    }
  }

  lemma ShotV1Same(t: ShotTrace)
    ensures EncShot(V1, ShotV1View(t)) == EncShot(V1, t)
    ensures NulFree(t.finalOutcome) && |t.classicalBits| < 0x1_0000_0000 && |t.measures| < 0x1_0000_0000 ==> OkShot(V1, ShotV1View(t))
  {
    hide Le32, Le64, EncAll;
    EncAllAgree(MeasureEncoder(V1), ShotV1View(t).measures, t.measures);
  }

  /** Version 1 silently drops the other fields: it round-trips to the view. */
  lemma V1KeepsView(g: TrajectorySegment)
    requires NulFree(g.measurementSpecHash) && NulFree(g.trajectoryDigest) && |g.traces| < 0x1_0000_0000
    requires forall t :: t in g.traces ==> NulFree(t.finalOutcome) && |t.classicalBits| < 0x1_0000_0000 && |t.measures| < 0x1_0000_0000
    ensures DecSegment(V1, EncSegment(V1, g), 0) == Some((V1View(g), |EncSegment(V1, g)|))
  {
    hide DecSegment, EncAll, Le32, Le64, EncShot, OkShot, ShotV1View;
    forall i | 0 <= i < |g.traces|
      ensures OkShot(V1, V1View(g).traces[i]) && EncShot(V1, V1View(g).traces[i]) == EncShot(V1, g.traces[i])
    {
      ShotV1Same(g.traces[i]);
    }
    EncAllAgree(ShotEncoder(V1), V1View(g).traces, g.traces);
    assert EncSegment(V1, V1View(g)) == EncSegment(V1, g);
    DecodeEncoded(V1, V1View(g));
  }

  // ---- The loops of the encoder ----

  lemma EncAllSnoc<T>(enc: Encoder<T>, xs: seq<T>, i: nat)
    requires i < |xs|
    ensures EncAll(enc, xs[..i + 1]) == EncAll(enc, xs[..i]) + enc(xs[i])
  {
    assert xs[..i + 1][..i] == xs[..i];
  }

  method AppendMeasures(v: Version, out0: seq<Byte>, ms: seq<MeasureEvent>) returns (out: seq<Byte>)
    ensures out == out0 + EncMeasures(v, ms)
  {
    hide Le32, EncAll;
    out := out0 + Le32(|ms|);
    NothingEncoded(MeasureEncoder(v), ms);
    for i := 0 to |ms|
      invariant out == out0 + Le32(|ms|) + EncAll(MeasureEncoder(v), ms[..i])
    {
      ghost var before := out;
      var m := ms[i];
      out := out + Le32(m.gateIndex);
      out := out + Le32(m.qubit);
      out := out + Le32(m.cbit);
      out := out + m.p0;
      out := out + m.p1;
      out := out + [m.outcome];
      if v.V2? {
        out := out + m.preMeasureDigest + [0];
      }
      assert out == before + EncMeasure(v, m);
      EncAllSnoc(MeasureEncoder(v), ms, i);
    }
    assert ms[..|ms|] == ms;
  }

  lemma NothingEncoded<T>(enc: Encoder<T>, xs: seq<T>)
    ensures EncAll(enc, xs[..0]) == []
  {
  }

  method AppendShots(v: Version, out0: seq<Byte>, ts: seq<ShotTrace>) returns (out: seq<Byte>)
    ensures out == out0 + EncShots(v, ts)
  {
    hide Le32, Le64, EncAll, EncMeasures;
    out := out0 + Le32(|ts|);
    NothingEncoded(ShotEncoder(v), ts);
    for i := 0 to |ts|
      invariant out == out0 + Le32(|ts|) + EncAll(ShotEncoder(v), ts[..i])
    {
      ghost var before := out;
      var t := ts[i];
      out := out + Le64(t.shotIndex);
      out := out + Le64(t.shotSeed);
      out := out + t.finalOutcome + [0];
      out := out + Le32(|t.classicalBits|);
      out := out + t.classicalBits;
      out := AppendMeasures(v, out, t.measures);
      assert out == before + EncShot(v, t);
      EncAllSnoc(ShotEncoder(v), ts, i);
    }
    assert ts[..|ts|] == ts;
  }

  method AppendWitnesses(out0: seq<Byte>, ws: seq<MarginalWitness>) returns (out: seq<Byte>)
    ensures out == out0 + EncWitnesses(V2, ws)
  {
    hide Le32, EncAll;
    out := out0 + Le32(|ws|);
    NothingEncoded(EncWitness, ws);
    for i := 0 to |ws|
      invariant out == out0 + Le32(|ws|) + EncAll(EncWitness, ws[..i])
    {
      ghost var before := out;
      var w := ws[i];
      out := out + Le32(w.qubit);
      out := out + w.referenceP0;
      out := out + w.referenceP1;
      out := out + Le32(|w.stateVector|);
      ghost var mid := out;
      NothingEncoded(EncAmplitude, w.stateVector);
      for j := 0 to |w.stateVector|
        invariant out == mid + EncAll(EncAmplitude, w.stateVector[..j])
      {
        out := out + w.stateVector[j].0;
        out := out + w.stateVector[j].1;
        EncAllSnoc(EncAmplitude, w.stateVector, j);
      }
      assert w.stateVector[..|w.stateVector|] == w.stateVector;
      out := out + w.digest + [0];
      assert out == before + EncWitness(w);
      EncAllSnoc(EncWitness, ws, i);
    }
    assert ws[..|ws|] == ws;
  }

  method EncodeTrajectorySegment(v: Version, g: TrajectorySegment) returns (out: seq<Byte>)
    ensures out == EncSegment(v, g)
  {
    hide Le32, Le64, EncShots, EncWitnesses;
    out := Le64(g.sampleSeed);
    out := out + Le64(g.shots);
    out := out + g.measurementSpecHash + [0];
    out := out + g.trajectoryDigest + [0];
    if v.V2? {
      out := out + Le32(g.qubitCount);
      out := out + g.unitaryLinkDigest + [0];
    }
    assert out == EncHead(v, g);
    out := AppendShots(v, out, g.traces);
    if v.V2? {
      out := AppendWitnesses(out, g.marginalWitnesses);
    } else {
      NoWitnesses(g.marginalWitnesses);
    }
    assert out == EncSegment(v, g);
  }

  lemma NoWitnesses(ws: seq<MarginalWitness>)
    ensures EncWitnesses(V1, ws) == []
  {
  }

  // ---- The loops of the decoder ----

  method DecodeMeasures(v: Version, payload: seq<Byte>, off: nat) returns (r: Reading<seq<MeasureEvent>>)
    ensures r == DecMeasures(v, payload, off)
  {
    hide DecMeasure, ReadU32;
    var count := ReadU32(payload, off);
    if count.None? {
      return None;
    }
    var (n, cursor) := count.value;
    var measures := [];
    ghost var start := cursor;
    for i := 0 to n
      invariant DecAll(MeasureDecoder(v), payload, start, i) == Some((measures, cursor))
    {
      var m := DecMeasure(v, payload, cursor);
      if m.None? {
        DecAllFails(MeasureDecoder(v), payload, start, i + 1, n);
        return None;
      }
      measures, cursor := measures + [m.value.0], m.value.1;
    }
    return Some((measures, cursor));
  }

  method DecodeShots(v: Version, payload: seq<Byte>, off: nat) returns (r: Reading<seq<ShotTrace>>)
    ensures r == DecShots(v, payload, off)
  {
    hide DecMeasures, ReadU32, ReadU64, ReadCstr;
    var count := ReadU32(payload, off);
    if count.None? {
      return None;
    }
    var (n, cursor) := count.value;
    var traces := [];
    ghost var start := cursor;
    for i := 0 to n
      invariant DecAll(ShotDecoder(v), payload, start, i) == Some((traces, cursor))
    {
      var t := DecodeShot(v, payload, cursor);
      if t.None? {
        DecAllFails(ShotDecoder(v), payload, start, i + 1, n);
        return None;
      }
      traces, cursor := traces + [t.value.0], t.value.1;
    }
    return Some((traces, cursor));
  }

  method DecodeShot(v: Version, payload: seq<Byte>, off: nat) returns (r: Reading<ShotTrace>)
    ensures r == DecShot(v, payload, off)
  {
    hide DecMeasures, ReadU32, ReadU64, ReadCstr;
    var shotIndex := ReadU64(payload, off);
    if shotIndex.None? { return None; }
    var shotSeed := ReadU64(payload, shotIndex.value.1);
    if shotSeed.None? { return None; }
    var finalOutcome := ReadCstr(payload, shotSeed.value.1);
    if finalOutcome.None? { return None; }
    var classicalLen := ReadU32(payload, finalOutcome.value.1);
    if classicalLen.None? { return None; }
    var classicalBits := ReadFixed(payload, classicalLen.value.1, classicalLen.value.0);
    if classicalBits.None? { return None; }
    var measures := DecodeMeasures(v, payload, classicalBits.value.1);
    if measures.None? { return None; }
    return Some((ShotTrace(shotIndex.value.0, shotSeed.value.0, finalOutcome.value.0, classicalBits.value.0, measures.value.0),
                 measures.value.1));
  }

  method DecodeWitness(payload: seq<Byte>, off: nat) returns (r: Reading<MarginalWitness>)
    ensures r == DecWitness(payload, off)
  {
    hide DecAmplitude, ReadU32, ReadCstr;
    var qubit := ReadU32(payload, off);
    if qubit.None? { return None; }
    var p0 := ReadFixed(payload, qubit.value.1, 8);
    if p0.None? { return None; }
    var p1 := ReadFixed(payload, p0.value.1, 8);
    if p1.None? { return None; }
    var svLen := ReadU32(payload, p1.value.1);
    if svLen.None? { return None; }
    var (n, cursor) := svLen.value;
    var stateVector := [];
    ghost var start := cursor;
    for i := 0 to n
      invariant DecAll(DecAmplitude, payload, start, i) == Some((stateVector, cursor))
    {
      var a := DecAmplitude(payload, cursor);
      if a.None? {
        DecAllFails(DecAmplitude, payload, start, i + 1, n);
        return None;
      }
      stateVector, cursor := stateVector + [a.value.0], a.value.1;
    }
    var digest := ReadCstr(payload, cursor);
    if digest.None? { return None; }
    return Some((MarginalWitness(qubit.value.0, p0.value.0, p1.value.0, stateVector, digest.value.0), digest.value.1));
  }

  method DecodeWitnesses(payload: seq<Byte>, off: nat) returns (r: Reading<seq<MarginalWitness>>)
    ensures r == DecWitnesses(V2, payload, off)
  {
    hide DecWitness, ReadU32;
    var count := ReadU32(payload, off);
    if count.None? {
      return None;
    }
    var (n, cursor) := count.value;
    var witnesses := [];
    ghost var start := cursor;
    for i := 0 to n
      invariant DecAll(DecWitness, payload, start, i) == Some((witnesses, cursor))
    {
      var w := DecodeWitness(payload, cursor);
      if w.None? {
        DecAllFails(DecWitness, payload, start, i + 1, n);
        return None;
      }
      witnesses, cursor := witnesses + [w.value.0], w.value.1;
    }
    return Some((witnesses, cursor));
  }

  method DecodeTrajectorySegment(v: Version, payload: seq<Byte>, off: nat) returns (r: Reading<TrajectorySegment>)
    ensures r == DecSegment(v, payload, off)
  {
    hide DecHead, DecShots;
    var head := DecHead(v, payload, off);
    if head.None? {
      return None;
    }
    var traces := DecodeShots(v, payload, head.value.1);
    if traces.None? {
      return None;
    }
    var witnesses: Reading<seq<MarginalWitness>> := Some(([], traces.value.1));
    if v.V2? {
      witnesses := DecodeWitnesses(payload, traces.value.1);
      if witnesses.None? {
        return None;
      }
    }
    return Some((head.value.0.(traces := traces.value.0, marginalWitnesses := witnesses.value.0), witnesses.value.1));
  }

  // ---- The tail on a proof ----

  function MarkerOf(v: Version): seq<Byte> { if v.V1? then TRAJ_V1_MARKER else TRAJ_V2_MARKER }

  /** Version 1 when there is neither a witness nor a link. */
  function TailVersion(g: TrajectorySegment): Version {
    if g.marginalWitnesses == [] && g.unitaryLinkDigest == [] then V1 else V2
  }

  function WithTail(proof: seq<Byte>, v: Version, payload: seq<Byte>): seq<Byte> {
    proof + (MarkerOf(v) + (Le32(|payload|) + payload))
  }

  /** The tail the writer appends. */
  function Appended(proof: seq<Byte>, g: TrajectorySegment): seq<Byte> {
    WithTail(proof, TailVersion(g), EncSegment(TailVersion(g), g))
  }

  method AppendTrajectoryTail(proof: seq<Byte>, g: TrajectorySegment) returns (out: seq<Byte>)
    ensures out == Appended(proof, g)
  {
    hide Le32, EncSegment;
    var v := TailVersion(g);
    var payload := EncodeTrajectorySegment(v, g);
    out := proof;
    out := out + MarkerOf(v);
    out := out + Le32(|payload|);
    out := out + payload;
    assert out == WithTail(proof, v, payload);
  }

  /** The later of the two last markers; version 1 wins a tie. */
  function FindTailMarker(proof: seq<Byte>): Option<(nat, Version)> {
    match (RPosition(proof, TRAJ_V2_MARKER), RPosition(proof, TRAJ_V1_MARKER))
    case (Some(p), Some(q)) => if p > q then Some((p, V2)) else Some((q, V1))
    case (Some(p), None) => Some((p, V2))
    case (None, Some(q)) => Some((q, V1))
    case (None, None) => None
  }

  /** What stands before the tail, its payload and its version. */
  function SplitTrajectoryTail(proof: seq<Byte>): Option<(seq<Byte>, seq<Byte>, Version)> {
    var (pos, v) :- FindTailMarker(proof);
    var (len, cursor) :- ReadU32(proof, pos + |MarkerOf(v)|);
    var (payload, _) :- ReadFixed(proof, cursor, len);
    if pos <= |proof| then Some((proof[..pos], payload, v)) else None
  }

  /** No trajectory marker starts behind the first byte of the tail. */
  predicate TailClean(v: Version, payload: seq<Byte>) {
    && |payload| < 0x1_0000_0000
    && var behind := MarkerOf(v)[1..] + (Le32(|payload|) + payload);
       !Occurs(behind, TRAJ_V1_MARKER) && !Occurs(behind, TRAJ_V2_MARKER)
  }

  lemma TwoMarkers()
    ensures |TRAJ_V1_MARKER| == 13 == |TRAJ_V2_MARKER| && TRAJ_V1_MARKER[11] != TRAJ_V2_MARKER[11]
  {
  }

  /** A marker found behind the start of the tail lies in what is behind its first byte. */
  lemma FoundBehind(proof: seq<Byte>, v: Version, payload: seq<Byte>, m: seq<Byte>)
    requires m == TRAJ_V1_MARKER || m == TRAJ_V2_MARKER
    requires !Occurs(MarkerOf(v)[1..] + (Le32(|payload|) + payload), m)
    ensures forall j: nat :: j > |proof| ==> !At(WithTail(proof, v, payload), j, m)
  {
    TwoMarkers();
    hide Ascii, Le32, FindFrom;
    var s := WithTail(proof, v, payload);
    var behind := MarkerOf(v)[1..] + (Le32(|payload|) + payload);
    assert s[|proof| + 1..] == behind;
    forall j: nat | j > |proof|
      ensures !At(s, j, m)
    {
      var k: nat := j - |proof| - 1;
      assert !At(behind, k, m);
      if j + 13 <= |s| {
        assert behind[k..k + 13] == s[j..j + 13];
      }
    }
  }

  /** And what is behind the first byte of the tail is behind the start of the tail. */
  lemma MarkerBehind(proof: seq<Byte>, v: Version, payload: seq<Byte>, m: seq<Byte>)
    requires m == TRAJ_V1_MARKER || m == TRAJ_V2_MARKER
    requires Occurs(MarkerOf(v)[1..] + (Le32(|payload|) + payload), m)
    ensures exists j: nat :: j > |proof| && At(WithTail(proof, v, payload), j, m)
  {
    TwoMarkers();
    hide Ascii, Le32, FindFrom;
    var s := WithTail(proof, v, payload);
    var behind := MarkerOf(v)[1..] + (Le32(|payload|) + payload);
    assert s[|proof| + 1..] == behind;
    var k := Position(behind, m).value;
    assert behind[k..k + 13] == s[|proof| + 1 + k..|proof| + 1 + k + 13];
    assert At(s, |proof| + 1 + k, m);
  }

  /** A tail splits off again exactly when it is clean; its payload decodes to the segment
      exactly when the chosen version can carry it. */
  lemma AppendedTailDecodes(proof: seq<Byte>, g: TrajectorySegment)
    ensures var v := TailVersion(g); var payload := EncSegment(v, g);
      && (SplitTrajectoryTail(WithTail(proof, v, payload)) == Some((proof, payload, v)) <==> TailClean(v, payload))
      && (DecSegment(v, payload, 0) == Some((g, |payload|)) <==> OkSegment(v, g))
  {
    hide EncSegment, DecSegment, OkSegment, TailClean, SplitTrajectoryTail, WithTail;
    var v := TailVersion(g);
    DecodeEncoded(v, g);
    if TailClean(v, EncSegment(v, g)) {
      CleanTailSplits(proof, v, EncSegment(v, g));
    } else {
      UncleanTailDoesNot(proof, v, EncSegment(v, g));
    }
  }

  /** What only version 2 carries is default. */
  ghost predicate PlainSegment(g: TrajectorySegment) {
    && g.qubitCount == 0 && g.unitaryLinkDigest == [] && g.marginalWitnesses == []
    && forall i, j :: 0 <= i < |g.traces| && 0 <= j < |g.traces[i].measures| ==> g.traces[i].measures[j].preMeasureDigest == []
  }

  lemma PlainShots(ts: seq<ShotTrace>)
    ensures OkShots(V1, ts) <==>
      && OkShots(V2, ts)
      && forall i, j :: 0 <= i < |ts| && 0 <= j < |ts[i].measures| ==> ts[i].measures[j].preMeasureDigest == []
  {
    forall i | 0 <= i < |ts|
      ensures OkShot(V1, ts[i]) <==>
        OkShot(V2, ts[i]) && forall j :: 0 <= j < |ts[i].measures| ==> ts[i].measures[j].preMeasureDigest == []
    {
      PlainMeasures(ts[i].measures);
    }
    hide OkShot;
  }

  lemma PlainMeasures(ms: seq<MeasureEvent>)
    ensures OkMeasures(V1, ms) <==> OkMeasures(V2, ms) && forall j :: 0 <= j < |ms| ==> ms[j].preMeasureDigest == []
  {
    forall j | 0 <= j < |ms|
      ensures OkMeasure(V1, ms[j]) <==> OkMeasure(V2, ms[j]) && ms[j].preMeasureDigest == []
    {
    }
  }

  /** Version 1 carries exactly the segments version 2 carries with nothing of its own. */
  lemma V1CarriesPlain(g: TrajectorySegment)
    ensures OkSegment(V1, g) <==> OkSegment(V2, g) && PlainSegment(g)
  {
    PlainShots(g.traces);
    hide OkShots;
  }

  /** What is appended behind a proof: the segment in version 2 if it has a witness or a
      link, in version 1 otherwise. Its payload decodes to the segment exactly when that
      can be encoded in version 2 and has a witness, has a link, or has nothing that only
      version 2 carries; and the tail splits off again when it is clean. */
  lemma AppendedKeeps(proof: seq<Byte>, g: TrajectorySegment) returns (v: Version)
    ensures v == V2 <==> |g.marginalWitnesses| > 0 || |g.unitaryLinkDigest| > 0
    ensures var payload := EncSegment(v, g);
      && Appended(proof, g) == proof + (MarkerOf(v) + (Le32(|payload|) + payload))
      && (DecSegment(v, payload, 0) == Some((g, |payload|)) <==>
            OkSegment(V2, g) && (|g.marginalWitnesses| > 0 || |g.unitaryLinkDigest| > 0 || PlainSegment(g)))
      && (TailClean(v, payload) <==> SplitTrajectoryTail(Appended(proof, g)) == Some((proof, payload, v)))
  {
    hide EncSegment, DecSegment, OkSegment, TailClean, SplitTrajectoryTail, MarkerOf;
    v := TailVersion(g);
    AppendedTailDecodes(proof, g);
    V1CarriesPlain(g);
  }

  lemma UncleanTailDoesNot(proof: seq<Byte>, v: Version, payload: seq<Byte>)
    requires !TailClean(v, payload)
    ensures SplitTrajectoryTail(WithTail(proof, v, payload)) != Some((proof, payload, v))
  {
    TwoMarkers();
    hide Ascii, Le32, FindDown, ReadU32, At, WithTail, FindFrom, TRAJ_V1_MARKER, TRAJ_V2_MARKER;
    var s, n := WithTail(proof, v, payload), |proof|;
    var behind := MarkerOf(v)[1..] + (Le32(|payload|) + payload);
    if Occurs(behind, TRAJ_V1_MARKER) {
      MarkerBehind(proof, v, payload, TRAJ_V1_MARKER);
    } else if Occurs(behind, TRAJ_V2_MARKER) {
      MarkerBehind(proof, v, payload, TRAJ_V2_MARKER);
    }
  }

  lemma CleanTailSplits(proof: seq<Byte>, v: Version, payload: seq<Byte>)
    requires TailClean(v, payload)
    ensures SplitTrajectoryTail(WithTail(proof, v, payload)) == Some((proof, payload, v))
  {
    TwoMarkers();
    FoundBehind(proof, v, payload, TRAJ_V1_MARKER);
    FoundBehind(proof, v, payload, TRAJ_V2_MARKER);
    hide Ascii, Le32, FindDown, ReadU32, At, TailClean, WithTail, RPosition, FindFrom, TRAJ_V1_MARKER, TRAJ_V2_MARKER;
    var s, n := WithTail(proof, v, payload), |proof|;
    TailParts(proof, v, payload);
    TailStart(s, n, v);
    SmallPayload(v, payload);
    ReadU32Iff(s, n + 13, |payload|, n + 17);
    assert ReadFixed(s, n + 17, |payload|) == Some((payload, n + 17 + |payload|));
  }

  lemma SmallPayload(v: Version, payload: seq<Byte>)
    requires TailClean(v, payload)
    ensures |payload| < 0x1_0000_0000
  {
  }

  lemma TailParts(proof: seq<Byte>, v: Version, payload: seq<Byte>)
    ensures var s, n := WithTail(proof, v, payload), |proof|;
      && At(s, n, MarkerOf(v)) && At(s, n + 13, Le32(|payload|)) && At(s, n + 17, payload)
      && n <= |s| && s[..n] == proof
  {
    TwoMarkers();
    hide Ascii, Le32;
    var s := WithTail(proof, v, payload);
    assert s == proof + MarkerOf(v) + (Le32(|payload|) + payload);
    assert s == (proof + MarkerOf(v)) + Le32(|payload|) + payload;
    assert s == (proof + MarkerOf(v) + Le32(|payload|)) + payload + [];
    AtHere(proof, MarkerOf(v), Le32(|payload|) + payload);
    AtHere(proof + MarkerOf(v), Le32(|payload|), payload);
    AtHere(proof + MarkerOf(v) + Le32(|payload|), payload, []);
  }

  lemma TailStart(s: seq<Byte>, n: nat, v: Version)
    requires At(s, n, MarkerOf(v))
    requires forall j: nat :: j > n ==> !At(s, j, TRAJ_V1_MARKER)
    requires forall j: nat :: j > n ==> !At(s, j, TRAJ_V2_MARKER)
    ensures FindTailMarker(s) == Some((n, v))
  {
    TwoMarkers();
    hide Ascii, FindDown, At, TRAJ_V1_MARKER, TRAJ_V2_MARKER;
    var other := if v.V1? then TRAJ_V2_MARKER else TRAJ_V1_MARKER;
    if At(s, n, other) {
      AtByte(s, n, other, 11);
      AtByte(s, n, MarkerOf(v), 11);
    }
  }
}
