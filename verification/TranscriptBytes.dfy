/** Transcripts written out byte by byte. */
module TranscriptBytes {

  import opened Options
  import opened Bytes
  import opened ListCodec
  import opened ComposeV3
  import ProofTree
  import opened AuxTails
  import opened Trajectory

  // ---- Numbers ----

  lemma {:induction false} LeStep(n: nat, w: nat)
    requires w > 0
    ensures Le(n, w) == [n % 256] + Le(n / 256, w - 1)
  {
  }

  lemma Le32Is(n: nat)
    requires n < 256
    ensures Le32(n) == [n, 0, 0, 0]
  {
    LeStep(n, 4);
    Zeros(3);
  }

  /** The lowest byte comes first. */
  lemma LowestFirst()
    ensures Le32(0x0403_0201) == [1, 2, 3, 4]
  {
    LeStep(0x0403_0201, 4); LeStep(0x04_0302, 3); LeStep(0x0403, 2); LeStep(0x04, 1);
    assert Le(0, 0) == [];
  }

  lemma Le64IsSmall(n: nat)
    requires n < 256
    ensures Le64(n) == [n, 0, 0, 0, 0, 0, 0, 0]
  {
    LeStep(n, 8);
    Zeros(7);
  }

  lemma {:induction false} Zeros(w: nat)
    ensures Le(0, w) == seq(w, _ => 0)
  {
    if w > 0 {
      LeStep(0, w);
      Zeros(w - 1);
    }
  }

  // ---- The compose transcript ----

  /** Parent "A", label "b", no manifest, children [7] and [8, 9]. */
  lemma ComposeExample(left: ChildHash, right: ChildHash)
    ensures Encoded(Compose(ComposeHeader([65], [98], [], left, right), [7], [8, 9]))
            == [65, 0] + [95, 87, 81, 67, 95, 67, 79, 77, 80, 79, 83, 69, 95, 86, 51, 95] + [98, 0] + [0]
               + left + right + [1, 0, 0, 0] + [7] + [2, 0, 0, 0] + [8, 9]
  {
    hide Le32;
    ComposeMarker();
    Le32Is(1);
    Le32Is(2);
  }

  lemma ComposeMarker()
    ensures V3_COMPOSE_MARKER == [95, 87, 81, 67, 95, 67, 79, 77, 80, 79, 83, 69, 95, 86, 51, 95]
  {
  }

  /** The aggregation tail of [5, 6] behind a transcript. */
  lemma AggTailExample(v3: seq<Byte>)
    ensures ProofTree.WithAggTail(v3, [5, 6])
            == v3 + [95, 87, 81, 67, 95, 65, 71, 71, 95, 84, 65, 73, 76, 95, 86, 52, 95] + [2, 0, 0, 0] + [5, 6]
  {
    hide Le32;
    AggMarker();
    Le32Is(2);
  }

  lemma AggMarker()
    ensures ProofTree.V4_AGG_TAIL_MARKER == [95, 87, 81, 67, 95, 65, 71, 71, 95, 84, 65, 73, 76, 95, 86, 52, 95]
  {
  }

  // ---- The trajectory segment ----

  /** One shot with one measurement. */
  function OneShot(p0: F64, p1: F64): ShotTrace { ShotTrace(3, 4, [48], [1, 0], [MeasureEvent(5, 6, 7, p0, p1, 1, [100])]) }

  function OneSegment(p0: F64, p1: F64): TrajectorySegment {
    TrajectorySegment(1, 2, [115], [116], 9, [108], [OneShot(p0, p1)], [MarginalWitness(8, p1, p0, [(p0, p1)], [119])])
  }

  lemma MeasureExample(v: Version, p0: F64, p1: F64)
    ensures EncMeasure(v, MeasureEvent(5, 6, 7, p0, p1, 1, [100]))
            == [5, 0, 0, 0] + [6, 0, 0, 0] + [7, 0, 0, 0] + p0 + p1 + [1] + (if v == V2 then [100, 0] else [])
  {
    hide Le32;
    Le32Is(5); Le32Is(6); Le32Is(7);
  }

  lemma OneInList<T>(enc: Encoder<T>, x: T)
    ensures EncList(enc, [x]) == [1, 0, 0, 0] + enc(x)
  {
    hide Le32;
    Le32Is(1);
    assert [x][..0] == [];
    assert EncAll(enc, [x]) == EncAll(enc, []) + enc(x);
  }

  lemma ShotExample(v: Version, p0: F64, p1: F64)
    ensures EncShot(v, OneShot(p0, p1))
            == [3, 0, 0, 0, 0, 0, 0, 0] + [4, 0, 0, 0, 0, 0, 0, 0] + [48, 0] + [2, 0, 0, 0] + [1, 0] + [1, 0, 0, 0]
               + ([5, 0, 0, 0] + [6, 0, 0, 0] + [7, 0, 0, 0] + p0 + p1 + [1] + (if v == V2 then [100, 0] else []))
  {
    hide Le32, Le64, EncList, EncMeasure;
    Le64IsSmall(3); Le64IsSmall(4);
    Le32Is(2);
    MeasureExample(v, p0, p1);
    OneInList(MeasureEncoder(v), OneShot(p0, p1).measures[0]);
  }

  lemma WitnessExample(p0: F64, p1: F64)
    ensures EncWitness(MarginalWitness(8, p1, p0, [(p0, p1)], [119])) == [8, 0, 0, 0] + p1 + p0 + [1, 0, 0, 0] + p0 + p1 + [119, 0]
  {
    hide Le32, EncList;
    Le32Is(8);
    OneInList(EncAmplitude, (p0, p1));
  }

  lemma HeadExample(v: Version, p0: F64, p1: F64)
    ensures EncHead(v, OneSegment(p0, p1))
            == [1, 0, 0, 0, 0, 0, 0, 0] + [2, 0, 0, 0, 0, 0, 0, 0] + [115, 0] + [116, 0] + (if v == V2 then [9, 0, 0, 0] + [108, 0] else [])
  {
    hide Le32, Le64;
    Le64IsSmall(1); Le64IsSmall(2);
    Le32Is(9);
  }

  /** The segment in both versions is head, shots and witnesses: version 1 leaves out qubit
      count, link, measurement digests and witnesses. */
  lemma SegmentExample(v: Version, p0: F64, p1: F64)
    ensures EncSegment(v, OneSegment(p0, p1))
            == EncHead(v, OneSegment(p0, p1))
               + (([1, 0, 0, 0] + EncShot(v, OneShot(p0, p1)))
                  + (if v == V2 then [1, 0, 0, 0] + EncWitness(MarginalWitness(8, p1, p0, [(p0, p1)], [119])) else []))
  {
    hide EncList, EncShot, EncWitness, EncHead;
    OneInList(ShotEncoder(v), OneShot(p0, p1));
    OneInList(EncWitness, OneSegment(p0, p1).marginalWitnesses[0]);
  }

  /** The two trajectory markers spell _M31_TRAJ_V1_ and _M31_TRAJ_V2_. */
  lemma TrajectoryMarkers()
    ensures MarkerOf(V1) == [95, 77, 51, 49, 95, 84, 82, 65, 74, 95, 86, 49, 95]
    ensures MarkerOf(V2) == [95, 77, 51, 49, 95, 84, 82, 65, 74, 95, 86, 50, 95]
  {
  }
}
