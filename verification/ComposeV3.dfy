/** The v3 compose transcript: two child proofs with their digests. */
module ComposeV3 {

  import opened Options
  import opened Bytes

  const V3_COMPOSE_MARKER: seq<Byte> := Ascii("_WQC_COMPOSE_V3_")
  const CHILD_HASH_LEN: nat := 32

  type ChildHash = s: seq<Byte> | |s| == CHILD_HASH_LEN witness seq(CHILD_HASH_LEN, _ => 0)

  /** SHA3-256 (FIPS 202, section 6.1), uninterpreted. */
  type Digest = seq<Byte> -> ChildHash

  datatype ComposeHeader = ComposeHeader(parentTaskId: seq<Byte>, composeLabel: seq<Byte>, manifestRootHash: seq<Byte>,
                                         leftChildHash: ChildHash, rightChildHash: ChildHash)

  datatype Compose = Compose(header: ComposeHeader, left: seq<Byte>, right: seq<Byte>)

  /** Everything after the marker. */
  function Body(c: Compose): seq<Byte> {
    Cstr(c.header.composeLabel) + (Cstr(c.header.manifestRootHash) + (c.header.leftChildHash + (c.header.rightChildHash
    + (Le32(|c.left|) + (c.left + (Le32(|c.right|) + c.right))))))
  }

  function Encoded(c: Compose): seq<Byte> {
    Cstr(c.header.parentTaskId) + (V3_COMPOSE_MARKER + Body(c))
  }

  function ComposeOf(digest: Digest, parentTaskId: seq<Byte>, composeLabel: seq<Byte>, manifestRootHash: seq<Byte>,
                     left: seq<Byte>, right: seq<Byte>): Compose {
    Compose(ComposeHeader(parentTaskId, composeLabel, manifestRootHash, digest(left), digest(right)), left, right)
  }

  method EncodeComposeV3(digest: Digest, parentTaskId: seq<Byte>, composeLabel: seq<Byte>, manifestRootHash: seq<Byte>,
                         left: seq<Byte>, right: seq<Byte>) returns (out: seq<Byte>)
    ensures out == Encoded(ComposeOf(digest, parentTaskId, composeLabel, manifestRootHash, left, right))
  {
    hide Le32;
    var leftHash, rightHash := digest(left), digest(right);
    out := parentTaskId;
    out := out + [0];
    out := out + V3_COMPOSE_MARKER;
    out := out + composeLabel;
    out := out + [0];
    out := out + manifestRootHash;
    out := out + [0];
    out := out + leftHash;
    out := out + rightHash;
    out := out + Le32(|left|);
    out := out + left;
    out := out + Le32(|right|);
    out := out + right;
    assert out == Encoded(ComposeOf(digest, parentTaskId, composeLabel, manifestRootHash, left, right));
  }

  predicate IsComposeV3(proof: seq<Byte>) { Occurs(proof, V3_COMPOSE_MARKER) }

  /** Offset of the first marker, when a zero byte stands before it. */
  function LocateComposeMarker(proof: seq<Byte>): Option<nat> {
    var pos :- Position(proof, V3_COMPOSE_MARKER);
    if pos == 0 || proof[pos - 1] != 0 then None else Some(pos)
  }

  function ReadBody(proof: seq<Byte>, parentTaskId: seq<Byte>, off: nat): Option<Compose> {
    var (name, cursor) :- ReadCstr(proof, off);
    var (manifest, cursor) :- ReadCstr(proof, cursor);
    var (leftHash, cursor) :- ReadFixed(proof, cursor, CHILD_HASH_LEN);
    var (rightHash, cursor) :- ReadFixed(proof, cursor, CHILD_HASH_LEN);
    var (leftLen, cursor) :- ReadU32(proof, cursor);
    var (left, cursor) :- ReadFixed(proof, cursor, leftLen);
    var (rightLen, cursor) :- ReadU32(proof, cursor);
    var (right, cursor) :- ReadFixed(proof, cursor, rightLen);
    if cursor != |proof| then None
    else Some(Compose(ComposeHeader(parentTaskId, name, manifest, leftHash, rightHash), left, right))
  }

  function DecodeComposeV3(proof: seq<Byte>): Option<Compose> {
    hide ReadBody;
    var pos :- LocateComposeMarker(proof);
    ReadBody(proof, proof[..pos - 1], pos + |V3_COMPOSE_MARKER|)
  }

  /** The fields an encoding can carry. */
  predicate Encodable(c: Compose) {
    && NulFree(c.header.composeLabel) && NulFree(c.header.manifestRootHash)
    && |c.left| < 0x1_0000_0000 && |c.right| < 0x1_0000_0000
  }

  predicate MarkerFree(s: seq<Byte>) { !Occurs(s, V3_COMPOSE_MARKER) }

  // ---- The body ----

  lemma BodyParts(proof: seq<Byte>, off: nat, c: Compose)
    ensures At(proof, off, Body(c)) <==>
      var h := c.header;
      var o1 := off + |h.composeLabel| + 1;
      var o2 := o1 + |h.manifestRootHash| + 1;
      var o4 := o2 + 64;
      var o6 := o4 + 4 + |c.left|;
      && At(proof, off, Cstr(h.composeLabel)) && At(proof, o1, Cstr(h.manifestRootHash))
      && At(proof, o2, h.leftChildHash) && At(proof, o2 + 32, h.rightChildHash)
      && At(proof, o4, Le32(|c.left|)) && At(proof, o4 + 4, c.left)
      && At(proof, o6, Le32(|c.right|)) && At(proof, o6 + 4, c.right)
  {
    hide At, Le32;
    var h := c.header;
    var r6 := Le32(|c.right|) + c.right;
    var r5 := c.left + r6;
    var r4 := Le32(|c.left|) + r5;
    var r3 := h.rightChildHash + r4;
    var r2 := h.leftChildHash + r3;
    var r1 := Cstr(h.manifestRootHash) + r2;
    AtConcat(proof, off, Cstr(h.composeLabel), r1);
    var o1 := off + |h.composeLabel| + 1;
    AtConcat(proof, o1, Cstr(h.manifestRootHash), r2);
    var o2 := o1 + |h.manifestRootHash| + 1;
    AtConcat(proof, o2, h.leftChildHash, r3);
    AtConcat(proof, o2 + 32, h.rightChildHash, r4);
    AtConcat(proof, o2 + 64, Le32(|c.left|), r5);
    AtConcat(proof, o2 + 68, c.left, r6);
    AtConcat(proof, o2 + 68 + |c.left|, Le32(|c.right|), c.right);
  }

  /** Reading a body succeeds with c exactly when the encoding of c is all that remains. */
  lemma ReadBodyIff(proof: seq<Byte>, parent: seq<Byte>, off: nat, c: Compose)
    ensures ReadBody(proof, parent, off) == Some(c)
            <==> c.header.parentTaskId == parent && Encodable(c) && off + |Body(c)| == |proof| && At(proof, off, Body(c))
  {
    if ReadBody(proof, parent, off) == Some(c) {
      ReadBodySound(proof, parent, off, c);
    }
    if c.header.parentTaskId == parent && Encodable(c) && off + |Body(c)| == |proof| && At(proof, off, Body(c)) {
      ReadBodyComplete(proof, parent, off, c);
    }
  }

  lemma ReadBodySound(proof: seq<Byte>, parent: seq<Byte>, off: nat, c: Compose)
    requires ReadBody(proof, parent, off) == Some(c)
    ensures c.header.parentTaskId == parent && Encodable(c) && off + |Body(c)| == |proof| && At(proof, off, Body(c))
  {
    hide At, Le32, ReadCstr, ReadU32, Body, NulFree;
    var h := c.header;
    var o1 := off + |h.composeLabel| + 1;
    var o2 := o1 + |h.manifestRootHash| + 1;
    var o6 := o2 + 68 + |c.left|;
    BodyParts(proof, off, c);
    var (_, c1) := ReadCstr(proof, off).value;
    ReadCstrIff(proof, off, h.composeLabel, c1);
    var (_, c2) := ReadCstr(proof, c1).value;
    ReadCstrIff(proof, c1, h.manifestRootHash, c2);
    var (n, c5) := ReadU32(proof, o2 + 64).value;
    ReadU32Iff(proof, o2 + 64, n, c5);
    var (m, c7) := ReadU32(proof, o6).value;
    ReadU32Iff(proof, o6, m, c7);
    BodyLength(c);
  }

  lemma BodyLength(c: Compose)
    ensures |Body(c)| == |c.header.composeLabel| + |c.header.manifestRootHash| + 74 + |c.left| + |c.right|
  {
    hide Le32;
  }

  /** Where the encoding of c stands, reading gives c if nothing follows and fails otherwise. */
  lemma ReadBodyComplete(proof: seq<Byte>, parent: seq<Byte>, off: nat, c: Compose)
    requires c.header.parentTaskId == parent && Encodable(c) && At(proof, off, Body(c))
    ensures ReadBody(proof, parent, off) == if off + |Body(c)| == |proof| then Some(c) else None
  {
    hide At, Le32, ReadCstr, ReadU32, Body, NulFree;
    var h := c.header;
    var o1 := off + |h.composeLabel| + 1;
    var o2 := o1 + |h.manifestRootHash| + 1;
    var o6 := o2 + 68 + |c.left|;
    var end := o6 + 4 + |c.right|;
    BodyParts(proof, off, c);
    BodyLength(c);
    ReadCstrIff(proof, off, h.composeLabel, o1);
    ReadCstrIff(proof, o1, h.manifestRootHash, o2);
    ReadU32Iff(proof, o2 + 64, |c.left|, o2 + 68);
    ReadU32Iff(proof, o6, |c.right|, o6 + 4);
    ReadFixedAt(proof, o2, h.leftChildHash);
    ReadFixedAt(proof, o2 + 32, h.rightChildHash);
    ReadFixedAt(proof, o2 + 68, c.left);
    ReadFixedAt(proof, o6 + 4, c.right);
  }

  lemma ReadFixedAt(proof: seq<Byte>, off: nat, s: seq<Byte>)
    requires At(proof, off, s)
    ensures ReadFixed(proof, off, |s|) == Some((s, off + |s|))
  {
  }

  // ---- The marker ----

  lemma MarkerBytes()
    ensures |V3_COMPOSE_MARKER| == 16 && NulFree(V3_COMPOSE_MARKER)
  {
  }

  /** Behind a parent without markers, the intended marker is the first. */
  lemma MarkerLocated(parent: seq<Byte>, rest: seq<Byte>)
    requires MarkerFree(parent)
    ensures LocateComposeMarker(Cstr(parent) + (V3_COMPOSE_MARKER + rest)) == Some(|parent| + 1)
  {
    var m, s := V3_COMPOSE_MARKER, Cstr(parent) + (V3_COMPOSE_MARKER + rest);
    MarkerBytes();
    hide Ascii, FindFrom;
    AtHere(Cstr(parent), m, rest);
    assert s == Cstr(parent) + m + rest;
    forall j: nat | j < |parent| + 1
      ensures !At(s, j, m)
    {
      if j + 16 <= |parent| {
        assert parent[j..j + 16] == s[j..j + 16];
        assert !At(parent, j, m);
      } else if j + 16 <= |s| {
        assert s[j..j + 16][|parent| - j] == s[|parent|] == 0;
      }
    }
  }

  // ---- Round trips ----

  /** Decoding an encoding gives the encoded fields back exactly when the parent id does
      not contain the marker, label and manifest have no zero byte and the children fit
      their length fields. */
  lemma DecodeEncoded(c: Compose)
    ensures DecodeComposeV3(Encoded(c)) == Some(c) <==> MarkerFree(c.header.parentTaskId) && Encodable(c)
  {
    hide Body, ReadBody, Encodable, FindFrom, Ascii, Le32;
    MarkerBytes();
    var s := Encoded(c);
    var parent := c.header.parentTaskId;
    if MarkerFree(parent) {
      MarkerLocated(parent, Body(c));
      assert s[..|parent|] == parent;
      ReadBodyIff(s, parent, |parent| + 17, c);
      assert At(s, |parent| + 17, Body(c));
    }
    if DecodeComposeV3(s) == Some(c) {
      DecodedFields(s, c);
    }
  }

  /** Nothing may follow an encoding. */
  lemma DecodeExtended(c: Compose, extra: seq<Byte>)
    requires MarkerFree(c.header.parentTaskId) && Encodable(c) && extra != []
    ensures DecodeComposeV3(Encoded(c) + extra) == None
  {
    hide Body, ReadBody, Encodable, FindFrom, Ascii, Le32;
    MarkerBytes();
    var parent := c.header.parentTaskId;
    var s := Encoded(c) + extra;
    assert s == Cstr(parent) + (V3_COMPOSE_MARKER + (Body(c) + extra));
    MarkerLocated(parent, Body(c) + extra);
    assert s[..|parent|] == parent;
    assert At(s, |parent| + 17, Body(c));
    ReadBodyComplete(s, parent, |parent| + 17, c);
  }

  /** A parent id without zero bytes that contains the marker hides its own transcript:
      nothing that starts with such an encoding decodes. */
  lemma DecodeMarked(c: Compose, extra: seq<Byte>)
    requires NulFree(c.header.parentTaskId) && !MarkerFree(c.header.parentTaskId)
    ensures DecodeComposeV3(Encoded(c) + extra) == None
  {
    hide Body, ReadBody, FindFrom, Ascii, Le32;
    var parent, s := c.header.parentTaskId, Encoded(c) + extra;
    var j := Position(parent, V3_COMPOSE_MARKER).value;
    assert s[j..j + |V3_COMPOSE_MARKER|] == parent[j..j + |V3_COMPOSE_MARKER|];
    assert At(s, j, V3_COMPOSE_MARKER);
    var pos := Position(s, V3_COMPOSE_MARKER).value;
    assert pos <= j;
    assert pos > 0 ==> s[pos - 1] == parent[pos - 1];
  }

  /** Whatever decodes is an encoding of what it decodes to. */
  lemma DecodedFields(proof: seq<Byte>, c: Compose)
    requires DecodeComposeV3(proof) == Some(c)
    ensures MarkerFree(c.header.parentTaskId) && Encodable(c)
    ensures Encoded(c) == proof
    ensures |c.left| + |c.right| < |proof|
  {
    hide Body, ReadBody, Encodable, FindFrom, Ascii, Le32;
    MarkerBytes();
    var pos := LocateComposeMarker(proof).value;
    var parent := proof[..pos - 1];
    ReadBodyIff(proof, parent, pos + 16, c);
    BodyLength(c);
    assert proof == parent + [0] + proof[pos..pos + 16] + proof[pos + 16..];
    assert proof == Encoded(c);
    forall j: nat
      ensures !At(parent, j, V3_COMPOSE_MARKER)
    {
      if j + 16 <= |parent| {
        assert proof[j..j + 16] == parent[j..j + 16];
        assert !At(proof, j, V3_COMPOSE_MARKER);
      }
    }
  }

  /** A decoded transcript whose header hashes match its children re-encodes to the same
      bytes. */
  lemma ReencodeDecoded(digest: Digest, proof: seq<Byte>, c: Compose)
    requires DecodeComposeV3(proof) == Some(c)
    requires c.header.leftChildHash == digest(c.left) && c.header.rightChildHash == digest(c.right)
    ensures Encoded(ComposeOf(digest, c.header.parentTaskId, c.header.composeLabel, c.header.manifestRootHash, c.left, c.right)) == proof
  {
    hide Encoded;
    DecodedFields(proof, c);
  }
}
