/** Lists in a byte stream: a codec for elements gives one for counted lists. */
module ListCodec {

  import opened Options
  import opened Bytes

  type Encoder<!T> = T -> seq<Byte>

  type Decoder<!T> = (seq<Byte>, nat) -> Reading<T>

  /** Decoding succeeds with x exactly where the encoding of an encodable x stands. */
  ghost predicate Faithful<T(!new)>(enc: Encoder<T>, dec: Decoder<T>, ok: T -> bool) {
    forall s: seq<Byte>, off: nat, x: T, end: nat ::
      dec(s, off) == Some((x, end)) <==> ok(x) && end == off + |enc(x)| && At(s, off, enc(x))
  }

  function EncAll<T>(enc: Encoder<T>, xs: seq<T>): seq<Byte> {
    if xs == [] then [] else EncAll(enc, xs[..|xs| - 1]) + enc(xs[|xs| - 1])
  }

  function DecAll<T>(dec: Decoder<T>, s: seq<Byte>, off: nat, n: nat): Reading<seq<T>> {
    if n == 0 then Some(([], off))
    else
      var (xs, cursor) :- DecAll(dec, s, off, n - 1);
      var (x, end) :- dec(s, cursor);
      Some((xs + [x], end))
  }

  ghost predicate AllOk<T>(ok: T -> bool, xs: seq<T>) {
    forall i :: 0 <= i < |xs| ==> ok(xs[i])
  }

  lemma {:induction false} AllFaithful<T(!new)>(enc: Encoder<T>, dec: Decoder<T>, ok: T -> bool, s: seq<Byte>, off: nat,
                                                n: nat, xs: seq<T>, end: nat)
    requires Faithful(enc, dec, ok) && off <= |s|
    ensures DecAll(dec, s, off, n) == Some((xs, end))
            <==> |xs| == n && AllOk(ok, xs) && end == off + |EncAll(enc, xs)| && At(s, off, EncAll(enc, xs))
  {
    hide At;
    if n == 0 {
      NothingAt(s, off);
    } else if |xs| == n {
      var init, x := xs[..n - 1], xs[n - 1];
      assert xs == init + [x];
      var mid := off + |EncAll(enc, init)|;
      AllFaithful(enc, dec, ok, s, off, n - 1, init, mid);
      AtConcat(s, off, EncAll(enc, init), enc(x));
      assert dec(s, mid) == Some((x, end)) <==> ok(x) && end == mid + |enc(x)| && At(s, mid, enc(x));
      if DecAll(dec, s, off, n) == Some((xs, end)) {
        var (ys, cursor) := DecAll(dec, s, off, n - 1).value;
        AllFaithful(enc, dec, ok, s, off, n - 1, ys, cursor);
        var (y, _) := dec(s, cursor).value;
        assert xs == ys + [y];
        assert ys == init && y == x;
      }
    } else {
      DecAllLength(dec, s, off, n);
    }
  }

  lemma NothingAt(s: seq<Byte>, off: nat)
    requires off <= |s|
    ensures At(s, off, [])
  {
  }

  lemma {:induction false} DecAllLength<T>(dec: Decoder<T>, s: seq<Byte>, off: nat, n: nat)
    ensures DecAll(dec, s, off, n).Some? ==> |DecAll(dec, s, off, n).value.0| == n
  {
    if n > 0 {
      DecAllLength(dec, s, off, n - 1);
    }
  }

  lemma {:induction false} DecAllFails<T>(dec: Decoder<T>, s: seq<Byte>, off: nat, k: nat, n: nat)
    requires k <= n && DecAll(dec, s, off, k).None?
    ensures DecAll(dec, s, off, n).None?
    decreases n
  {
    if k < n {
      DecAllFails(dec, s, off, k, n - 1);
    }
  }

  /** A u32 count, then the elements. */
  function EncList<T>(enc: Encoder<T>, xs: seq<T>): seq<Byte> { Le32(|xs|) + EncAll(enc, xs) }

  function DecList<T>(dec: Decoder<T>, s: seq<Byte>, off: nat): Reading<seq<T>> {
    var (n, cursor) :- ReadU32(s, off);
    DecAll(dec, s, cursor, n)
  }

  ghost predicate ListOk<T>(ok: T -> bool, xs: seq<T>) { |xs| < 0x1_0000_0000 && AllOk(ok, xs) }

  lemma ListFaithful<T(!new)>(enc: Encoder<T>, dec: Decoder<T>, ok: T -> bool, s: seq<Byte>, off: nat, xs: seq<T>, end: nat)
    requires Faithful(enc, dec, ok)
    ensures DecList(dec, s, off) == Some((xs, end))
            <==> ListOk(ok, xs) && end == off + |EncList(enc, xs)| && At(s, off, EncList(enc, xs))
  {
    hide At, Faithful, Le32, EncAll, DecAll, ReadU32;
    AtConcat(s, off, Le32(|xs|), EncAll(enc, xs));
    if |xs| < 0x1_0000_0000 {
      ReadU32Iff(s, off, |xs|, off + 4);
    }
    if ReadU32(s, off).Some? {
      AllFaithful(enc, dec, ok, s, off + 4, ReadU32(s, off).value.0, xs, end);
    }
  }
}
