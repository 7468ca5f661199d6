/** What one Danielson-Lanczos stage does to the values, and what all of them
    amount to. */
module FftStages {
  import opened Complex
  import opened Roots
  import opened Dft
  import opened BitReversal

  /** Position k of block q when the values are cut into blocks of h. */
  ghost function Place(h: nat, q: nat, k: nat): nat { q * h + k }

  lemma PlaceBound(h: nat, q: nat, k: nat, s: nat)
    requires k < h && q < s
    ensures Place(h, q, k) < s * h
  {
    assert (q + 1) * h <= s * h;
  }

  lemma PlaceInjective(h: nat, q: nat, k: nat, q': nat, k': nat)
    requires k < h && k' < h && Place(h, q, k) == Place(h, q', k')
    ensures q == q' && k == k'
  {
    if q < q' { PlaceBound(h, q, k, q'); }
    if q' < q { PlaceBound(h, q', k', q); }
  }

  lemma PlaceHalves(h: nat, q: nat, k: nat)
    ensures Place(2 * h, q, k) == Place(h, 2 * q, k)
    ensures Place(2 * h, q, k) + h == Place(2 * h, q, k + h) == Place(h, 2 * q + 1, k)
  {
  }

  // ------------------------------------------------------ inside one stage

  /** The two values of the butterfly on lo and hi with twiddle factor w. */
  ghost function Butterflied(y: CVector, lo: int, hi: int, w: Complex): CVector {
    p => if p == lo then Add(y(lo), Mul(w, y(hi))) else if p == hi then Sub(y(lo), Mul(w, y(hi))) else y(p)
  }

  /** The pair at offset i of block q of 2h values, when the stage has treated all
      offsets before k, and offset k in the blocks before b. */
  ghost predicate PairIs(h: nat, y: CVector, v: CVector, w: CVector, k: nat, b: nat, q: nat, i: nat) {
    var lo := Place(2 * h, q, i);
    var u := if i < k || (i == k && q < b) then Butterflied(y, lo, lo + h, w(i)) else y;
    v(lo) == u(lo) && v(lo + h) == u(lo + h)
  }

  ghost predicate PartlyJoined(h: nat, s: nat, y: CVector, v: CVector, w: CVector, k: nat, b: nat) {
    forall q, i | 0 <= q < s && 0 <= i < h :: PairIs(h, y, v, w, k, b, q, i)
  }

  /** One butterfly, at offset k of block b. */
  lemma TreatPair(h: nat, s: nat, y: CVector, v: CVector, w: CVector, k: nat, b: nat)
    requires k < h && b < s && PartlyJoined(h, s, y, v, w, k, b)
    ensures var lo := Place(2 * h, b, k);
            PartlyJoined(h, s, y, Butterflied(v, lo, lo + h, w(k)), w, k, b + 1)
  {
    var lo := Place(2 * h, b, k);
    var u := Butterflied(v, lo, lo + h, w(k));
    var next := b + 1;
    forall q, i | 0 <= q < s && 0 <= i < h
      ensures PairIs(h, y, u, w, k, next, q, i)
    {
      assert PairIs(h, y, v, w, k, b, b, k);
      assert PairIs(h, y, v, w, k, b, q, i);
      if q != b || i != k { TreatOther(h, k, b, q, i); }
    }
  }

  lemma TreatOther(h: nat, k: nat, b: nat, q: nat, i: nat)
    requires k < h && i < h && (q != b || i != k)
    ensures var lo, p := Place(2 * h, b, k), Place(2 * h, q, i);
            lo != p && lo + h != p && lo != p + h
  {
    var lo, p := Place(2 * h, b, k), Place(2 * h, q, i);
    PlaceHalves(h, b, k);
    PlaceHalves(h, q, i);
    if lo == p { PlaceInjective(2 * h, b, k, q, i); }
    if lo + h == p { PlaceInjective(2 * h, b, k + h, q, i); }
    if lo == p + h { PlaceInjective(2 * h, b, k, q, i + h); }
  }

  lemma NextOffset(h: nat, s: nat, y: CVector, v: CVector, w: CVector, k: nat)
    requires PartlyJoined(h, s, y, v, w, k, s)
    ensures PartlyJoined(h, s, y, v, w, k + 1, 0)
  {
    var next := k + 1;
    forall q, i | 0 <= q < s && 0 <= i < h
      ensures PairIs(h, y, v, w, next, 0, q, i)
    {
      assert PairIs(h, y, v, w, k, s, q, i);
    }
  }

  // ------------------------------------------------------- all the stages

  /** The twiddle factors of the stage that joins blocks of h. */
  ghost function Twiddles(t: Trig, isign: int, h: nat): CVector
    requires h > 0
  {
    k => Root(t, isign, 2 * h, k)
  }

  /** Block q of h values holds the transform of every s-th value from offset
      rev(q) on. */
  ghost predicate Blocks(t: Trig, isign: int, h: nat, s: nat, x: CVector, y: CVector, rev: int -> int)
    requires h > 0
  {
    forall q, k | 0 <= q < s && 0 <= k < h ::
      y(Place(h, q, k)) == Transform(t, isign, h, Every(x, s, rev(q)), k)
  }

  /** One stage joins the blocks pairwise. */
  lemma JoinBlocks(t: Trig, isign: int, h: nat, s: nat, x: CVector, y: CVector, z: CVector, rev: int -> int, fine: int -> int)
    requires Lawful(t) && (isign == 1 || isign == -1) && h > 0
    requires Blocks(t, isign, h, 2 * s, x, y, fine)
    requires forall q | 0 <= q < s :: fine(2 * q) == rev(q) && fine(2 * q + 1) == rev(q) + s
    requires PartlyJoined(h, s, y, z, Twiddles(t, isign, h), h, 0)
    ensures Blocks(t, isign, 2 * h, s, x, z, rev)
  {
    forall q, k | 0 <= q < s && 0 <= k < 2 * h
      ensures z(Place(2 * h, q, k)) == Transform(t, isign, 2 * h, Every(x, s, rev(q)), k)
    {
      JoinBlock(t, isign, h, s, x, y, z, rev(q), q, if k < h then k else k - h, fine);
    }
  }

  lemma JoinBlock(t: Trig, isign: int, h: nat, s: nat, x: CVector, y: CVector, z: CVector, r: int, q: nat, k: nat, fine: int -> int)
    requires Lawful(t) && (isign == 1 || isign == -1) && h > 0 && q < s && k < h
    requires Blocks(t, isign, h, 2 * s, x, y, fine) && fine(2 * q) == r && fine(2 * q + 1) == r + s
    requires PartlyJoined(h, s, y, z, Twiddles(t, isign, h), h, 0)
    ensures z(Place(2 * h, q, k)) == Transform(t, isign, 2 * h, Every(x, s, r), k)
    ensures z(Place(2 * h, q, k + h)) == Transform(t, isign, 2 * h, Every(x, s, r), k + h)
  {
    hide Transform, Lawful, Blocks;
    assert PairIs(h, y, z, Twiddles(t, isign, h), h, 0, q, k);
    JoinedPlace(t, isign, h, s, x, y, r, q, k, fine);
  }

  lemma JoinedPlace(t: Trig, isign: int, h: nat, s: nat, x: CVector, y: CVector, r: int, q: nat, k: nat, fine: int -> int)
    requires Lawful(t) && (isign == 1 || isign == -1) && h > 0 && q < s && k < h
    requires Blocks(t, isign, h, 2 * s, x, y, fine) && fine(2 * q) == r && fine(2 * q + 1) == r + s
    ensures var lo := Place(2 * h, q, k);
            var u := Butterflied(y, lo, lo + h, Twiddles(t, isign, h)(k));
            && u(lo) == Transform(t, isign, 2 * h, Every(x, s, r), k)
            && u(lo + h) == Transform(t, isign, 2 * h, Every(x, s, r), k + h)
            && lo + h == Place(2 * h, q, k + h)
  {
    hide Transform, Root, Lawful;
    PlaceHalves(h, q, k);
    assert y(Place(h, 2 * q, k)) == Transform(t, isign, h, Every(x, 2 * s, r), k);
    assert y(Place(h, 2 * q + 1, k)) == Transform(t, isign, h, Every(x, 2 * s, r + s), k);
    Butterfly(t, isign, h, x, s, r, k);
  }
}
