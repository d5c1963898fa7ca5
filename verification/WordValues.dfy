/** Values of up to 8 bytes as 64-bit words, with shifts by whole bytes (the part of
    src/SVal.hpp that mixed-size accesses need). The bit operations have names here, so
    that proofs by induction over bytes need not look into them. */
module WordValues {
  const ZERO: bv64 := 0
  const ONES: bv64 := 0xffff_ffff_ffff_ffff

  function Up(v: bv64): bv64 { v << 8 }
  function Down(v: bv64): bv64 { v >> 8 }
  function Low(v: bv64): bv64 { v & 0xff }
  function Both(v: bv64, u: bv64): bv64 { v & u }
  function Either(v: bv64, u: bv64): bv64 { v | u }

  /** v << 8 * n */
  function Left(v: bv64, n: nat): bv64 {
    if n == 0 then v else Up(Left(v, n - 1))
  }

  /** v >> 8 * n */
  function Right(v: bv64, n: nat): bv64 {
    if n == 0 then v else Down(Right(v, n - 1))
  }

  /** The lowest n bytes are ones: ~0 >> (64 - 8 * n). */
  function Mask(n: nat): bv64
    requires n <= 8
  {
    Right(ONES, 8 - n)
  }

  /** Byte k of a word, counted from the lowest. */
  function ByteOf(v: bv64, k: nat): bv64 {
    Low(Right(v, k))
  }

  // ----- one operation, on one byte

  lemma DownEither(v: bv64, u: bv64)
    ensures Down(Either(v, u)) == Either(Down(v), Down(u)) && Low(Either(v, u)) == Either(Low(v), Low(u))
  {
  }

  lemma DownBoth(v: bv64, u: bv64)
    ensures Down(Both(v, u)) == Both(Down(v), Down(u)) && Low(Both(v, u)) == Both(Low(v), Low(u))
  {
  }

  lemma DownUp(v: bv64)
    ensures Down(Up(v)) == Both(v, 0xff_ffff_ffff_ffff) && Low(Up(v)) == ZERO
  {
  }

  lemma SameDown(v: bv64, u: bv64)
    requires Down(v) == Down(u) && Low(v) == Low(u)
    ensures v == u
  {
  }

  lemma DownZero()
    ensures Down(ZERO) == ZERO && Low(ZERO) == ZERO
  {
  }

  lemma LowWith(v: bv64)
    ensures Both(Low(v), 0xff) == Low(v) && Both(Low(v), ZERO) == ZERO
    ensures Either(Low(v), ZERO) == Low(v) && Either(ZERO, Low(v)) == Low(v)
  {
  }

  lemma WithOnes(v: bv64)
    ensures Both(v, ONES) == v && Both(v, ZERO) == ZERO
  {
  }

  lemma DownOnes()
    ensures Down(ONES) == 0xff_ffff_ffff_ffff && Down(Down(ONES)) == 0xffff_ffff_ffff
    ensures Down(0xffff_ffff_ffff) == 0xff_ffff_ffff && Down(0xff_ffff_ffff) == 0xffff_ffff
    ensures Down(0xffff_ffff) == 0xff_ffff && Down(0xff_ffff) == 0xffff
    ensures Down(0xffff) == 0xff && Down(0xff) == ZERO
  {
  }

  lemma LowOnes()
    ensures Low(ONES) == 0xff && Low(0xff_ffff_ffff_ffff) == 0xff && Low(0xffff_ffff_ffff) == 0xff
    ensures Low(0xff_ffff_ffff) == 0xff && Low(0xffff_ffff) == 0xff && Low(0xff_ffff) == 0xff
    ensures Low(0xffff) == 0xff && Low(0xff) == 0xff
  {
  }

  // ----- any number of bytes

  lemma {:induction false} RightTwice(v: bv64, n: nat, k: nat)
    ensures Right(Right(v, n), k) == Right(v, n + k)
  {
    hide Down;
    if k > 0 { RightTwice(v, n, k - 1); }
  }

  lemma ByteOfRight(v: bv64, n: nat, k: nat)
    ensures ByteOf(Right(v, n), k) == ByteOf(v, n + k)
  {
    hide Low, Right;
    RightTwice(v, n, k);
  }

  lemma {:induction false} RightOfEither(v: bv64, u: bv64, k: nat)
    ensures Right(Either(v, u), k) == Either(Right(v, k), Right(u, k))
  {
    hide Down, Either, Low;
    if k > 0 {
      RightOfEither(v, u, k - 1);
      DownEither(Right(v, k - 1), Right(u, k - 1));
    }
  }

  lemma {:induction false} RightOfBoth(v: bv64, u: bv64, k: nat)
    ensures Right(Both(v, u), k) == Both(Right(v, k), Right(u, k))
  {
    hide Down, Both, Low;
    if k > 0 {
      RightOfBoth(v, u, k - 1);
      DownBoth(Right(v, k - 1), Right(u, k - 1));
    }
  }

  lemma ByteOfEither(v: bv64, u: bv64, k: nat)
    ensures ByteOf(Either(v, u), k) == Either(ByteOf(v, k), ByteOf(u, k))
  {
    hide Down, Either, Low, Right;
    RightOfEither(v, u, k);
    DownEither(Right(v, k), Right(u, k));
  }

  lemma ByteOfBoth(v: bv64, u: bv64, k: nat)
    ensures ByteOf(Both(v, u), k) == Both(ByteOf(v, k), ByteOf(u, k))
  {
    hide Down, Both, Low, Right;
    RightOfBoth(v, u, k);
    DownBoth(Right(v, k), Right(u, k));
  }

  lemma {:induction false} RightOfZero(k: nat)
    ensures Right(ZERO, k) == ZERO && ByteOf(ZERO, k) == ZERO
  {
    hide Down, Low;
    DownZero();
    if k > 0 { RightOfZero(k - 1); }
  }

  lemma RightOfOnes()
    ensures Right(ONES, 0) == ONES && Right(ONES, 1) == 0xff_ffff_ffff_ffff
    ensures Right(ONES, 2) == 0xffff_ffff_ffff && Right(ONES, 3) == 0xff_ffff_ffff
    ensures Right(ONES, 4) == 0xffff_ffff && Right(ONES, 5) == 0xff_ffff
    ensures Right(ONES, 6) == 0xffff && Right(ONES, 7) == 0xff && Right(ONES, 8) == ZERO
  {
    hide Down;
    DownOnes();
  }

  lemma ByteOfOnes(k: nat)
    ensures ByteOf(ONES, k) == if k < 8 then 0xff else ZERO
  {
    hide Down, Low, Right;
    RightOfOnes();
    LowOnes();
    if k >= 8 {
      RightTwice(ONES, 8, k - 8);
      RightOfZero(k - 8);
    }
  }

  lemma ByteOfMask(n: nat, k: nat)
    requires n <= 8
    ensures ByteOf(Mask(n), k) == if k < n then 0xff else ZERO
  {
    hide ByteOf, Right;
    ByteOfRight(ONES, 8 - n, k);
    ByteOfOnes(8 - n + k);
  }

  /** Masking keeps the lowest bytes. */
  lemma ByteOfMasked(v: bv64, n: nat, k: nat)
    requires n <= 8
    ensures ByteOf(Both(v, Mask(n)), k) == if k < n then ByteOf(v, k) else ZERO
  {
    hide Right, Both, Low, Mask;
    ByteOfBoth(v, Mask(n), k);
    ByteOfMask(n, k);
    LowWith(Right(v, k));
  }

  lemma ByteOfUp(v: bv64, k: nat)
    requires k < 8
    ensures ByteOf(Up(v), k) == if k == 0 then ZERO else ByteOf(v, k - 1)
  {
    hide ByteOf, Both, Up, Down;
    DownUp(v);
    if k > 0 {
      DownIsRight(Up(v));
      ByteOfRight(Up(v), 1, k - 1);
      RightOfOnes();
      ByteOfMasked(v, 7, k - 1);
    } else {
      ByteZero(Up(v));
    }
  }

  lemma DownIsRight(v: bv64)
    ensures Right(v, 1) == Down(v)
  {
    hide Down;
    assert Right(v, 0) == v;
  }

  lemma ByteZero(v: bv64)
    ensures ByteOf(v, 0) == Low(v)
  {
  }

  lemma {:induction false} ByteOfLeft(v: bv64, n: nat, k: nat)
    requires k < 8
    ensures ByteOf(Left(v, n), k) == if k < n then ZERO else ByteOf(v, k - n)
  {
    hide ByteOf, Up;
    if n > 0 {
      ByteOfUp(Left(v, n - 1), k);
      if k > 0 { ByteOfLeft(v, n - 1, k - 1); }
    }
  }

  lemma {:induction false} SameFrom(v: bv64, u: bv64, n: nat)
    requires n <= 8 && forall k :: 0 <= k < 8 ==> ByteOf(v, k) == ByteOf(u, k)
    ensures Right(v, n) == Right(u, n)
    decreases 8 - n
  {
    hide Down, Low;
    if n < 8 {
      SameFrom(v, u, n + 1);
      assert ByteOf(v, n) == ByteOf(u, n);
      SameDown(Right(v, n), Right(u, n));
    } else {
      AllShiftedOut(v);
      AllShiftedOut(u);
    }
  }

  lemma AllShiftedOut(v: bv64)
    ensures Right(v, 8) == ZERO
  {
    hide Down, Both, Right;
    RightOfBoth(v, ONES, 8);
    RightOfOnes();
    WithOnes(v);
    WithOnes(Right(v, 8));
  }

  /** A word is determined by its bytes. */
  lemma SameBytes(v: bv64, u: bv64)
    requires forall k :: 0 <= k < 8 ==> ByteOf(v, k) == ByteOf(u, k)
    ensures v == u
  {
    hide ByteOf, Down;
    SameFrom(v, u, 0);
  }

  /** The word with the given bytes, the lowest first. */
  function WordOf(bytes: seq<bv64>): bv64 {
    if bytes == [] then ZERO else Either(Up(WordOf(bytes[1..])), bytes[0])
  }

  /** b is a single byte. */
  predicate IsByte(b: bv64) {
    Low(b) == b && Down(b) == ZERO
  }

  lemma LowIsByte(v: bv64)
    ensures IsByte(Low(v))
  {
  }

  lemma {:induction false} ByteOfByte(b: bv64, k: nat)
    requires IsByte(b)
    ensures ByteOf(b, k) == if k == 0 then b else ZERO
  {
    hide Low, Down;
    if k > 0 {
      DownIsRight(b);
      ByteOfRight(b, 1, k - 1);
      RightOfZero(k - 1);
    } else {
      ByteZero(b);
    }
  }

  lemma {:induction false} ByteOfWord(bytes: seq<bv64>, k: nat)
    requires forall b <- bytes :: IsByte(b)
    requires k < 8
    ensures ByteOf(WordOf(bytes), k) == if k < |bytes| then bytes[k] else ZERO
    decreases |bytes|
  {
    hide ByteOf, Either, Up, IsByte;
    if bytes == [] {
      RightOfZero(k);
    } else {
      var rest := WordOf(bytes[1..]);
      ByteOfEither(Up(rest), bytes[0], k);
      ByteOfUp(rest, k);
      assert bytes[0] in bytes;
      ByteOfByte(bytes[0], k);
      if k > 0 { ByteOfWord(bytes[1..], k - 1); }
      WithZero(ByteOf(Up(rest), k), bytes[0]);
    }
  }

  lemma WithZero(v: bv64, u: bv64)
    ensures Either(v, ZERO) == v && Either(ZERO, u) == u
  {
  }
}
