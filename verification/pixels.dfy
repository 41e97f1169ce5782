/** 32-bit pixel words as Java `int`s: byte access, Java's sign-extending
    shift, the red/blue swap used after a GL readback, and the two byte
    orders in which an `IntBuffer` lays an `int` out in memory. */
module Pixels {

  /** A Java `int` read as a bit pattern. */
  type Word = bv32

  /** A Java `int` read as a signed number. */
  type Int32 = x: int | -0x8000_0000 <= x < 0x8000_0000

  /** Byte `k` of a word, byte 0 being the least significant. */
  function ByteOf(p: Word, k: nat): bv8
    requires k < 4
  {
    if k == 0 then (p & 0xff) as bv8
    else if k == 1 then ((p >> 8) & 0xff) as bv8
    else if k == 2 then ((p >> 16) & 0xff) as bv8
    else ((p >> 24) & 0xff) as bv8
  }

  /** The word whose bytes, least significant first, are b0, b1, b2, b3. */
  function FromBytes(b0: bv8, b1: bv8, b2: bv8, b3: bv8): (p: Word)
    ensures ByteOf(p, 0) == b0 && ByteOf(p, 1) == b1
    ensures ByteOf(p, 2) == b2 && ByteOf(p, 3) == b3
  {
    (b3 as Word << 24) | (b2 as Word << 16) | (b1 as Word << 8) | b0 as Word
  }

  /** Two words are equal exactly when their four bytes are. */
  lemma BytesDetermineWord(p: Word, q: Word)
    requires forall k :: 0 <= k < 4 ==> ByteOf(p, k) == ByteOf(q, k)
    ensures p == q
  {
    assert ByteOf(p, 0) == ByteOf(q, 0);
    assert ByteOf(p, 1) == ByteOf(q, 1);
    assert ByteOf(p, 2) == ByteOf(q, 2);
    assert ByteOf(p, 3) == ByteOf(q, 3);
  }

  /** Java's `p >> n` on an `int`: the vacated high bits copy the sign bit,
      zeros for a non-negative word and ones for a negative one. */
  function ArithShiftRight(p: Word, n: nat): (r: Word)
    requires n < 32
    ensures p & 0x8000_0000 == 0 ==> r == p >> n
    ensures p & 0x8000_0000 != 0 ==> r & !(0xffff_ffff >> n) == !(0xffff_ffff >> n)
  {
    if p & 0x8000_0000 == 0 then p >> n
    else (p >> n) | !(0xffff_ffff >> n)
  }

  /** The readback correction of one pixel, written with the source's masks:
      `(pix & 0xff00ff00) | ((pix << 16) & 0x00ff0000) | ((pix >> 16) & 0xff)`
      where `>>` is Java's signed shift. */
  function Swizzle(p: Word): (r: Word)
    ensures ByteOf(r, 0) == ByteOf(p, 2)
    ensures ByteOf(r, 1) == ByteOf(p, 1)
    ensures ByteOf(r, 2) == ByteOf(p, 0)
    ensures ByteOf(r, 3) == ByteOf(p, 3)
  {
    var pb := ArithShiftRight(p, 16) & 0x0000_00ff;
    var pr := (p << 16) & 0x00ff_0000;
    (p & 0xff00_ff00) | pr | pb
  }

  /** The swap of bytes 0 and 2 undoes itself. */
  lemma SwizzleInvolution(p: Word)
    ensures Swizzle(Swizzle(p)) == p
  {
    var q := Swizzle(Swizzle(p));
    forall k | 0 <= k < 4
      ensures ByteOf(q, k) == ByteOf(p, k)
    {
    }
    BytesDetermineWord(q, p);
  }

  /** The sign of the pixel does not matter: masking the signed shift to one
      byte gives the same as an unsigned shift would. */
  lemma SignedShiftMasked(p: Word)
    ensures ArithShiftRight(p, 16) & 0xff == (p >> 16) & 0xff
  {
  }

  /** A colour in Android's `ARGB_8888` int layout: alpha in the top byte,
      then red, green, blue. */
  function Argb(a: bv8, r: bv8, g: bv8, b: bv8): Word
  {
    FromBytes(b, g, r, a)
  }

  /** `glReadPixels` with `GL_RGBA`/`GL_UNSIGNED_BYTE` stores the bytes R, G,
      B, A in that memory order; read back through an `int` in little-endian
      order they form the word with R as its least significant byte. The
      swizzle turns that word into Android's ARGB layout. */
  lemma SwizzleRgbaToArgb(r: bv8, g: bv8, b: bv8, a: bv8)
    ensures Swizzle(FromBytes(r, g, b, a)) == Argb(a, r, g, b)
  {
    var p := FromBytes(r, g, b, a);
    forall k | 0 <= k < 4
      ensures ByteOf(Swizzle(p), k) == ByteOf(Argb(a, r, g, b), k)
    {
    }
    BytesDetermineWord(Swizzle(p), Argb(a, r, g, b));
  }

  /** The bytes a big-endian `IntBuffer` view writes for one `int`: most
      significant byte first. */
  function BigEndianBytes(p: Word): (bs: seq<bv8>)
    ensures |bs| == 4
    ensures forall k :: 0 <= k < 4 ==> bs[k] == ByteOf(p, 3 - k)
  {
    [ByteOf(p, 3), ByteOf(p, 2), ByteOf(p, 1), ByteOf(p, 0)]
  }

  /** The contents of a direct `ByteBuffer` after `asIntBuffer().put(...)` of
      each word in turn (the default byte order of a `ByteBuffer` is
      big-endian). */
  function IntsToBytes(ws: seq<Word>): (bs: seq<bv8>)
    ensures |bs| == 4 * |ws|
  {
    if ws == [] then [] else BigEndianBytes(ws[0]) + IntsToBytes(ws[1..])
  }

  /** Reading a big-endian byte buffer back as `int`s. */
  function BytesToInts(bs: seq<bv8>): (ws: seq<Word>)
    requires |bs| % 4 == 0
    ensures |ws| == |bs| / 4
  {
    if bs == [] then [] else [FromBytes(bs[3], bs[2], bs[1], bs[0])] + BytesToInts(bs[4..])
  }

  /** Every word occupies its own four bytes, most significant first. */
  lemma {:induction false} IntsToBytesAt(ws: seq<Word>, i: nat, k: nat)
    requires i < |ws| && k < 4
    ensures IntsToBytes(ws)[4 * i + k] == ByteOf(ws[i], 3 - k)
  {
    if i > 0 {
      IntsToBytesAt(ws[1..], i - 1, k);
    }
  }

  /** Decoding the bytes of an `IntBuffer` gives back the words written. */
  lemma {:induction false} IntsBytesRoundTrip(ws: seq<Word>)
    ensures BytesToInts(IntsToBytes(ws)) == ws
  {
    if ws != [] {
      var bs := IntsToBytes(ws);
      assert bs[4..] == IntsToBytes(ws[1..]);
      IntsBytesRoundTrip(ws[1..]);
      var p := ws[0];
      var q := FromBytes(bs[3], bs[2], bs[1], bs[0]);
      forall k | 0 <= k < 4
        ensures ByteOf(q, k) == ByteOf(p, k)
      {
      }
      BytesDetermineWord(q, p);
    }
  }
}
