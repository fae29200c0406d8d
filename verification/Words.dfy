/** Words of 32 bits: exclusive or, byte lanes. */
module Words {

  function Xor(a: bv32, b: bv32): bv32 { a ^ b }

  /** Shift to the byte lane of a position, dropping what leaves the word. */
  function ToLane(w: bv32, i: nat): bv32 {
    if i % 4 == 0 then w else if i % 4 == 1 then w << 8 else if i % 4 == 2 then w << 16 else w << 24
  }

  lemma XorAssoc(a: bv32, b: bv32, c: bv32)
    ensures Xor(Xor(a, b), c) == Xor(a, Xor(b, c))
  {
  }

  lemma XorComm(a: bv32, b: bv32)
    ensures Xor(a, b) == Xor(b, a)
  {
  }

  lemma XorSwap(a: bv32, b: bv32, c: bv32)
    ensures Xor(Xor(a, b), c) == Xor(Xor(a, c), b)
  {
    hide Xor;
    XorAssoc(a, b, c);
    XorComm(b, c);
    XorAssoc(a, c, b);
  }

  lemma XorCancel(a: bv32, b: bv32)
    ensures Xor(a, Xor(a, b)) == b
  {
  }

  lemma XorZero(h: bv32)
    ensures Xor(0, h) == h
  {
  }

  lemma LaneInjective(a: bv32, b: bv32, i: nat)
    requires a < 256 && b < 256 && a != b
    ensures ToLane(a, i) != ToLane(b, i)
  {
  }

  /** Byte k of a word, byte 0 the lowest. */
  function ByteOf(h: bv32, k: nat): bv32 {
    if k == 0 then h & 0xFF
    else if k == 1 then (h >> 8) & 0xFF
    else if k == 2 then (h >> 16) & 0xFF
    else (h >> 24) & 0xFF
  }

  lemma ByteXor0(a: bv32, b: bv32)
    ensures ByteOf(Xor(a, b), 0) == Xor(ByteOf(a, 0), ByteOf(b, 0))
  {
  }

  lemma ByteXor1(a: bv32, b: bv32)
    ensures ByteOf(Xor(a, b), 1) == Xor(ByteOf(a, 1), ByteOf(b, 1))
  {
  }

  lemma ByteXor2(a: bv32, b: bv32)
    ensures ByteOf(Xor(a, b), 2) == Xor(ByteOf(a, 2), ByteOf(b, 2))
  {
  }

  lemma ByteXor3(a: bv32, b: bv32)
    ensures ByteOf(Xor(a, b), 3) == Xor(ByteOf(a, 3), ByteOf(b, 3))
  {
  }

  lemma ByteOfXor(a: bv32, b: bv32, k: nat)
    requires k < 4
    ensures ByteOf(Xor(a, b), k) == Xor(ByteOf(a, k), ByteOf(b, k))
  {
    hide ByteOf, Xor;
    if k == 0 {
      ByteXor0(a, b);
    } else if k == 1 {
      ByteXor1(a, b);
    } else if k == 2 {
      ByteXor2(a, b);
    } else {
      ByteXor3(a, b);
    }
  }

  lemma ByteOfLane(w: bv32, i: nat, k: nat)
    requires w < 256 && k < 4
    ensures ByteOf(ToLane(w, i), k) == if i % 4 == k then w else 0
  {
    LaneOfRest(w, i % 4, k);
  }

  lemma LaneOfRest(w: bv32, r: nat, k: nat)
    requires w < 256 && k < 4 && r < 4
    ensures ByteOf(if r == 0 then w else if r == 1 then w << 8 else if r == 2 then w << 16 else w << 24, k)
         == if r == k then w else 0
  {
  }

  lemma XorZeroRight(a: bv32)
    ensures Xor(a, 0) == a
  {
  }

  lemma ZeroByte(k: nat)
    ensures ByteOf(0, k) == 0
  {
  }
}
