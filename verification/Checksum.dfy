/** What the cursor checksum is, read from its printed text: eight hexadecimal
    digits whose four bytes are, each, an exclusive or of the character codes of
    the five printed fields. */
module Checksums {
  import opened Cursors
  import opened Words

  // ----- character codes and bytes

  /** The code of a character, as a word. */
  function Code(c: char): bv32
    requires c as int < 256
  {
    (c as int) as bv32
  }

  predicate ByteCodes(text: string) {
    forall i :: 0 <= i < |text| ==> text[i] as int < 256
  }

  /** Exclusive or of the codes at the positions from i on that are k modulo 4. */
  function LaneXor(text: string, i: nat, k: nat): bv32
    requires i <= |text| && ByteCodes(text)
    decreases |text| - i
  {
    if i == |text| then 0
    else Xor(if i % 4 == k then Code(text[i]) else 0, LaneXor(text, i + 1, k))
  }

  lemma PackValue(a: bool, b: bool, c: bool, d: bool, e: bool, f: bool, g: bool, h: bool)
    ensures Pack(a, b, c, d, e, f, g, h) as int
         == Num01(a) + 2 * Num01(b) + 4 * Num01(c) + 8 * Num01(d)
              + 16 * Num01(e) + 32 * Num01(f) + 64 * Num01(g) + 128 * Num01(h)
  {
  }

  lemma ByteValue(x: nat)
    requires x < 256
    ensures Byte(x) as int == x
  {
    hide BitAt, Pack;
    Binary(x);
    PackValue(BitAt(x, 0), BitAt(x, 1), BitAt(x, 2), BitAt(x, 3), BitAt(x, 4), BitAt(x, 5), BitAt(x, 6), BitAt(x, 7));
  }

  lemma CodeUnitIsCode(c: char)
    requires c as int < 256
    ensures CodeUnit(c) == Code(c) && CodeUnit(c) < 256
  {
    hide Byte, CodeUnit;
    SmallCode(c);
    ByteValue(c as int);
    assert (Byte(c as int) as int) as bv32 == Byte(c as int);
  }

  // ----- lanes

  lemma {:induction false} FoldPartLane(text: string, i: nat, h: bv32, k: nat)
    requires i <= |text| && ByteCodes(text) && k < 4
    ensures ByteOf(FoldPart(text, i, h), k) == Xor(ByteOf(h, k), LaneXor(text, i, k))
    decreases |text| - i
  {
    hide ByteOf, Xor, Code, CodeUnit, ToLane;
    if i == |text| {
      XorZeroRight(ByteOf(h, k));
    } else {
      var w := Lane(text[i], i);
      CodeUnitIsCode(text[i]);
      ByteOfLane(CodeUnit(text[i]), i, k);
      FoldPartLane(text, i + 1, Xor(h, w), k);
      ByteOfXor(h, w, k);
      XorAssoc(ByteOf(h, k), ByteOf(w, k), LaneXor(text, i + 1, k));
    }
  }

  lemma DecimalCodes(n: nat)
    ensures ByteCodes(Decimal(n))
  {
  }

  /** Lane k of a list of texts. */
  function LaneXorAll(parts: seq<string>, k: nat): bv32
    requires forall p :: p in parts ==> ByteCodes(p)
  {
    if parts == [] then 0 else Xor(LaneXor(parts[0], 0, k), LaneXorAll(parts[1..], k))
  }

  lemma {:induction false} FoldPartsLane(parts: seq<string>, h: bv32, k: nat)
    requires k < 4 && forall p :: p in parts ==> ByteCodes(p)
    ensures ByteOf(FoldParts(parts, h), k) == Xor(ByteOf(h, k), LaneXorAll(parts, k))
  {
    hide FoldPart, LaneXor, ByteOf, ByteCodes, Xor;
    if parts == [] {
      XorZeroRight(ByteOf(h, k));
    } else {
      var h' := FoldPart(parts[0], 0, h);
      FoldPartLane(parts[0], 0, h, k);
      FoldPartsLane(parts[1..], h', k);
      XorAssoc(ByteOf(h, k), LaneXor(parts[0], 0, k), LaneXorAll(parts[1..], k));
    }
  }

  /** Byte k of the checksum is the exclusive or, over machine hash, sequence
      number, boot id, monotonic time and time as printed, of the codes at the
      positions that are k modulo 4. */
  lemma ChecksumBytes(s: string, i: nat, b: string, m: nat, t: nat) returns (h: bv32)
    requires ByteCodes(s) && ByteCodes(b)
    ensures |XorHash(s, i, b, m, t)| == 8 && HexValue(XorHash(s, i, b, m, t)) == h as int
    ensures ByteCodes(Decimal(i)) && ByteCodes(Decimal(m)) && ByteCodes(Decimal(t))
    ensures forall k: nat :: k < 4 ==>
      ByteOf(h, k) == LaneXorAll([s, Decimal(i), b, Decimal(m), Decimal(t)], k)
  {
    hide FoldParts, HexText, Decimal, LaneXorAll, ByteOf, ByteCodes;
    DecimalCodes(i);
    DecimalCodes(m);
    DecimalCodes(t);
    h := FoldParts(Fields(s, i, b, m, t), 0);
    HexTextReads(h);
    forall k: nat | k < 4
      ensures ByteOf(h, k) == LaneXorAll([s, Decimal(i), b, Decimal(m), Decimal(t)], k)
    {
      FoldPartsLane(Fields(s, i, b, m, t), 0, k);
      ZeroByte(k);
      XorZero(LaneXorAll(Fields(s, i, b, m, t), k));
    }
  }

  /** The printed form has eight digits and reads back as the word. */
  lemma HexTextReads(h: bv32)
    ensures |HexText(h)| == 8 && HexValue(HexText(h)) == h as int
  {
    HexOfValue(h as int);
    PadValue(Hex(h as int), 8);
    HexLength(h as int, 8);
    PadLength(Hex(h as int), 8);
  }

  function Power16(width: nat): nat {
    if width == 0 then 1 else 16 * Power16(width - 1)
  }

  lemma {:induction false} HexLength(n: nat, width: nat)
    requires width > 0 && n < Power16(width)
    ensures |Hex(n)| <= width
    decreases width
  {
    if n >= 16 {
      HexLength(n / 16, width - 1);
    }
  }

  lemma {:induction false} PadLength(text: string, width: nat)
    requires |text| <= width
    ensures |PadStart(text, width)| == width
    decreases width - |text|
  {
    if |text| < width {
      PadLength("0" + text, width);
    }
  }

  // ----- one changed character

  /** Texts of equal length that differ in the character at j only. */
  predicate OneApart(p: string, q: string, j: nat) {
    && |p| == |q| && j < |p| && p[j] != q[j] && p[j] as int < 256 && q[j] as int < 256
    && forall k :: 0 <= k < |p| && k != j ==> p[k] == q[k]
  }

  lemma PartsApart(ps: seq<string>, qs: seq<string>, n: nat, q: string, j: nat)
    requires n < |ps| && qs == ps[n := q] && OneApart(ps[n], q, j)
    ensures OneCharApart(ps, qs, n, j)
  {
  }

  /** One changed character of one field, at equal printed length, changes the
      checksum, and a minted cursor changed so is rejected: machine hash, ... */
  lemma MachineChangesHash(s: string, i: nat, b: string, m: nat, t: nat, s': string, j: nat)
    requires OneApart(s, s', j)
    ensures XorHash(s, i, b, m, t) != XorHash(s', i, b, m, t)
    ensures !Valid(Parsed(Mint(s, i, b, m, t)).(s := s'))
  {
    hide XorHash, Decimal, OneApart, OneCharApart;
    PartsApart(Fields(s, i, b, m, t), Fields(s', i, b, m, t), 0, s', j);
    OneCharChangesHash(s, i, b, m, t, s', i, b, m, t, 0, j);
  }

  /** ... sequence number, ... */
  lemma SequenceChangesHash(s: string, i: nat, b: string, m: nat, t: nat, i': nat, j: nat)
    requires OneApart(Decimal(i), Decimal(i'), j)
    ensures XorHash(s, i, b, m, t) != XorHash(s, i', b, m, t)
    ensures !Valid(Parsed(Mint(s, i, b, m, t)).(i := Natural(i')))
  {
    hide XorHash, Decimal, OneApart, OneCharApart;
    PartsApart(Fields(s, i, b, m, t), Fields(s, i', b, m, t), 1, Decimal(i'), j);
    OneCharChangesHash(s, i, b, m, t, s, i', b, m, t, 1, j);
  }

  /** ... boot id, ... */
  lemma BootChangesHash(s: string, i: nat, b: string, m: nat, t: nat, b': string, j: nat)
    requires OneApart(b, b', j)
    ensures XorHash(s, i, b, m, t) != XorHash(s, i, b', m, t)
    ensures !Valid(Parsed(Mint(s, i, b, m, t)).(b := b'))
  {
    hide XorHash, Decimal, OneApart, OneCharApart;
    PartsApart(Fields(s, i, b, m, t), Fields(s, i, b', m, t), 2, b', j);
    OneCharChangesHash(s, i, b, m, t, s, i, b', m, t, 2, j);
  }

  /** ... monotonic time, ... */
  lemma MonotonicChangesHash(s: string, i: nat, b: string, m: nat, t: nat, m': nat, j: nat)
    requires OneApart(Decimal(m), Decimal(m'), j)
    ensures XorHash(s, i, b, m, t) != XorHash(s, i, b, m', t)
    ensures !Valid(Parsed(Mint(s, i, b, m, t)).(m := Natural(m')))
  {
    hide XorHash, Decimal, OneApart, OneCharApart;
    PartsApart(Fields(s, i, b, m, t), Fields(s, i, b, m', t), 3, Decimal(m'), j);
    OneCharChangesHash(s, i, b, m, t, s, i, b, m', t, 3, j);
  }

  /** ... and time. */
  lemma TimeChangesHash(s: string, i: nat, b: string, m: nat, t: nat, t': nat, j: nat)
    requires OneApart(Decimal(t), Decimal(t'), j)
    ensures XorHash(s, i, b, m, t) != XorHash(s, i, b, m, t')
    ensures !Valid(Parsed(Mint(s, i, b, m, t)).(t := Natural(t')))
  {
    hide XorHash, Decimal, OneApart, OneCharApart;
    PartsApart(Fields(s, i, b, m, t), Fields(s, i, b, m, t'), 4, Decimal(t'), j);
    OneCharChangesHash(s, i, b, m, t, s, i, b, m, t', 4, j);
  }

  /** The printed form, on an example with every field different. */
  lemma PrintedExample()
    ensures Encode(Cursor("a", 12, "b", 3, 450, "c")) == "s=a;i=12;b=b;m=3;t=450;x=c"
  {
  }

  /** A text with one field. */
  lemma OneField(key: string, value: string)
    requires Clean(key) && Clean(value)
    ensures ToMap(Split(key + "=" + value, ';')) == map[key := value]
  {
    hide Split, SplitPair, ToMap;
    SplitWhole(key + "=" + value, ';');
    PairOf(key, value);
    ToMapNone();
    assert [] + [key + "=" + value] == [key + "=" + value];
    ToMapAdd([], key + "=" + value);
  }

  /** Numbers that are never printed: absent ones, empty text, leading zeros, and
      text that is no number. */
  lemma ParsedNumbers()
    ensures Decode("").i == OtherNumber && Decode("i=").i == Natural(0)
    ensures Decode("i=07").i == Natural(7) && Decode("i=x").i == OtherNumber
  {
    hide Split, ToMap;
    SplitWhole("", ';');
    OneField("i", "");
    OneField("i", "07");
    OneField("i", "x");
    assert "i" + "=" + "" == "i=" && "i" + "=" + "07" == "i=07" && "i" + "=" + "x" == "i=x";
    ToMapNone();
    ToMapAdd([], "");
    assert [] + [""] == [""];
    assert SplitPair("") == ("", "") by { SplitWhole("", '='); }
    assert "07"[..1] == "0" && "0"[..0] == "";
    assert DigitsValue("0") == 0;
  }

  /** Texts that are never printed: the last of two equal keys wins, a second equals
      sign cuts the value short, and other keys are skipped. */
  lemma ParsedTexts()
    ensures Decode("s=a;s=b").s == "b" && Decode("s=a=b").s == "a" && Decode("k=1;s=a").s == "a"
  {
    hide Split, ToMap;
    SplitFirst("s=a", ';', "s=b");
    SplitWhole("s=b", ';');
    SplitFirst("k=1", ';', "s=a");
    SplitWhole("s=a", ';');
    SplitWhole("s=a=b", ';');
    SplitFirst("s", '=', "a=b");
    SplitFirst("a", '=', "b");
    PairOf("s", "a");
    PairOf("s", "b");
    PairOf("k", "1");
    ToMapNone();
    ToMapAdd([], "s=a");
    ToMapAdd(["s=a"], "s=b");
    ToMapAdd([], "k=1");
    ToMapAdd(["k=1"], "s=a");
    ToMapAdd([], "s=a=b");
    assert "s" + "=" + "a" == "s=a" && "s" + "=" + "b" == "s=b" && "k" + "=" + "1" == "k=1";
    assert "s=a" + ";" + "s=b" == "s=a;s=b" && "k=1" + ";" + "s=a" == "k=1;s=a";
    assert "s" + "=" + "a=b" == "s=a=b" && "a" + "=" + "b" == "a=b";
    assert [] + ["s=a"] == ["s=a"] && [] + ["k=1"] == ["k=1"] && [] + ["s=a=b"] == ["s=a=b"];
    assert ["s=a"] + ["s=b"] == ["s=a", "s=b"] && ["k=1"] + ["s=a"] == ["k=1", "s=a"];
  }
}
