/** Log cursors: the printed form, the parser, and the checksum. */
module Cursors {
  import opened Collections
  import opened Words

  datatype Cursor = Cursor(s: string, i: nat, b: string, m: nat, t: nat, x: string)

  /** A number read from text: a natural, or something this model does not
      evaluate (NaN, signs, fractions, exponents, blanks). */
  datatype Num = Natural(value: nat) | OtherNumber

  datatype Decoded = Decoded(s: string, i: Num, b: string, m: Num, t: Num, x: string)

  // ----- printing

  function Digit(d: nat): char
    requires d < 10
  {
    '0' + d as char
  }

  /** Decimal text without leading zeros. */
  function Decimal(n: nat): (r: string)
    ensures r != [] && forall i :: 0 <= i < |r| ==> '0' <= r[i] <= '9'
  {
    if n < 10 then [Digit(n)] else Decimal(n / 10) + [Digit(n % 10)]
  }

  function Encode(c: Cursor): string {
    "s=" + c.s + ";" + ("i=" + Decimal(c.i) + ";" + ("b=" + c.b + ";" +
      ("m=" + Decimal(c.m) + ";" + ("t=" + Decimal(c.t) + ";" + ("x=" + c.x)))))
  }

  // ----- parsing

  /** The pieces between separators; one empty piece for the empty text. */
  function Split(text: string, sep: char): (pieces: seq<string>)
    ensures pieces != []
    ensures forall p :: p in pieces ==> sep !in p
  {
    if text == [] then [[]]
    else
      var rest := Split(text[1..], sep);
      if text[0] == sep then [[]] + rest else [[text[0]] + rest[0]] + rest[1..]
  }

  /** The first two pieces around '=', the second empty when there is none. */
  function SplitPair(piece: string): (string, string) {
    var kv := Split(piece, '=');
    (kv[0], if |kv| > 1 then kv[1] else [])
  }

  /** Later keys replace earlier ones. */
  function ToMap(pieces: seq<string>): map<string, string> {
    if pieces == [] then map[]
    else
      var (k, v) := SplitPair(pieces[|pieces| - 1]);
      ToMap(pieces[..|pieces| - 1])[k := v]
  }

  predicate IsDigits(text: string) {
    forall i :: 0 <= i < |text| ==> '0' <= text[i] <= '9'
  }

  function DigitsValue(text: string): nat
    requires IsDigits(text)
  {
    if text == [] then 0
    else
      var last := text[|text| - 1];
      DigitsValue(text[..|text| - 1]) * 10 + (last as int - '0' as int)
  }

  /** Numbers of absent keys are not numbers; empty text counts as zero. */
  function ToNumber(text: Option<string>): Num {
    if text.Some? && IsDigits(text.value) then Natural(DigitsValue(text.value)) else OtherNumber
  }

  function Get(m: map<string, string>, key: string): Option<string> {
    if key in m then Some(m[key]) else None
  }

  function TextOf(text: Option<string>): string {
    match text
    case Some(v) => v
    case None => []
  }

  function Decode(raw: string): Decoded {
    var m := ToMap(Split(raw, ';'));
    Decoded(TextOf(Get(m, "s")), ToNumber(Get(m, "i")), TextOf(Get(m, "b")),
            ToNumber(Get(m, "m")), ToNumber(Get(m, "t")), TextOf(Get(m, "x")))
  }

  // ----- round trip

  predicate Clean(text: string) {
    ';' !in text && '=' !in text
  }

  function Parsed(c: Cursor): Decoded {
    Decoded(c.s, Natural(c.i), c.b, Natural(c.m), Natural(c.t), c.x)
  }

  lemma {:induction false} SplitWhole(text: string, sep: char)
    requires sep !in text
    ensures Split(text, sep) == [text]
  {
    if text != [] {
      assert forall c :: c in text[1..] ==> c in text;
      SplitWhole(text[1..], sep);
      assert [text[0]] + text[1..] == text;
    }
  }

  lemma {:induction false} SplitFirst(head: string, sep: char, tail: string)
    requires sep !in head
    ensures Split(head + [sep] + tail, sep) == [head] + Split(tail, sep)
  {
    var text := head + [sep] + tail;
    if head == [] {
      assert text == [sep] + tail && text[1..] == tail;
    } else {
      assert forall c :: c in head[1..] ==> c in head;
      SplitFirst(head[1..], sep, tail);
      assert text[1..] == head[1..] + [sep] + tail;
      assert [head[0]] + head[1..] == head;
    }
  }

  lemma PairOf(key: string, value: string)
    requires '=' !in key && '=' !in value
    ensures SplitPair(key + "=" + value) == (key, value)
  {
    SplitFirst(key, '=', value);
    SplitWhole(value, '=');
  }

  lemma DigitsAreClean(text: string)
    requires IsDigits(text)
    ensures Clean(text)
  {
  }

  lemma {:induction false} DecimalValue(n: nat)
    ensures IsDigits(Decimal(n)) && DigitsValue(Decimal(n)) == n
  {
    if n >= 10 {
      DecimalValue(n / 10);
      assert Decimal(n)[..|Decimal(n)| - 1] == Decimal(n / 10);
    } else {
      assert Decimal(n)[..0] == [];
    }
  }

  /** The six fields of the printed form, as the parser sees them. */
  lemma EncodedPieces(c: Cursor)
    requires Clean(c.s) && ';' !in c.b && Clean(c.x)
    ensures Split(Encode(c), ';') ==
      ["s=" + c.s, "i=" + Decimal(c.i), "b=" + c.b, "m=" + Decimal(c.m), "t=" + Decimal(c.t), "x=" + c.x]
  {
    hide Split, Decimal;
    DigitsAreClean(Decimal(c.i));
    DigitsAreClean(Decimal(c.m));
    DigitsAreClean(Decimal(c.t));
    var x := "x=" + c.x;
    var t := "t=" + Decimal(c.t);
    var m := "m=" + Decimal(c.m);
    var b := "b=" + c.b;
    var i := "i=" + Decimal(c.i);
    var s := "s=" + c.s;
    var t' := t + ";" + x;
    var m' := m + ";" + t';
    var b' := b + ";" + m';
    var i' := i + ";" + b';
    SplitWhole(x, ';');
    SplitFirst(t, ';', x);
    SplitFirst(m, ';', t');
    SplitFirst(b, ';', m');
    SplitFirst(i, ';', b');
    SplitFirst(s, ';', i');
    assert Encode(c) == s + ";" + i';
    assert [s] + ([i] + ([b] + ([m] + ([t] + [x])))) == [s, i, b, m, t, x];
  }

  lemma ToMapAdd(pieces: seq<string>, piece: string)
    ensures ToMap(pieces + [piece]) == ToMap(pieces)[SplitPair(piece).0 := SplitPair(piece).1]
  {
  }

  lemma ToMapSix(s: string, i: string, piece: string, b: string, m: string, t: string, x: string)
    requires '=' !in s && '=' !in i && SplitPair(piece) == ("b", b) && '=' !in m && '=' !in t && '=' !in x
    ensures ToMap(["s=" + s, "i=" + i, piece, "m=" + m, "t=" + t, "x=" + x])
         == map["s" := s, "i" := i, "b" := b, "m" := m, "t" := t, "x" := x]
  {
    hide SplitPair, ToMap;
    assert "s" + "=" == "s=" && "i" + "=" == "i=";
    assert "m" + "=" == "m=" && "t" + "=" == "t=" && "x" + "=" == "x=";
    PairOf("s", s);
    PairOf("i", i);
    PairOf("m", m);
    PairOf("t", t);
    PairOf("x", x);
    var l1 := ["s=" + s];
    var l2 := l1 + ["i=" + i];
    var l3 := l2 + [piece];
    var l4 := l3 + ["m=" + m];
    var l5 := l4 + ["t=" + t];
    ToMapNone();
    assert [] + ["s=" + s] == l1;
    ToMapAdd([], "s=" + s);
    ToMapAdd(l1, "i=" + i);
    ToMapAdd(l2, piece);
    ToMapAdd(l3, "m=" + m);
    ToMapAdd(l4, "t=" + t);
    ToMapAdd(l5, "x=" + x);
    assert l5 + ["x=" + x] == ["s=" + s, "i=" + i, piece, "m=" + m, "t=" + t, "x=" + x];
  }

  lemma ToMapNone()
    ensures ToMap([]) == map[]
  {
  }

  lemma {:induction false} ToMapClean(pieces: seq<string>)
    requires forall p :: p in pieces ==> ';' !in p
    ensures forall k :: k in ToMap(pieces) ==> Clean(ToMap(pieces)[k])
  {
    if pieces != [] {
      var last := pieces[|pieces| - 1];
      ToMapClean(pieces[..|pieces| - 1]);
      SplitWithin(last, '=', ';');
    }
  }

  lemma {:induction false} SplitWithin(text: string, sep: char, c: char)
    requires c !in text
    ensures forall p :: p in Split(text, sep) ==> c !in p
  {
    if text != [] {
      assert forall x :: x in text[1..] ==> x in text;
      SplitWithin(text[1..], sep, c);
    }
  }

  lemma CleanRoundTrip(c: Cursor)
    requires Clean(c.s) && Clean(c.b) && Clean(c.x)
    ensures Decode(Encode(c)) == Parsed(c)
  {
    hide Encode, Split, ToMap, Decimal, DigitsValue;
    EncodedPieces(c);
    DecimalValue(c.i);
    DecimalValue(c.m);
    DecimalValue(c.t);
    DigitsAreClean(Decimal(c.i));
    DigitsAreClean(Decimal(c.m));
    DigitsAreClean(Decimal(c.t));
    assert "b" + "=" == "b=";
    PairOf("b", c.b);
    ToMapSix(c.s, Decimal(c.i), "b=" + c.b, c.b, Decimal(c.m), Decimal(c.t), c.x);
  }

  /** Parsed text fields never contain a separator. */
  lemma DecodedClean(raw: string)
    ensures Clean(Decode(raw).s) && Clean(Decode(raw).b) && Clean(Decode(raw).x)
  {
    ToMapClean(Split(raw, ';'));
  }

  /** Parsing undoes printing exactly for cursors whose text fields contain
      neither separator. */
  lemma RoundTrip(c: Cursor)
    ensures Decode(Encode(c)) == Parsed(c) <==> Clean(c.s) && Clean(c.b) && Clean(c.x)
  {
    hide Encode, Decode, Clean;
    DecodedClean(Encode(c));
    if Clean(c.s) && Clean(c.b) && Clean(c.x) {
      CleanRoundTrip(c);
    }
  }

  // ----- checksum

  function Pack(a: bool, b: bool, c: bool, d: bool, e: bool, f: bool, g: bool, h: bool): bv32 {
    Bit(a, 1) | Bit(b, 2) | Bit(c, 4) | Bit(d, 8) | Bit(e, 16) | Bit(f, 32) | Bit(g, 64) | Bit(h, 128)
  }

  function Bit(b: bool, w: bv32): bv32 { if b then w else 0 }

  /** Binary digit k of a number, for the eight lowest digits. */
  function BitAt(x: nat, k: nat): bool {
    if k == 0 then x % 2 == 1
    else if k == 1 then x / 2 % 2 == 1
    else if k == 2 then x / 2 / 2 % 2 == 1
    else if k == 3 then x / 2 / 2 / 2 % 2 == 1
    else if k == 4 then x / 2 / 2 / 2 / 2 % 2 == 1
    else if k == 5 then x / 2 / 2 / 2 / 2 / 2 % 2 == 1
    else if k == 6 then x / 2 / 2 / 2 / 2 / 2 / 2 % 2 == 1
    else x / 2 / 2 / 2 / 2 / 2 / 2 / 2 % 2 == 1
  }

  /** The low byte of a number. */
  function Byte(x: nat): bv32 {
    Pack(BitAt(x, 0), BitAt(x, 1), BitAt(x, 2), BitAt(x, 3), BitAt(x, 4), BitAt(x, 5), BitAt(x, 6), BitAt(x, 7))
  }

  /** The 16-bit code of a character, as a 32-bit word. */
  function CodeUnit(c: char): bv32 {
    (Byte(c as int / 256) << 8) | Byte(c as int)
  }

  function Lane(c: char, i: nat): bv32 { ToLane(CodeUnit(c), i) }

  /** Fold the characters of a part, from position i on, into the checksum. */
  function FoldPart(part: string, i: nat, h: bv32): bv32
    requires i <= |part|
    decreases |part| - i
  {
    if i == |part| then h else FoldPart(part, i + 1, Xor(h, Lane(part[i], i)))
  }

  function FoldParts(parts: seq<string>, h: bv32): bv32 {
    if parts == [] then h else FoldParts(parts[1..], FoldPart(parts[0], 0, h))
  }

  function HexDigit(d: nat): char
    requires d < 16
  {
    if d < 10 then '0' + d as char else 'a' + (d - 10) as char
  }

  /** Hexadecimal text without leading zeros. */
  function Hex(n: nat): (r: string)
    ensures r != [] && Clean(r)
  {
    if n < 16 then [HexDigit(n)] else Hex(n / 16) + [HexDigit(n % 16)]
  }

  function PadStart(text: string, width: nat): (r: string)
    ensures |r| >= width && (Clean(text) ==> Clean(r))
    decreases width - |text|
  {
    if |text| >= width then text else PadStart("0" + text, width)
  }

  function HexText(h: bv32): string { PadStart(Hex(h as int), 8) }

  /** The printed fields that the checksum covers. */
  function Fields(s: string, i: nat, b: string, m: nat, t: nat): seq<string> {
    [s, Decimal(i), b, Decimal(m), Decimal(t)]
  }

  function XorHash(s: string, i: nat, b: string, m: nat, t: nat): string {
    HexText(FoldParts(Fields(s, i, b, m, t), 0))
  }

  /** The loops of the checksum, as the fold above. */
  method ComputeXorHash(s: string, i: nat, b: string, m: nat, t: nat) returns (x: string)
    ensures x == XorHash(s, i, b, m, t)
  {
    var parts := Fields(s, i, b, m, t);
    var h: bv32 := 0;
    var p := 0;
    while p < |parts|
      invariant 0 <= p <= |parts|
      invariant FoldParts(parts[p..], h) == FoldParts(parts, 0)
    {
      var part := parts[p];
      ghost var h0 := h;
      var k := 0;
      while k < |part|
        invariant 0 <= k <= |part|
        invariant FoldPart(part, k, h) == FoldPart(part, 0, h0)
      {
        h := Xor(h, Lane(part[k], k));
        k := k + 1;
      }
      assert parts[p..][1..] == parts[p + 1..];
      p := p + 1;
    }
    x := HexText(h);
  }

  // ----- the checksum tells apart single changed characters

  lemma {:induction false} FoldPartShift(part: string, i: nat, h: bv32, d: bv32)
    requires i <= |part|
    ensures FoldPart(part, i, Xor(h, d)) == Xor(FoldPart(part, i, h), d)
    decreases |part| - i
  {
    hide Xor, Lane;
    if i < |part| {
      XorSwap(h, d, Lane(part[i], i));
      FoldPartShift(part, i + 1, Xor(h, Lane(part[i], i)), d);
    }
  }

  lemma {:induction false} FoldPartsShift(parts: seq<string>, h: bv32, d: bv32)
    ensures FoldParts(parts, Xor(h, d)) == Xor(FoldParts(parts, h), d)
  {
    hide Xor, Lane, FoldPart;
    if parts != [] {
      FoldPartShift(parts[0], 0, h, d);
      FoldPartsShift(parts[1..], FoldPart(parts[0], 0, h), d);
    }
  }

  lemma PackInjective(a: bool, b: bool, c: bool, d: bool, e: bool, f: bool, g: bool, h: bool,
                      a': bool, b': bool, c': bool, d': bool, e': bool, f': bool, g': bool, h': bool)
    requires Pack(a, b, c, d, e, f, g, h) == Pack(a', b', c', d', e', f', g', h')
    ensures a == a' && b == b' && c == c' && d == d' && e == e' && f == f' && g == g' && h == h'
  {
  }

  function Num01(b: bool): nat { if b then 1 else 0 }

  lemma Binary(x: nat)
    requires x < 256
    ensures x == Num01(BitAt(x, 0)) + 2 * Num01(BitAt(x, 1)) + 4 * Num01(BitAt(x, 2)) + 8 * Num01(BitAt(x, 3))
              + 16 * Num01(BitAt(x, 4)) + 32 * Num01(BitAt(x, 5)) + 64 * Num01(BitAt(x, 6)) + 128 * Num01(BitAt(x, 7))
  {
    var x1 := x / 2;
    var x2 := x1 / 2;
    var x3 := x2 / 2;
    var x4 := x3 / 2;
    var x5 := x4 / 2;
    var x6 := x5 / 2;
    var x7 := x6 / 2;
    assert x == 2 * x1 + Num01(BitAt(x, 0));
    assert x1 == 2 * x2 + Num01(BitAt(x, 1));
    assert x2 == 2 * x3 + Num01(BitAt(x, 2));
    assert x3 == 2 * x4 + Num01(BitAt(x, 3));
    assert x4 == 2 * x5 + Num01(BitAt(x, 4));
    assert x5 == 2 * x6 + Num01(BitAt(x, 5));
    assert x6 == 2 * x7 + Num01(BitAt(x, 6));
    assert x7 == Num01(BitAt(x, 7));
  }

  lemma ByteInjective(x: nat, y: nat)
    requires x < 256 && y < 256 && Byte(x) == Byte(y)
    ensures x == y
  {
    hide Pack, BitAt;
    Binary(x);
    Binary(y);
    PackInjective(BitAt(x, 0), BitAt(x, 1), BitAt(x, 2), BitAt(x, 3),
                  BitAt(x, 4), BitAt(x, 5), BitAt(x, 6), BitAt(x, 7),
                  BitAt(y, 0), BitAt(y, 1), BitAt(y, 2), BitAt(y, 3),
                  BitAt(y, 4), BitAt(y, 5), BitAt(y, 6), BitAt(y, 7));
  }

  lemma ByteSmall(x: nat)
    ensures Byte(x) < 256
  {
  }

  lemma ByteZero()
    ensures Byte(0) == 0
  {
    hide Pack;
    assert !BitAt(0, 0) && !BitAt(0, 1) && !BitAt(0, 2) && !BitAt(0, 3);
    assert !BitAt(0, 4) && !BitAt(0, 5) && !BitAt(0, 6) && !BitAt(0, 7);
    PackZero();
  }

  lemma PackZero()
    ensures Pack(false, false, false, false, false, false, false, false) == 0
  {
  }

  lemma OrZero(w: bv32)
    ensures (0 as bv32 << 8) | w == w
  {
  }

  lemma SmallCode(c: char)
    requires c as int < 256
    ensures CodeUnit(c) == Byte(c as int) && CodeUnit(c) < 256
  {
    hide Byte;
    assert c as int / 256 == 0;
    ByteSmall(c as int);
    ByteZero();
    OrZero(Byte(c as int));
  }

  lemma LanesDiffer(a: char, b: char, i: nat)
    requires a != b && a as int < 256 && b as int < 256
    ensures Lane(a, i) != Lane(b, i)
  {
    hide CodeUnit, ToLane, Byte;
    SmallCode(a);
    SmallCode(b);
    if Byte(a as int) == Byte(b as int) {
      ByteInjective(a as int, b as int);
    }
    LaneInjective(CodeUnit(a), CodeUnit(b), i);
  }

  /** The checksum of two texts that agree except in one character differs. */
  lemma {:induction false} FoldPartDiffers(p: string, q: string, j: nat, i: nat, h: bv32)
    requires |p| == |q| && i <= j < |p| && p[j] != q[j] && p[j] as int < 256 && q[j] as int < 256
    requires forall k :: 0 <= k < |p| && k != j ==> p[k] == q[k]
    ensures FoldPart(p, i, h) != FoldPart(q, i, h)
    decreases j - i
  {
    hide Xor, Lane;
    if i < j {
      FoldPartDiffers(p, q, j, i + 1, Xor(h, Lane(p[i], i)));
    } else {
      var a, b := Lane(p[j], j), Lane(q[j], j);
      LanesDiffer(p[j], q[j], j);
      FoldPartAgree(p, q, j + 1, h);
      FoldPartShift(p, j + 1, h, a);
      FoldPartShift(q, j + 1, h, b);
      XorCancel(FoldPart(p, j + 1, h), a);
      XorCancel(FoldPart(p, j + 1, h), b);
    }
  }

  lemma {:induction false} FoldPartAgree(p: string, q: string, i: nat, h: bv32)
    requires |p| == |q| && i <= |p|
    requires forall k :: i <= k < |p| ==> p[k] == q[k]
    ensures FoldPart(p, i, h) == FoldPart(q, i, h)
    decreases |p| - i
  {
    hide Xor, Lane;
    if i < |p| {
      FoldPartAgree(p, q, i + 1, Xor(h, Lane(p[i], i)));
    }
  }

  /** Different intermediate checksums stay different. */
  lemma FoldPartsInjective(parts: seq<string>, h: bv32, k: bv32)
    requires h != k
    ensures FoldParts(parts, h) != FoldParts(parts, k)
  {
    hide Xor, FoldParts;
    FoldPartsShift(parts, 0, h);
    FoldPartsShift(parts, 0, k);
    XorZero(h);
    XorZero(k);
    XorCancel(FoldParts(parts, 0), h);
    XorCancel(FoldParts(parts, 0), k);
  }

  /** Two field lists of equal lengths that differ in exactly one character. */
  ghost predicate OneCharApart(ps: seq<string>, qs: seq<string>, n: nat, j: nat) {
    && |ps| == |qs| && n < |ps| && |ps[n]| == |qs[n]| && j < |ps[n]|
    && ps[n][j] != qs[n][j] && ps[n][j] as int < 256 && qs[n][j] as int < 256
    && (forall k :: 0 <= k < |ps[n]| && k != j ==> ps[n][k] == qs[n][k])
    && (forall k :: 0 <= k < |ps| && k != n ==> ps[k] == qs[k])
  }

  lemma {:induction false} FoldPartsDiffer(ps: seq<string>, qs: seq<string>, n: nat, j: nat, h: bv32)
    requires OneCharApart(ps, qs, n, j)
    ensures FoldParts(ps, h) != FoldParts(qs, h)
    decreases n
  {
    hide FoldPart;
    if n == 0 {
      FoldPartDiffers(ps[0], qs[0], j, 0, h);
      assert ps[1..] == qs[1..];
      FoldPartsInjective(ps[1..], FoldPart(ps[0], 0, h), FoldPart(qs[0], 0, h));
    } else {
      FoldPartsDiffer(ps[1..], qs[1..], n - 1, j, FoldPart(ps[0], 0, h));
    }
  }

  // ----- the printed checksum loses nothing

  function HexDigitValue(c: char): int {
    if c <= '9' then c as int - '0' as int else c as int - 'a' as int + 10
  }

  function HexValue(text: string): int {
    if text == [] then 0 else HexValue(text[..|text| - 1]) * 16 + HexDigitValue(text[|text| - 1])
  }

  lemma {:induction false} HexOfValue(n: nat)
    ensures HexValue(Hex(n)) == n
  {
    if n >= 16 {
      HexOfValue(n / 16);
      assert Hex(n)[..|Hex(n)| - 1] == Hex(n / 16);
    } else {
      assert Hex(n)[..0] == [];
    }
  }

  lemma {:induction false} LeadingZero(text: string)
    ensures HexValue("0" + text) == HexValue(text)
  {
    if text == [] {
      assert ("0" + text)[..0] == [];
    } else {
      LeadingZero(text[..|text| - 1]);
      assert ("0" + text)[..|text|] == "0" + text[..|text| - 1];
    }
  }

  lemma {:induction false} PadValue(text: string, width: nat)
    ensures HexValue(PadStart(text, width)) == HexValue(text)
    decreases width - |text|
  {
    if |text| < width {
      LeadingZero(text);
      PadValue("0" + text, width);
    }
  }

  lemma HexTextInjective(h: bv32, k: bv32)
    requires h != k
    ensures HexText(h) != HexText(k)
  {
    HexOfValue(h as int);
    HexOfValue(k as int);
    PadValue(Hex(h as int), 8);
    PadValue(Hex(k as int), 8);
    assert (h as int) as bv32 == h && (k as int) as bv32 == k;
  }

  /** Changing one character below code 256 of one printed field, keeping the
      field lengths, changes the checksum. */
  lemma OneCharChangesHash(s: string, i: nat, b: string, m: nat, t: nat,
                           s': string, i': nat, b': string, m': nat, t': nat, n: nat, j: nat)
    requires OneCharApart(Fields(s, i, b, m, t), Fields(s', i', b', m', t'), n, j)
    ensures XorHash(s, i, b, m, t) != XorHash(s', i', b', m', t')
  {
    hide OneCharApart, Fields, FoldParts, HexText;
    FoldPartsDiffer(Fields(s, i, b, m, t), Fields(s', i', b', m', t'), n, j, 0);
    HexTextInjective(FoldParts(Fields(s, i, b, m, t), 0), FoldParts(Fields(s', i', b', m', t'), 0));
  }

  // ----- minted cursors

  /** The cursor that is written with an entry. */
  function Mint(s: string, i: nat, b: string, m: nat, t: nat): Cursor {
    Cursor(s, i, b, m, t, XorHash(s, i, b, m, t))
  }

  /** The integrity check of a parsed cursor; only natural-number fields are evaluated. */
  predicate Valid(d: Decoded) {
    && d.i.Natural? && d.m.Natural? && d.t.Natural?
    && d.x == XorHash(d.s, d.i.value, d.b, d.m.value, d.t.value)
  }

  /** A minted cursor survives printing and parsing, and passes the integrity
      check, exactly when machine hash and boot id contain no separator. */
  lemma MintedCursor(s: string, i: nat, b: string, m: nat, t: nat)
    ensures Decode(Encode(Mint(s, i, b, m, t))) == Parsed(Mint(s, i, b, m, t)) <==> Clean(s) && Clean(b)
    ensures Clean(s) && Clean(b) ==> Valid(Decode(Encode(Mint(s, i, b, m, t))))
  {
    hide Decode, Encode, FoldParts;
    RoundTrip(Mint(s, i, b, m, t));
  }

  // ----- a boot id with a separator

  /** With the boot id "=", the parser reads an empty boot id. */
  lemma EqualsLost(c: Cursor)
    requires Clean(c.s) && c.b == "=" && Clean(c.x)
    ensures Decode(Encode(c)) == Parsed(c).(b := "")
  {
    hide Encode, ToMap, Decimal, DigitsValue;
    EncodedPieces(c);
    DecimalValue(c.i);
    DecimalValue(c.m);
    DecimalValue(c.t);
    DigitsAreClean(Decimal(c.i));
    DigitsAreClean(Decimal(c.m));
    DigitsAreClean(Decimal(c.t));
    assert "b=" + "=" == "b" + ['='] + "=" && "=" == "" + ['='] + "";
    SplitFirst("b", '=', "=");
    SplitFirst("", '=', "");
    ToMapSix(c.s, Decimal(c.i), "b=" + "=", "", Decimal(c.m), Decimal(c.t), c.x);
  }

  lemma LaneNotZero()
    ensures Lane('=', 0) != 0
  {
    hide CodeUnit, Byte;
    LanesDiffer('=', '\0', 0);
    SmallCode('\0');
    ByteZero();
  }

  lemma XorChanges(h: bv32, d: bv32)
    requires d != 0
    ensures Xor(h, d) != h
  {
  }

  lemma EqualsChangesFold(s: string, i: nat, m: nat, t: nat)
    ensures FoldParts(Fields(s, i, "=", m, t), 0) != FoldParts(Fields(s, i, "", m, t), 0)
  {
    hide FoldPart, FoldParts, Xor, Lane, Decimal;
    var h := FoldPart(Decimal(i), 0, FoldPart(s, 0, 0));
    var rest := [Decimal(m), Decimal(t)];
    assert Fields(s, i, "=", m, t) == [s, Decimal(i), "="] + rest;
    assert Fields(s, i, "", m, t) == [s, Decimal(i), ""] + rest;
    AfterThree(s, Decimal(i), "=", rest);
    AfterThree(s, Decimal(i), "", rest);
    OneFold('=', h);
    LaneNotZero();
    XorChanges(h, Lane('=', 0));
    FoldPartsInjective(rest, Xor(h, Lane('=', 0)), h);
  }

  lemma FoldHead(part: string, rest: seq<string>, h: bv32)
    ensures FoldParts([part] + rest, h) == FoldParts(rest, FoldPart(part, 0, h))
  {
    hide FoldPart;
    assert ([part] + rest)[1..] == rest;
  }

  lemma AfterThree(a: string, b: string, c: string, rest: seq<string>)
    ensures FoldParts([a, b, c] + rest, 0) == FoldParts(rest, FoldPart(c, 0, FoldPart(b, 0, FoldPart(a, 0, 0))))
  {
    hide FoldPart, FoldParts;
    assert [a, b, c] + rest == [a] + ([b] + ([c] + rest));
    FoldHead(a, [b] + ([c] + rest), 0);
    FoldHead(b, [c] + rest, FoldPart(a, 0, 0));
    FoldHead(c, rest, FoldPart(b, 0, FoldPart(a, 0, 0)));
  }

  lemma OneFold(c: char, h: bv32)
    ensures FoldPart([c], 0, h) == Xor(h, Lane(c, 0)) && FoldPart("", 0, h) == h
  {
    hide Xor, Lane;
  }

  lemma HashIsClean(s: string, i: nat, b: string, m: nat, t: nat)
    ensures Clean(XorHash(s, i, b, m, t))
  {
    hide FoldParts, Clean;
  }

  /** A cursor minted under the boot id "=" never passes the integrity check. */
  lemma SeparatorBootInvalid(s: string, i: nat, m: nat, t: nat)
    requires Clean(s)
    ensures !Valid(Decode(Encode(Mint(s, i, "=", m, t))))
  {
    hide Decode, Encode, FoldParts, HexText;
    var c := Mint(s, i, "=", m, t);
    HashIsClean(s, i, "=", m, t);
    EqualsLost(c);
    EqualsChangesFold(s, i, m, t);
    HexTextInjective(FoldParts(Fields(s, i, "=", m, t), 0), FoldParts(Fields(s, i, "", m, t), 0));
  }
}
