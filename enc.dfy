/** The three data encodings of section 7.4 of ISO/IEC 18004: numeric,
    alphanumeric and byte mode. Each has a validity check, the number of bits
    it takes, and a serializer into the bit buffer. A text is a Go string,
    that is a sequence of bytes. */
module Enc {
  import opened BitMath
  import opened Tables
  import opened BitBuffer

  datatype Option<T> = None | Some(value: T)

  /** Go's three text types `Num`, `Alpha` and `String`. */
  datatype Mode = Num | Alpha | Str

  /** A text together with the encoding it is to be written in: Go's
      `Encoding` interface value. */
  datatype Encoding = Encoding(mode: Mode, text: seq<Byte>)

  /** `numLen`, `alphaLen` and `stringLen`: the width of the character count,
      per size class. */
  const NumLen: seq<nat> := [10, 12, 14]
  const AlphaLen: seq<nat> := [9, 11, 13]
  const StringLen: seq<nat> := [8, 16, 16]

  /** The characters of alphanumeric mode in the order of their values,
      as the bytes of "0123456789ABCDEFGHIJKLMNOPQRSTUVWXYZ $%*+-./:":
      the digits, the capital letters, then nine symbols. */
  const Alphabet: seq<Byte> := AlphaDigits + AlphaLetters + AlphaSymbols
  const AlphaDigits: seq<Byte> := [48, 49, 50, 51, 52, 53, 54, 55, 56, 57]
  const AlphaLetters: seq<Byte> := [
    65, 66, 67, 68, 69, 70, 71, 72, 73, 74, 75, 76, 77,
    78, 79, 80, 81, 82, 83, 84, 85, 86, 87, 88, 89, 90]
  /** space $ % * + - . / : */
  const AlphaSymbols: seq<Byte> := [32, 36, 37, 42, 43, 45, 46, 47, 58]

  /** Where each character sits in the alphabet. */
  lemma AlphabetLayout()
    ensures |Alphabet| == 45
    ensures forall i | 0 <= i < 10 :: Alphabet[i] == 48 + i
    ensures forall i | 10 <= i < 36 :: Alphabet[i] == 55 + i
    ensures Alphabet[36..] == AlphaSymbols
  {
    assert forall i | 0 <= i < 10 :: AlphaDigits[i] == 48 + i;
    assert forall i | 0 <= i < 26 :: AlphaLetters[i] == 65 + i;
  }

  /** The four-bit mode indicator. */
  function Indicator(m: Mode): (r: nat)
    ensures r < 16 && r != 0
  {
    match m
    case Num => 1
    case Alpha => 2
    case Str => 4
  }

  /** The width of the character count of mode m in version v: the widths
      ISO/IEC 18004 gives for versions 1 to 9, 10 to 26 and 27 to 40. */
  function CountWidth(m: Mode, v: Version): (w: nat)
    ensures 8 <= w <= 16
    ensures m == Num ==> w == if v <= 9 then 10 else if v <= 26 then 12 else 14
    ensures m == Alpha ==> w == if v <= 9 then 9 else if v <= 26 then 11 else 13
    ensures m == Str ==> w == if v <= 9 then 8 else 16
  {
    match m
    case Num => NumLen[SizeClass(v)]
    case Alpha => AlphaLen[SizeClass(v)]
    case Str => StringLen[SizeClass(v)]
  }

  // ---------------------------------------------------------------------
  // Check

  /** '0' <= c <= '9' */
  predicate IsDigit(c: int) {
    48 <= c <= 57
  }

  /** `Num.Check`: every byte is a decimal digit. A byte of a multi-byte UTF-8
      sequence is never one, so reading runes, as Go does, gives the same
      answer. */
  function NumCheck(s: seq<Byte>): (ok: bool)
    ensures ok <==> forall i | 0 <= i < |s| :: IsDigit(s[i])
  {
    if s == [] then true else IsDigit(s[0]) && NumCheck(s[1..])
  }

  /** `strings.IndexRune(alphabet, c)`: the first position of c in the
      alphabet, or -1 for a character not in it. */
  function AlphaIndex(c: int): (r: int)
    ensures -1 <= r < 45
    ensures r >= 0 ==> Alphabet[r] == c
  {
    IndexFrom(Alphabet, c, 0)
  }

  /** The search for c in a from position k on. */
  function IndexFrom(a: seq<Byte>, c: int, k: nat): (r: int)
    requires k <= |a|
    ensures r == -1 || k <= r < |a|
    ensures r >= 0 ==> a[r] == c
    decreases |a| - k
  {
    if k == |a| then -1
    else if a[k] == c then k
    else IndexFrom(a, c, k + 1)
  }

  /** No position before the one found holds c, and -1 means no position
      from k on does. */
  lemma {:induction false} IndexFromFirst(a: seq<Byte>, c: int, k: nat)
    requires k <= |a|
    ensures forall j | k <= j < |a| && (IndexFrom(a, c, k) < 0 || j < IndexFrom(a, c, k)) :: a[j] != c
    decreases |a| - k
  {
    if k < |a| && a[k] != c {
      IndexFromFirst(a, c, k + 1);
    }
  }

  /** The characters with a value: digits, capital letters and the nine
      symbols. */
  lemma AlphaIndexOf(c: int)
    ensures AlphaIndex(c) >= 0 <==> (48 <= c <= 57 || 65 <= c <= 90 || c in AlphaSymbols)
  {
    AlphabetLayout();
    IndexFromFirst(Alphabet, c, 0);
    if 48 <= c <= 57 {
      assert Alphabet[c - 48] == c;
    } else if 65 <= c <= 90 {
      assert Alphabet[c - 55] == c;
    } else if c in AlphaSymbols {
      var k :| 0 <= k < 9 && AlphaSymbols[k] == c;
      assert Alphabet[36 + k] == c;
    }
  }

  /** `Alpha.Check`: every byte is one of the 45 alphanumeric characters. */
  function AlphaCheck(s: seq<Byte>): (ok: bool)
    ensures ok <==> forall i | 0 <= i < |s| :: AlphaIndex(s[i]) >= 0
  {
    if s == [] then true else AlphaIndex(s[0]) >= 0 && AlphaCheck(s[1..])
  }

  /** `Check` of each encoding; every text is valid in byte mode. */
  function Check(e: Encoding): bool {
    match e.mode
    case Num => NumCheck(e.text)
    case Alpha => AlphaCheck(e.text)
    case Str => true
  }

  // ---------------------------------------------------------------------
  // Bits

  /** `Bits(v)` of each encoding: the length of its bit stream in version v. */
  function Bits(e: Encoding, v: Version): int {
    var n := |e.text|;
    4 + CountWidth(e.mode, v) +
    match e.mode
    case Num => (10 * n + 2) / 3
    case Alpha => (11 * n + 1) / 2
    case Str => 8 * n
  }

  // ---------------------------------------------------------------------
  // The bit streams

  /** The value of a decimal digit. */
  function Digit(c: int): (d: nat)
    requires IsDigit(c)
    ensures d < 10
  {
    c - 48
  }

  /** The digits of numeric mode: each group of three as a 10-bit number, a
      trailing pair as a 7-bit number, a trailing single digit in 4 bits. */
  function NumGroups(s: seq<Byte>): seq<bool>
    requires NumCheck(s)
    decreases |s|
  {
    if |s| >= 3 then BitsOf(Digit(s[0]) * 100 + Digit(s[1]) * 10 + Digit(s[2]), 10) + NumGroups(s[3..])
    else if |s| == 2 then BitsOf(Digit(s[0]) * 10 + Digit(s[1]), 7)
    else if |s| == 1 then BitsOf(Digit(s[0]), 4)
    else []
  }

  /** The characters of alphanumeric mode: each pair as 45 times the first
      value plus the second in 11 bits, a trailing character in 6 bits. */
  /** The value of a pair of alphanumeric characters: 45 times the first
      plus the second. */
  function PairValue(x: Byte, y: Byte): nat
    requires AlphaIndex(x) >= 0 && AlphaIndex(y) >= 0
  {
    AlphaIndex(x) * 45 + AlphaIndex(y)
  }

  function AlphaPairs(s: seq<Byte>): seq<bool>
    requires AlphaCheck(s)
    decreases |s|
  {
    if |s| >= 2 then BitsOf(PairValue(s[0], s[1]), 11) + AlphaPairs(s[2..])
    else if |s| == 1 then BitsOf(AlphaIndex(s[0]), 6)
    else []
  }

  /** The data part of the stream; in byte mode the bytes themselves. */
  function Payload(e: Encoding): seq<bool>
    requires Check(e)
  {
    match e.mode
    case Num => NumGroups(e.text)
    case Alpha => AlphaPairs(e.text)
    case Str => BytesBits(e.text)
  }

  /** The start of a segment: mode indicator and character count n. */
  function Header(m: Mode, n: nat, v: Version): seq<bool> {
    BitsOf(Indicator(m), 4) + BitsOf(n, CountWidth(m, v))
  }

  /** The whole segment: mode indicator, character count, data. */
  function Stream(e: Encoding, v: Version): seq<bool>
    requires Check(e)
  {
    Header(e.mode, |e.text|, v) + Payload(e)
  }

  lemma {:induction false} NumGroupsLength(s: seq<Byte>)
    requires NumCheck(s)
    ensures |NumGroups(s)| == (10 * |s| + 2) / 3
    decreases |s|
  {
    if |s| >= 3 {
      NumGroupsLength(s[3..]);
    }
  }

  lemma {:induction false} AlphaPairsLength(s: seq<Byte>)
    requires AlphaCheck(s)
    ensures |AlphaPairs(s)| == (11 * |s| + 1) / 2
    decreases |s|
  {
    if |s| >= 2 {
      AlphaPairsLength(s[2..]);
    }
  }

  /** The stream is exactly as long as `Bits` says, which is what version
      selection relies on. */
  lemma StreamLength(e: Encoding, v: Version)
    requires Check(e)
    ensures |Stream(e, v)| == Bits(e, v)
  {
    match e.mode
    case Num => NumGroupsLength(e.text);
    case Alpha => AlphaPairsLength(e.text);
    case Str =>
  }

  // ---------------------------------------------------------------------
  // Reading a stream back

  /** The value of a bit string, most significant bit first. */
  function Val(bits: seq<bool>): (r: nat) {
    if bits == [] then 0 else 2 * Val(bits[..|bits| - 1]) + (if bits[|bits| - 1] then 1 else 0)
  }

  lemma {:induction false} ValBitsOf(v: nat, n: nat)
    requires v < Pow2(n)
    ensures Val(BitsOf(v, n)) == v
  {
    if n > 0 {
      ValBitsOf(v / 2, n - 1);
      assert BitsOf(v, n)[..n - 1] == BitsOf(v / 2, n - 1);
    }
  }

  lemma {:induction false} ValBound(bits: seq<bool>)
    ensures Val(bits) < Pow2(|bits|)
  {
    if bits != [] {
      ValBound(bits[..|bits| - 1]);
    }
  }

  lemma Pow2Values()
    ensures Pow2(4) == 16 && Pow2(6) == 64 && Pow2(7) == 128 && Pow2(8) == 256
    ensures Pow2(9) == 512 && Pow2(10) == 1024 && Pow2(11) == 2048 && Pow2(12) == 4096
    ensures Pow2(13) == 8192 && Pow2(14) == 16384 && Pow2(16) == 65536
  {
    assert Pow2(4) == 16;
    assert Pow2(8) == 256 by { Pow2Add(4, 4); }
    assert Pow2(12) == 4096 by { Pow2Add(8, 4); }
    assert Pow2(16) == 65536 by { Pow2Add(8, 8); }
  }

  /** The three digits of a number below 1000. */
  function Digits3(w: nat): seq<Byte>
    requires w < 1000
  {
    [48 + w / 100, 48 + w / 10 % 10, 48 + w % 10]
  }

  lemma DigitsOf(a: nat, b: nat, c: nat)
    requires a < 10 && b < 10 && c < 10
    ensures Digits3(a * 100 + b * 10 + c) == [48 + a, 48 + b, 48 + c]
    ensures (a * 10 + b) / 10 == a && (a * 10 + b) % 10 == b
  {
    var w := a * 100 + b * 10 + c;
    DivModUnique(w, 100, a, b * 10 + c);
    DivModUnique(w, 10, a * 10 + b, c);
    DivModUnique(a * 10 + b, 10, a, b);
  }

  /** A text that starts with three digits starts with the digits of their
      value. */
  lemma DigitsBack(s: seq<Byte>, w: nat)
    requires |s| >= 3 && IsDigit(s[0]) && IsDigit(s[1]) && IsDigit(s[2])
    requires w == Digit(s[0]) * 100 + Digit(s[1]) * 10 + Digit(s[2])
    ensures w < 1000 && Digits3(w) + s[3..] == s
  {
    DigitsOf(Digit(s[0]), Digit(s[1]), Digit(s[2]));
    assert [s[0], s[1], s[2]] + s[3..] == s;
  }

  /** Reads n digits of numeric mode; None when the bits are not such a
      stream. */
  function ParseNum(bits: seq<bool>, n: nat): Option<seq<Byte>>
    decreases n
  {
    if n >= 3 then
      if |bits| < 10 then None
      else
        var w := Val(bits[..10]);
        if w >= 1000 then None
        else
          match ParseNum(bits[10..], n - 3)
          case None => None
          case Some(rest) => Some(Digits3(w) + rest)
    else if n == 2 then
      if |bits| != 7 || Val(bits) >= 100 then None
      else Some([48 + Val(bits) / 10, 48 + Val(bits) % 10])
    else if n == 1 then
      if |bits| != 4 || Val(bits) >= 10 then None
      else Some([48 + Val(bits)])
    else if bits == [] then Some([])
    else None
  }

  /** Reads n characters of alphanumeric mode. */
  function ParseAlpha(bits: seq<bool>, n: nat): Option<seq<Byte>>
    decreases n
  {
    if n >= 2 then
      if |bits| < 11 then None
      else
        var w := Val(bits[..11]);
        if w >= 45 * 45 then None
        else
          match ParseAlpha(bits[11..], n - 2)
          case None => None
          case Some(rest) => Some([Alphabet[w / 45], Alphabet[w % 45]] + rest)
    else if n == 1 then
      if |bits| != 6 || Val(bits) >= 45 then None
      else Some([Alphabet[Val(bits)]])
    else if bits == [] then Some([])
    else None
  }

  /** Reads n bytes of byte mode, last byte last. */
  function ParseStr(bits: seq<bool>, n: nat): Option<seq<Byte>>
    decreases n
  {
    if n == 0 then (if bits == [] then Some([]) else None)
    else if |bits| < 8 then None
    else
      var last := bits[|bits| - 8..];
      ValBound(last);
      Pow2Values();
      match ParseStr(bits[..|bits| - 8], n - 1)
      case None => None
      case Some(init) => Some(init + [Val(last)])
  }

  /** The mode with a given indicator. */
  function ModeOf(m: nat): Option<Mode> {
    if m == 1 then Some(Num) else if m == 2 then Some(Alpha) else if m == 4 then Some(Str) else None
  }

  /** Reads one segment of version v: mode, count, and exactly the data
      that count calls for. */
  function Decode(bits: seq<bool>, v: Version): Option<Encoding> {
    if |bits| < 4 then None
    else
      match ModeOf(Val(bits[..4]))
      case None => None
      case Some(m) =>
        var w := CountWidth(m, v);
        if |bits| < 4 + w then None
        else
          var n := Val(bits[4..4 + w]);
          var body := bits[4 + w..];
          var text := match m
            case Num => ParseNum(body, n)
            case Alpha => ParseAlpha(body, n)
            case Str => ParseStr(body, n);
          match text
          case None => None
          case Some(t) => Some(Encoding(m, t))
  }

  lemma {:induction false} ParseNumGroups(s: seq<Byte>)
    requires NumCheck(s)
    ensures ParseNum(NumGroups(s), |s|) == Some(s)
    decreases |s|
  {
    if |s| >= 3 {
      ParseNumGroups(s[3..]);
      ParseNumHead(s);
    } else if |s| == 2 {
      var g := NumGroups(s);
      var w := Digit(s[0]) * 10 + Digit(s[1]);
      assert g == BitsOf(w, 7);
      Pow2Values();
      ValBitsOf(w, 7);
      DigitsOf(Digit(s[0]), Digit(s[1]), 0);
      assert Val(g) == w && w < 100;
      assert ParseNum(g, 2) == Some([48 + w / 10, 48 + w % 10]);
      assert [48 + w / 10, 48 + w % 10] == s;
    } else if |s| == 1 {
      var g := NumGroups(s);
      assert g == BitsOf(Digit(s[0]), 4);
      Pow2Values();
      ValBitsOf(Digit(s[0]), 4);
      assert ParseNum(g, 1) == Some([s[0]]);
      assert [s[0]] == s;
    } else {
      assert NumGroups(s) == [] && s == [];
    }
  }

  /** The first group of three digits reads back. */
  lemma ParseNumHead(s: seq<Byte>)
    requires NumCheck(s) && |s| >= 3
    requires ParseNum(NumGroups(s[3..]), |s| - 3) == Some(s[3..])
    ensures ParseNum(NumGroups(s), |s|) == Some(s)
  {
    var g := NumGroups(s);
    var a, b, c := Digit(s[0]), Digit(s[1]), Digit(s[2]);
    var w := a * 100 + b * 10 + c;
    Pow2Values();
    ValBitsOf(w, 10);
    assert g[..10] == BitsOf(w, 10) && g[10..] == NumGroups(s[3..]);
    assert w < 1000 && Val(g[..10]) == w;
    var rest := ParseNum(g[10..], |s| - 3);
    assert rest == Some(s[3..]);
    DigitsBack(s, w);
    assert ParseNum(g, |s|) == Some(Digits3(w) + s[3..]);
  }

  lemma {:induction false} ParseAlphaPairs(s: seq<Byte>)
    requires AlphaCheck(s)
    ensures ParseAlpha(AlphaPairs(s), |s|) == Some(s)
    decreases |s|
  {
    if |s| >= 2 {
      ParseAlphaPairs(s[2..]);
      ParseAlphaHead(s);
    } else if |s| == 1 {
      var g := AlphaPairs(s);
      var a := AlphaIndex(s[0]);
      assert g == BitsOf(a, 6);
      Pow2Values();
      ValBitsOf(a, 6);
      assert Alphabet[a] == s[0];
      assert ParseAlpha(g, 1) == Some([s[0]]);
      assert [s[0]] == s;
    } else {
      assert AlphaPairs(s) == [] && s == [];
    }
  }

  /** The first pair of characters reads back. */
  lemma ParseAlphaHead(s: seq<Byte>)
    requires AlphaCheck(s) && |s| >= 2
    requires ParseAlpha(AlphaPairs(s[2..]), |s| - 2) == Some(s[2..])
    ensures ParseAlpha(AlphaPairs(s), |s|) == Some(s)
  {
    var a, b := AlphaIndex(s[0]), AlphaIndex(s[1]);
    assert a >= 0 && b >= 0;
    var w := PairValue(s[0], s[1]);
    PairCode(a, b, w);
    assert AlphaPairs(s) == BitsOf(w, 11) + AlphaPairs(s[2..]);
    ParsePair(w, AlphaPairs(s[2..]), |s|, s[2..]);
    Heads(s);
  }

  /** An 11-bit pair code w ahead of bits that read back as `rest` reads
      back as the pair w encodes, then `rest`. */
  lemma ParsePair(w: nat, tail: seq<bool>, n: nat, rest: seq<Byte>)
    requires w < 45 * 45 && Val(BitsOf(w, 11)) == w && n >= 2
    requires ParseAlpha(tail, n - 2) == Some(rest)
    ensures ParseAlpha(BitsOf(w, 11) + tail, n) == Some([Alphabet[w / 45], Alphabet[w % 45]] + rest)
  {
    Halves(BitsOf(w, 11), tail);
  }

  /** The 11-bit code w of a pair of alphanumeric values a, b reads back as
      the pair. */
  lemma PairCode(a: nat, b: nat, w: nat)
    requires a < 45 && b < 45 && w == a * 45 + b
    ensures w < 45 * 45 && Val(BitsOf(w, 11)) == w && w / 45 == a && w % 45 == b
  {
    Pow2Values();
    ValBitsOf(w, 11);
    DivModUnique(w, 45, a, b);
  }

  lemma Heads<T>(s: seq<T>)
    requires |s| >= 2
    ensures [s[0], s[1]] + s[2..] == s
  {
  }

  lemma Halves<T>(x: seq<T>, y: seq<T>)
    ensures (x + y)[..|x|] == x && (x + y)[|x|..] == y
  {
  }

  lemma {:induction false} ParseStrBytes(s: seq<Byte>)
    ensures ParseStr(BytesBits(s), |s|) == Some(s)
    decreases |s|
  {
    if s != [] {
      var g := BytesBits(s);
      var init := s[..|s| - 1];
      ParseStrBytes(init);
      Pow2Values();
      ValBitsOf(s[|s| - 1], 8);
      assert g[..|g| - 8] == BytesBits(init) && g[|g| - 8..] == BitsOf(s[|s| - 1], 8);
      assert s == init + [s[|s| - 1]];
    }
  }

  /** Reading back the segment of a valid text whose length fits its count
      field gives the text and its mode again. */
  lemma RoundTrip(e: Encoding, v: Version)
    requires Check(e) && Fits(|e.text|, CountWidth(e.mode, v))
    ensures Decode(Stream(e, v), v) == Some(e)
  {
    var st := Stream(e, v);
    var w := CountWidth(e.mode, v);
    Pow2Values();
    ValBitsOf(Indicator(e.mode), 4);
    FitsPow2(|e.text|, w);
    ValBitsOf(|e.text|, w);
    assert st[..4] == BitsOf(Indicator(e.mode), 4);
    assert st[4..4 + w] == BitsOf(|e.text|, w);
    assert st[4 + w..] == Payload(e);
    match e.mode
    case Num => ParseNumGroups(e.text);
    case Alpha => ParseAlphaPairs(e.text);
    case Str => ParseStrBytes(e.text);
  }

  /** A text that fits the data capacity of version v at any level also fits
      its character count field, so the count is always written exactly. */
  lemma CountFits(e: Encoding, v: Version, l: Level)
    requires Bits(e, v) <= 8 * DataBytes(v, l)
    ensures Fits(|e.text|, CountWidth(e.mode, v))
  {
    Pow2Values();
    FitsPow2(|e.text|, CountWidth(e.mode, v));
  }

  // ---------------------------------------------------------------------
  // Writing a segment into the bit buffer

  /** The two writes every serializer starts with: the mode indicator in 4
      bits, then the length in the count width of the version. */
  method WriteHeader(m: Mode, n: nat, b: Bits, v: Version)
    requires b.Valid()
    modifies b
    ensures b.Valid() && b.nbit == old(b.nbit) + 4 + CountWidth(m, v)
    ensures Fits(n, CountWidth(m, v)) ==> b.Contents() == old(b.Contents()) + Header(m, n, v)
  {
    ghost var c0 := b.Contents();
    var ind, w := Indicator(m), CountWidth(m, v);
    FitsPow2(ind, 4);
    b.Write(ind, 4);
    ghost var c := b.Contents();
    assert c == c0 + BitsOf(ind, 4);
    b.Write(n, w);
    if Fits(n, w) {
      Regroup(c0 + Header(m, n, v), c, c0, BitsOf(ind, 4), BitsOf(n, w));
    }
  }

  /** `Num.Encode`: the indicator, the count, each group of three digits in
      10 bits, then a trailing pair in 7 bits or a trailing digit in 4. The
      buffer grows by exactly `Bits(v)`; when the length fits the count
      field (CountFits: always, for a text the version was chosen for) the
      bits written are the segment's stream. */
  method NumEncode(s: seq<Byte>, b: Bits, v: Version)
    requires b.Valid() && NumCheck(s)
    modifies b
    ensures b.Valid() && b.nbit == old(b.nbit) + Bits(Encoding(Num, s), v)
    ensures Fits(|s|, CountWidth(Num, v)) ==>
      b.Contents() == old(b.Contents()) + Stream(Encoding(Num, s), v)
  {
    WriteHeader(Num, |s|, b, v);
    ghost var head := b.Contents();
    NumData(s, b);
    if Fits(|s|, CountWidth(Num, v)) {
      Regroup(old(b.Contents()) + Stream(Encoding(Num, s), v), head, old(b.Contents()),
        Header(Num, |s|, v), NumGroups(s));
    }
  }

  /** The loop and the switch of `Num.Encode`: the digits in groups. */
  method NumData(s: seq<Byte>, b: Bits)
    requires b.Valid() && NumCheck(s)
    modifies b
    ensures b.Valid() && b.nbit == old(b.nbit) + (10 * |s| + 2) / 3
    ensures b.Contents() == old(b.Contents()) + NumGroups(s)
  {
    ghost var target := old(b.Contents()) + NumGroups(s);
    var i := 0;
    ghost var g := 0;
    assert s[0..] == s;
    while i + 3 <= |s|
      invariant 0 <= i <= |s| && i == 3 * g
      invariant b.Valid() && b.nbit == old(b.nbit) + 10 * g
      invariant b.Contents() + NumGroups(s[i..]) == target
    {
      var w := Digit(s[i]) * 100 + Digit(s[i + 1]) * 10 + Digit(s[i + 2]);
      NumStep(s, i, w);
      ghost var c := b.Contents();
      b.Write(w, 10);
      Regroup(target, b.Contents(), c, BitsOf(w, 10), NumGroups(s[i + 3..]));
      i := i + 3;
      g := g + 1;
    }
    if |s| - i == 1 {
      var w := Digit(s[i]);
      NumTail(s, i, w);
      FitsBelow(w, 4, 16);
      b.Write(w, 4);
    } else if |s| - i == 2 {
      var w := Digit(s[i]) * 10 + Digit(s[i + 1]);
      NumTail(s, i, w);
      FitsBelow(w, 7, 128);
      b.Write(w, 7);
    } else {
      assert NumGroups(s[i..]) == [];
    }
    NumBitsSplit(g, |s| - i);
  }

  /** The data bits of g groups of three digits followed by r more digits. */
  lemma NumBitsSplit(g: nat, r: nat)
    requires r < 3
    ensures (10 * (3 * g + r) + 2) / 3 == 10 * g + (if r == 1 then 4 else if r == 2 then 7 else 0)
  {
    var t := if r == 1 then 4 else if r == 2 then 7 else 0;
    DivModUnique(10 * (3 * g + r) + 2, 3, 10 * g + t, 10 * r + 2 - 3 * t);
  }

  /** A value below 2^k fits k bits. */
  lemma FitsBelow(w: nat, k: nat, p: nat)
    requires p == Pow2(k) && w < p
    ensures Fits(w, k)
  {
    FitsPow2(w, k);
  }

  /** The digits left after the last group of three: w is their value. */
  lemma NumTail(s: seq<Byte>, i: nat, w: int)
    requires NumCheck(s) && i < |s| < i + 3
    requires w == if |s| - i == 1 then Digit(s[i]) else Digit(s[i]) * 10 + Digit(s[i + 1])
    ensures NumGroups(s[i..]) == BitsOf(w, if |s| - i == 1 then 4 else 7)
  {
    var t := s[i..];
    assert t[0] == s[i];
    if |t| == 2 {
      assert t[1] == s[i + 1];
    }
    NumShort(t, w);
  }

  lemma NumShort(t: seq<Byte>, w: int)
    requires NumCheck(t) && 0 < |t| < 3
    requires w == if |t| == 1 then Digit(t[0]) else Digit(t[0]) * 10 + Digit(t[1])
    ensures NumGroups(t) == BitsOf(w, if |t| == 1 then 4 else 7)
  {
  }

  /** One group of three digits: its value fits 10 bits and its bits come
      first. */
  lemma NumStep(s: seq<Byte>, i: nat, w: int)
    requires NumCheck(s) && i + 3 <= |s|
    requires w == Digit(s[i]) * 100 + Digit(s[i + 1]) * 10 + Digit(s[i + 2])
    ensures 0 <= w < 1000 && Fits(w, 10)
    ensures NumGroups(s[i..]) == BitsOf(w, 10) + NumGroups(s[i + 3..])
  {
    assert Pow2(10) == 1024;
    FitsBelow(w, 10, 1024);
    var t := s[i..];
    assert t[0] == s[i] && t[1] == s[i + 1] && t[2] == s[i + 2] && t[3..] == s[i + 3..];
    NumHead(t);
  }

  lemma NumHead(t: seq<Byte>)
    requires NumCheck(t) && |t| >= 3
    ensures NumGroups(t) == BitsOf(Digit(t[0]) * 100 + Digit(t[1]) * 10 + Digit(t[2]), 10) + NumGroups(t[3..])
  {
  }

  /** `Alpha.Encode`: the indicator, the count, each pair of characters in
      11 bits, then a trailing character in 6 bits. */
  method AlphaEncode(s: seq<Byte>, b: Bits, v: Version)
    requires b.Valid() && AlphaCheck(s)
    modifies b
    ensures b.Valid() && b.nbit == old(b.nbit) + Bits(Encoding(Alpha, s), v)
    ensures Fits(|s|, CountWidth(Alpha, v)) ==>
      b.Contents() == old(b.Contents()) + Stream(Encoding(Alpha, s), v)
  {
    WriteHeader(Alpha, |s|, b, v);
    ghost var head := b.Contents();
    AlphaData(s, b);
    if Fits(|s|, CountWidth(Alpha, v)) {
      Regroup(old(b.Contents()) + Stream(Encoding(Alpha, s), v), head, old(b.Contents()),
        Header(Alpha, |s|, v), AlphaPairs(s));
    }
  }

  /** The loop and the trailing character of `Alpha.Encode`. */
  method AlphaData(s: seq<Byte>, b: Bits)
    requires b.Valid() && AlphaCheck(s)
    modifies b
    ensures b.Valid() && b.nbit == old(b.nbit) + (11 * |s| + 1) / 2
    ensures b.Contents() == old(b.Contents()) + AlphaPairs(s)
  {
    ghost var target := old(b.Contents()) + AlphaPairs(s);
    var i := 0;
    ghost var g := 0;
    assert s[0..] == s;
    while i + 2 <= |s|
      invariant 0 <= i <= |s| && i == 2 * g
      invariant b.Valid() && b.nbit == old(b.nbit) + 11 * g
      invariant b.Contents() + AlphaPairs(s[i..]) == target
    {
      var w := AlphaIndex(s[i]) * 45 + AlphaIndex(s[i + 1]);
      AlphaStep(s, i, w);
      ghost var c := b.Contents();
      b.Write(w, 11);
      Regroup(target, b.Contents(), c, BitsOf(w, 11), AlphaPairs(s[i + 2..]));
      i := i + 2;
      g := g + 1;
    }
    if i < |s| {
      var w := AlphaIndex(s[i]);
      AlphaTail(s, i, w);
      b.Write(w, 6);
    } else {
      assert AlphaPairs(s[i..]) == [];
    }
    AlphaBitsSplit(g, |s| - i);
  }

  /** The data bits of g pairs of characters followed by r more characters. */
  lemma AlphaBitsSplit(g: nat, r: nat)
    requires r < 2
    ensures (11 * (2 * g + r) + 1) / 2 == 11 * g + 6 * r
  {
    DivModUnique(11 * (2 * g + r) + 1, 2, 11 * g + 6 * r, 1 - r);
  }

  /** One pair of characters: its value fits 11 bits and its bits come
      first. */
  lemma AlphaStep(s: seq<Byte>, i: nat, w: int)
    requires AlphaCheck(s) && i + 2 <= |s|
    requires w == AlphaIndex(s[i]) * 45 + AlphaIndex(s[i + 1])
    ensures 0 <= w < 45 * 45 && Fits(w, 11)
    ensures AlphaPairs(s[i..]) == BitsOf(w, 11) + AlphaPairs(s[i + 2..])
  {
    assert Pow2(11) == 2048;
    var t := s[i..];
    assert t[0] == s[i] && t[1] == s[i + 1] && t[2..] == s[i + 2..];
    assert AlphaIndex(t[0]) >= 0 && AlphaIndex(t[1]) >= 0;
    assert w == PairValue(t[0], t[1]);
    FitsPow2(w, 11);
  }

  /** The character left after the last pair. */
  lemma AlphaTail(s: seq<Byte>, i: nat, w: int)
    requires AlphaCheck(s) && i + 1 == |s| && w == AlphaIndex(s[i])
    ensures 0 <= w < 45 && Fits(w, 6)
    ensures AlphaPairs(s[i..]) == BitsOf(w, 6)
  {
    assert Pow2(6) == 64;
    FitsPow2(w, 6);
    assert s[i..][0] == s[i];
  }

  /** `String.Encode`: the indicator, the count, then the bytes. */
  method StrEncode(s: seq<Byte>, b: Bits, v: Version)
    requires b.Valid()
    modifies b
    ensures b.Valid() && b.nbit == old(b.nbit) + Bits(Encoding(Str, s), v)
    ensures Fits(|s|, CountWidth(Str, v)) ==>
      b.Contents() == old(b.Contents()) + Stream(Encoding(Str, s), v)
  {
    ghost var fits := Fits(|s|, CountWidth(Str, v));
    ghost var target := old(b.Contents()) + Stream(Encoding(Str, s), v);
    WriteHeader(Str, |s|, b, v);
    if fits {
      Regroup(target, b.Contents(), old(b.Contents()), Header(Str, |s|, v), BytesBits(s));
    }
    WriteBytes(s, b);
  }

  /** The loop of `String.Encode`: each byte in 8 bits. */
  method WriteBytes(s: seq<Byte>, b: Bits)
    requires b.Valid()
    modifies b
    ensures b.Valid() && b.nbit == old(b.nbit) + 8 * |s|
    ensures b.Contents() == old(b.Contents()) + BytesBits(s)
  {
    var i := 0;
    while i < |s|
      invariant 0 <= i <= |s| && b.Valid() && b.nbit == old(b.nbit) + 8 * i
      invariant b.Contents() == old(b.Contents()) + BytesBits(s[..i])
    {
      assert Pow2(8) == 256;
      FitsPow2(s[i], 8);
      ghost var c := b.Contents();
      b.Write(s[i], 8);
      assert s[..i + 1][..i] == s[..i];
      assert BytesBits(s[..i + 1]) == BytesBits(s[..i]) + BitsOf(s[i], 8);
      Regroup(old(b.Contents()) + BytesBits(s[..i + 1]), c, old(b.Contents()), BytesBits(s[..i]), BitsOf(s[i], 8));
      i := i + 1;
    }
    assert s[..i] == s;
  }

  /** `Encoding.Encode`: the serializer of the text's own mode. */
  method Encode(e: Encoding, b: Bits, v: Version)
    requires b.Valid() && Check(e)
    modifies b
    ensures b.Valid() && b.nbit == old(b.nbit) + Bits(e, v)
    ensures Fits(|e.text|, CountWidth(e.mode, v)) ==> b.Contents() == old(b.Contents()) + Stream(e, v)
  {
    match e.mode
    case Num => NumEncode(e.text, b, v);
    case Alpha => AlphaEncode(e.text, b, v);
    case Str => StrEncode(e.text, b, v);
  }
}
