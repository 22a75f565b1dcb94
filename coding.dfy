/** Go's `coding.Encode`: choosing the mode and the smallest version that
    holds the text, then building the plan with mask 0 and drawing the
    code. */
module Coding {
  import opened BitMath
  import opened Tables
  import opened Enc
  import BitBuffer
  import opened QrPlan

  /** The encoding Encode picks: numeric when every byte is a digit, else
      alphanumeric when every byte is in the 45-symbol alphabet, else byte
      mode. */
  function Choose(text: seq<Byte>): (e: Encoding)
    ensures e.text == text && Check(e)
    ensures e.mode == Num <==> NumCheck(text)
    ensures e.mode == Alpha <==> !NumCheck(text) && AlphaCheck(text)
  {
    if Check(Encoding(Num, text)) then Encoding(Num, text)
    else if Check(Encoding(Alpha, text)) then Encoding(Alpha, text)
    else Encoding(Str, text)
  }

  /** The count field of a mode is one bit wider than the next mode's
      (numeric, alphanumeric, byte) in versions 1 to 9, and numeric's is
      narrower than byte mode's from version 10. */
  lemma CountWidths(v: Version)
    ensures CountWidth(Num, v) == CountWidth(Alpha, v) + 1
    ensures CountWidth(Alpha, v) <= CountWidth(Str, v) + 1
    ensures CountWidth(Num, v) <= CountWidth(Str, v) + 2
  {
  }

  /** For a non-empty text, the mode Choose picks needs no more bits than
      any other mode that accepts the text, in every version. */
  lemma ChooseFewest(text: seq<Byte>, m: Mode, v: Version)
    requires |text| > 0 && Check(Encoding(m, text))
    ensures Bits(Choose(text), v) <= Bits(Encoding(m, text), v)
  {
    CountWidths(v);
  }

  /** For the empty text the priority order is not the cheapest: numeric
      mode spends two bits more than byte mode in version 1. */
  lemma EmptyTextOrder()
    ensures Choose([]).mode == Num
    ensures Bits(Choose([]), 1) == Bits(Encoding(Str, []), 1) + 2
  {
    CountWidths(1);
  }

  /** Whether e fits the data capacity of version v at level l. */
  predicate FitsAt(e: Encoding, v: Version, l: Level) {
    Bits(e, v) <= 8 * DataBytes(v, l)
  }

  /** Encode's version loop: the smallest version from 1 to 40 that holds
      e, or none. */
  method FirstFit(e: Encoding, l: Level) returns (found: bool, v: Version)
    ensures found ==> FitsAt(e, v, l)
    ensures found ==> forall w: Version | w < v :: !FitsAt(e, w, l)
    ensures !found ==> forall w: Version :: !FitsAt(e, w, l)
  {
    var k: int := MinVersion;
    while true
      invariant MinVersion <= k <= MaxVersion + 1
      invariant forall w: Version | w < k :: !FitsAt(e, w, l)
      decreases MaxVersion + 1 - k
    {
      if k > MaxVersion {
        return false, MinVersion;
      }
      if Bits(e, k) <= DataBytes(k, l) * 8 {
        return true, k;
      }
      k := k + 1;
    }
  }

  /** Go's `Encode`. ecc stands for the Reed–Solomon encoder. A level
      outside 0 .. 3 panics at the first capacity lookup, before anything
      is drawn. With the version chosen as the smallest that holds the
      text, the plan's own checks cannot fail, so the outcome is the code,
      TextTooLong, or Panic (a caller's bitmap that is too short, or a plan
      whose module sweep did not close, where EncodeInto is never reached).
      The code is drawn by the plan of that version, the given level and
      mask 0, returned with the codewords as ghosts. */
  method Encode(bitmap: array?<Byte>, text: seq<Byte>, l: int, ecc: (seq<Byte>, nat) -> seq<Byte>)
    returns (r: Outcome, ghost v: Version, ghost p: Plan?, ghost bytes: seq<Byte>)
    requires BitBuffer.EccSound(ecc)
    modifies bitmap
    ensures !(0 <= l <= 3) ==> r == Panic
    ensures r == TextTooLong <==> 0 <= l <= 3 && forall w: Version :: !FitsAt(Choose(text), w, l)
    ensures 0 <= l <= 3 && r != TextTooLong ==>
      && FitsAt(Choose(text), v, l) && (forall w: Version | w < v :: !FitsAt(Choose(text), w, l))
      && (r.Encoded? || r == Panic)
    ensures !r.Encoded? && bitmap != null ==> bitmap[..] == old(bitmap[..])
    ensures r.Encoded? ==>
      && 0 <= l <= 3 && p != null && fresh(p) && p.version == v && p.level == l && p.mask == 0
      && p.Valid() && p.Built(v, l, 0)
      && r.code.size == Size(v) && r.code.stride == Stride(Size(v))
      && (bitmap == null ==> fresh(r.code.bitmap))
      && (bitmap != null ==> r.code.bitmap == bitmap)
      && p.CodewordsOf(bytes, Choose(text), ecc)
      && p.Rendered(r.code.bitmap[..], if bitmap == null then [] else old(bitmap[..]), bytes)
  {
    v, p, bytes := 1, null, [];
    if !(0 <= l <= 3) {
      return Panic, v, p, bytes;
    }
    var e := Choose(text);
    var found, ver := FirstFit(e, l);
    v := ver;
    if !found {
      return TextTooLong, v, p, bytes;
    }
    var plan, ok := NewPlan(ver, l, 0);
    p := plan;
    if !ok {
      return Panic, v, p, bytes;
    }
    r, bytes := plan.EncodeInto(bitmap, e, ecc);
  }
}
