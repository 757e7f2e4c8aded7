/**
 * `print_jump_polys`: each jump polynomial becomes a brace-enclosed list of
 * 32-bit words written as C hexadecimal literals, least significant word
 * first; the table is one C array definition.
 */
module XorwowJumpPolyText {
  import opened Bits
  import opened Text
  import opened XorwowParams

  /** `int(s, base=2)` applied to each string. */
  function ParseEach(cs: seq<string>): (r: seq<nat>)
    ensures |r| == |cs|
    ensures forall t :: 0 <= t < |cs| ==> r[t] == ParseBinary(cs[t])
  {
    if cs == [] then [] else [ParseBinary(cs[0])] + ParseEach(cs[1..])
  }

  /**
   * The words of jp: its zero-padded (nb*nw)-digit binary rendering cut into
   * nw slices of nb digits, each read back with base 2, then reversed.
   */
  function PolyWords(jp: nat, nb: nat, nw: nat): (ws: seq<nat>)
    ensures |ws| == nw
  {
    Reverse(ParseEach(Chunks(FormatBinary(jp, nb * nw), nb, nw)))
  }

  /** A word as a C literal: `f'{w:#010x}u'`. */
  function WordText(w: nat): string
  {
    FormatHex010(w) + "u"
  }

  function WordTexts(ws: seq<nat>): (r: seq<string>)
    ensures |r| == |ws|
    ensures forall t :: 0 <= t < |ws| ==> r[t] == WordText(ws[t])
  {
    if ws == [] then [] else [WordText(ws[0])] + WordTexts(ws[1..])
  }

  /** One table entry, `{w0, w1, ..., w4}`. */
  function PolyEntry(jp: nat): string
  {
    "{" + Join(WordTexts(PolyWords(jp, NB, NW)), ", ") + "}"
  }

  function PolyEntries(jump: seq<nat>): (r: seq<string>)
    ensures |r| == |jump|
    ensures forall i :: 0 <= i < |jump| ==> r[i] == PolyEntry(jump[i])
  {
    if jump == [] then [] else [PolyEntry(jump[0])] + PolyEntries(jump[1..])
  }

  /** The printed table, with the newline `print` ends it with. */
  function PrintJumpPolys(jump: seq<nat>, name: string): string
  {
    "static unsigned int const " + name + "[] = {" + Join(PolyEntries(jump), ", ") + "};\n"
  }

  /** Rebuilding a number from words given least significant first. */
  function Combine(ws: seq<nat>, nb: nat): nat
  {
    if ws == [] then 0 else ws[0] + Pow2(nb) * Combine(ws[1..], nb)
  }

  /**
   * For jp of at most nb*nw bits, word w is the w-th group of nb bits counted
   * from the least significant end, so every word is below 2^nb.
   */
  lemma PolyWordsLayout(jp: nat, nb: nat, nw: nat)
    requires jp < Pow2(nb * nw)
    ensures forall w :: 0 <= w < nw ==> PolyWords(jp, nb, nw)[w] == Low(Shr(jp, nb * w), nb)
    ensures forall w :: 0 <= w < nw ==> PolyWords(jp, nb, nw)[w] < Pow2(nb)
  {
    forall w | 0 <= w < nw
      ensures PolyWords(jp, nb, nw)[w] == Low(Shr(jp, nb * w), nb) && PolyWords(jp, nb, nw)[w] < Pow2(nb)
    {
      PolyWordAt(jp, nb, nw, w);
    }
  }

  lemma PolyWordAt(jp: nat, nb: nat, nw: nat, w: nat)
    requires jp < Pow2(nb * nw) && w < nw
    ensures PolyWords(jp, nb, nw)[w] == Low(Shr(jp, nb * w), nb) && PolyWords(jp, nb, nw)[w] < Pow2(nb)
  {
    var x := Shr(jp, nb * w);
    PolyWordDigits(jp, nb, nw, w, x);
    ParseBinaryDigits(x, nb);
    LowShr(x, nb);
  }

  /** Word w is read from the chunk that holds the digits of jp above bit nb*w. */
  lemma PolyWordDigits(jp: nat, nb: nat, nw: nat, w: nat, x: nat)
    requires jp < Pow2(nb * nw) && w < nw && x == Shr(jp, nb * w)
    ensures PolyWords(jp, nb, nw)[w] == ParseBinary(BinaryDigits(x, nb))
  {
    PolyWordChunk(jp, nb, nw, w);
    ChunkOfDigits(jp, nb, nw, nw - 1 - w, w);
  }

  /** Word w is the chunk nw-1-w of the zero-padded digits, read back. */
  lemma PolyWordChunk(jp: nat, nb: nat, nw: nat, w: nat)
    requires jp < Pow2(nb * nw) && w < nw
    ensures PolyWords(jp, nb, nw)[w] == ParseBinary(Chunks(BinaryDigits(jp, nb * nw), nb, nw)[nw - 1 - w])
  {
    PolyWordChunkAt(jp, nb, nw, w, nb * nw);
  }

  /** PolyWordChunk with the digit count nb*nw given as n. */
  lemma PolyWordChunkAt(jp: nat, nb: nat, nw: nat, w: nat, n: nat)
    requires n == nb * nw && jp < Pow2(n) && w < nw
    ensures PolyWords(jp, nb, nw)[w] == ParseBinary(Chunks(BinaryDigits(jp, n), nb, nw)[nw - 1 - w])
  {
    FormatBinaryRoundTrip(jp, n);
    var cs := Chunks(BinaryDigits(jp, n), nb, nw);
    var ws := ParseEach(cs);
    assert PolyWords(jp, nb, nw) == Reverse(ws);
    assert Reverse(ws)[w] == ws[nw - 1 - w] == ParseBinary(cs[nw - 1 - w]);
  }

  /** Words laid out as the groups of nb bits of x recombine to x. */
  lemma {:induction false} CombineGroups(ws: seq<nat>, x: nat, nb: nat)
    requires x < Pow2(nb * |ws|)
    requires forall w :: 0 <= w < |ws| ==> ws[w] == Low(Shr(x, nb * w), nb)
    ensures Combine(ws, nb) == x
  {
    if ws == [] {
      assert x < 1;
    } else {
      var c := |ws|;
      var y := Shr(x, nb);
      assert nb * c == nb + nb * (c - 1);
      ShrShr(x, nb, nb * (c - 1));
      ShrZero(x, nb * c);
      ShrZero(y, nb * (c - 1));
      forall w | 0 <= w < c - 1
        ensures ws[1..][w] == Low(Shr(y, nb * w), nb)
      {
        ShrShr(x, nb, nb * w);
        assert nb * (w + 1) == nb + nb * w;
      }
      CombineGroups(ws[1..], y, nb);
      LowShr(x, nb);
    }
  }

  /** The emitted words encode jp without loss. */
  lemma PolyWordsRoundTrip(jp: nat, nb: nat, nw: nat)
    requires jp < Pow2(nb * nw)
    ensures Combine(PolyWords(jp, nb, nw), nb) == jp
  {
    PolyWordsLayout(jp, nb, nw);
    CombineGroups(PolyWords(jp, nb, nw), jp, nb);
  }

  lemma HexWidth()
    ensures Pow(16, 8) == Pow2(32)
  {
    assert Pow(16, 8) == 4294967296;
    assert Pow2(8) == 256;
    Pow2Add(8, 8);
    Pow2Add(16, 16);
  }

  /**
   * A 32-bit word is written as "0x", exactly eight lower-case hex digits
   * and "u", and the digits read back to the word.
   */
  lemma WordTextLayout(w: nat)
    requires w < Pow2(32)
    ensures |WordText(w)| == 11
    ensures WordText(w)[..2] == "0x" && WordText(w)[10] == 'u'
    ensures forall i :: 2 <= i < 10 ==> WordText(w)[i] in HexChars
    ensures ParseHex(WordText(w)[2..10]) == w
  {
    HexWidth();
    var d := HexDigits(w, 8);
    assert WordText(w) == "0x" + d + "u";
    Framed(d);
    ParseHexDigits(w, 8);
  }

  /** Eight digits between "0x" and "u" sit at positions 2 to 9. */
  lemma Framed(d: string)
    requires |d| == 8
    ensures var s := "0x" + d + "u";
      |s| == 11 && s[..2] == "0x" && s[10] == 'u' && s[2..10] == d
      && forall i :: 2 <= i < 10 ==> s[i] == d[i - 2]
  {
    var s := "0x" + d + "u";
    assert s[2..10] == d;
  }

  /**
   * An entry of the table for jp below 2^160 lists five literals of eleven
   * characters, the w-th holding bits 32w .. 32w+31 of jp.
   */
  lemma PolyEntryLayout(jp: nat)
    requires jp < Pow2(NK)
    ensures |WordTexts(PolyWords(jp, NB, NW))| == 5
    ensures forall w :: 0 <= w < 5 ==>
      var s := WordTexts(PolyWords(jp, NB, NW))[w];
      |s| == 11 && s == WordText(Low(Shr(jp, 32 * w), 32)) && ParseHex(s[2..10]) == Low(Shr(jp, 32 * w), 32)
  {
    PolyWordsLayout(jp, NB, NW);
    forall w | 0 <= w < 5
      ensures var s := WordTexts(PolyWords(jp, NB, NW))[w];
        |s| == 11 && s == WordText(Low(Shr(jp, 32 * w), 32)) && ParseHex(s[2..10]) == Low(Shr(jp, 32 * w), 32)
    {
      WordTextLayout(Low(Shr(jp, 32 * w), 32));
    }
  }
}
