/**
 * The string formatting the emitters rely on: Python's binary, hexadecimal
 * and decimal renderings of non-negative integers, `int(s, base)`, slicing a
 * string into fixed-width chunks, reversal and `sep.join(...)`.
 */
module Text {
  import opened Bits

  // ---------------------------------------------------------------------
  // Binary

  /** Exactly w binary digits of the low w bits of x, most significant first. */
  function BinaryDigits(x: nat, w: nat): (s: string)
    ensures |s| == w
    ensures forall i :: 0 <= i < |s| ==> s[i] == '0' || s[i] == '1'
  {
    if w == 0 then "" else BinaryDigits(x / 2, w - 1) + [if x % 2 == 1 then '1' else '0']
  }

  /** Python's `f'{x:0{w}b}'`: binary, zero-padded to at least w digits. */
  function FormatBinary(x: nat, w: nat): (s: string)
    ensures |s| >= w
    ensures forall i :: 0 <= i < |s| ==> s[i] == '0' || s[i] == '1'
  {
    if x < Pow2(w) then BinaryDigits(x, w)
    else
      BitLengthBounds(x);
      Pow2Below(w, BitLength(x));
      BinaryDigits(x, BitLength(x))
  }

  /** Python's `int(s, base=2)` on a string of binary digits. */
  function ParseBinary(s: string): nat
  {
    if s == [] then 0 else 2 * ParseBinary(s[..|s| - 1]) + (if s[|s| - 1] == '1' then 1 else 0)
  }

  /** Reading back w digits gives the low w bits. */
  lemma {:induction false} ParseBinaryDigits(x: nat, w: nat)
    ensures ParseBinary(BinaryDigits(x, w)) == Low(x, w)
  {
    if w != 0 {
      var s := BinaryDigits(x, w);
      assert s[..|s| - 1] == BinaryDigits(x / 2, w - 1);
      ParseBinaryDigits(x / 2, w - 1);
    }
  }

  /** The w digits of a number below 2^w are its zero-padded binary form, and read back to it. */
  lemma FormatBinaryRoundTrip(x: nat, w: nat)
    requires x < Pow2(w)
    ensures FormatBinary(x, w) == BinaryDigits(x, w)
    ensures ParseBinary(FormatBinary(x, w)) == x
  {
    ParseBinaryDigits(x, w);
    LowShr(x, w);
    ShrZero(x, w);
  }

  /** The top a digits of a (a+b)-digit rendering are those of x >> b. */
  lemma {:induction false} BinaryDigitsSplit(x: nat, a: nat, b: nat)
    ensures BinaryDigits(x, a + b) == BinaryDigits(Shr(x, b), a) + BinaryDigits(x, b)
    decreases b
  {
    if b != 0 {
      BinaryDigitsSplit(x / 2, a, b - 1);
      assert a + b - 1 == a + (b - 1);
    }
  }

  // ---------------------------------------------------------------------
  // Hexadecimal

  const HexChars: string := "0123456789abcdef"

  /** Exactly w lower-case hexadecimal digits of x mod 16^w, most significant first. */
  function HexDigits(x: nat, w: nat): (s: string)
    ensures |s| == w
    ensures forall i :: 0 <= i < |s| ==> s[i] in HexChars
  {
    if w == 0 then "" else HexDigits(x / 16, w - 1) + [HexChars[x % 16]]
  }

  /** Number of hexadecimal digits of x (at least one). */
  function HexLength(x: nat): nat
  {
    if x < 16 then 1 else 1 + HexLength(x / 16)
  }

  /** Python's `f'{x:#010x}'`: "0x" and lower-case hex digits, padded to width 10. */
  function FormatHex010(x: nat): string
  {
    "0x" + (if x < Pow(16, 8) then HexDigits(x, 8) else HexDigits(x, HexLength(x)))
  }

  function HexValue(c: char): nat
  {
    if '0' <= c <= '9' then (c as int - '0' as int) as nat
    else if 'a' <= c <= 'f' then (c as int - 'a' as int + 10) as nat
    else 0
  }

  /** Python's `int(s, base=16)` on a string of lower-case hex digits. */
  function ParseHex(s: string): nat
  {
    if s == [] then 0 else 16 * ParseHex(s[..|s| - 1]) + HexValue(s[|s| - 1])
  }

  lemma HexCharValue(d: nat)
    requires d < 16
    ensures HexValue(HexChars[d]) == d
  {
  }

  /** w hex digits read back to x when x is below 16^w. */
  lemma {:induction false} ParseHexDigits(x: nat, w: nat)
    requires x < Pow(16, w)
    ensures ParseHex(HexDigits(x, w)) == x
  {
    if w != 0 {
      var s := HexDigits(x, w);
      assert s[..|s| - 1] == HexDigits(x / 16, w - 1);
      ParseHexDigits(x / 16, w - 1);
      HexCharValue(x % 16);
    }
  }

  // ---------------------------------------------------------------------
  // Decimal

  function DecimalDigit(d: nat): char
    requires d < 10
  {
    "0123456789"[d]
  }

  /** Python's `str(x)` for a non-negative integer. */
  function Decimal(x: nat): (s: string)
    ensures |s| >= 1
    ensures forall i :: 0 <= i < |s| ==> '0' <= s[i] <= '9'
  {
    if x < 10 then [DecimalDigit(x)] else Decimal(x / 10) + [DecimalDigit(x % 10)]
  }

  /** Python's `int(s)` on a string of decimal digits. */
  function ParseDecimal(s: string): nat
  {
    if s == [] then 0
    else 10 * ParseDecimal(s[..|s| - 1]) + (if '0' <= s[|s| - 1] <= '9' then (s[|s| - 1] as int - '0' as int) as nat else 0)
  }

  /** `str` is inverted by `int`. */
  lemma {:induction false} DecimalRoundTrip(x: nat)
    ensures ParseDecimal(Decimal(x)) == x
  {
    DecimalDigitValue(x % 10);
    var s := Decimal(x);
    if x >= 10 {
      assert s[..|s| - 1] == Decimal(x / 10);
      DecimalRoundTrip(x / 10);
    } else {
      assert s[..|s| - 1] == [];
    }
  }

  lemma DecimalDigitValue(d: nat)
    requires d < 10
    ensures '0' <= DecimalDigit(d) <= '9' && DecimalDigit(d) as int - '0' as int == d
  {
  }

  // ---------------------------------------------------------------------
  // Sequences of strings

  /** Python's `sep.join(xs)`. */
  function Join(xs: seq<string>, sep: string): string
  {
    if xs == [] then "" else if |xs| == 1 then xs[0] else xs[0] + sep + Join(xs[1..], sep)
  }

  /** Python's `s[::-1]` on a list. */
  function Reverse<T>(s: seq<T>): (r: seq<T>)
    ensures |r| == |s|
    ensures forall i :: 0 <= i < |s| ==> r[i] == s[|s| - 1 - i]
  {
    if s == [] then [] else Reverse(s[1..]) + [s[0]]
  }

  /** Python's `[s[i:i + w] for i in range(0, w * count, w)]`. */
  function Chunks(s: string, w: nat, count: nat): (r: seq<string>)
    requires |s| >= w * count
    ensures |r| == count
    ensures forall t :: 0 <= t < count ==> |r[t]| == w
  {
    if count == 0 then []
    else
      assert w * count == w + w * (count - 1);
      [s[..w]] + Chunks(s[w..], w, count - 1)
  }

  /** One step of the chunking: the first chunk, and the rest chunked again. */
  lemma ChunksCons(s: string, w: nat, c: nat, t: nat)
    requires |s| >= w * c
    requires t < c
    ensures |s[w..]| >= w * (c - 1)
    ensures Chunks(s, w, c)[t] == if t == 0 then s[..w] else Chunks(s[w..], w, c - 1)[t - 1]
  {
    assert w * c == w + w * (c - 1);
  }

  /**
   * Cutting the (w*c)-digit binary rendering of x into c chunks of w digits
   * gives the words of x from the most significant down: chunk t holds bits
   * w*(c-1-t) .. w*(c-t)-1.
   */
  lemma ChunkOfDigits(x: nat, w: nat, c: nat, t: nat, k: nat)
    requires t < c && k == c - 1 - t
    ensures Chunks(BinaryDigits(x, w * c), w, c)[t] == BinaryDigits(Shr(x, w * k), w)
  {
    ChunkOfDigitsAt(x, w, c, t, w * c, w * k);
  }

  /** ChunkOfDigits with the products w*c and w*(c-1-t) given as n and e. */
  lemma {:induction false} ChunkOfDigitsAt(x: nat, w: nat, c: nat, t: nat, n: nat, e: nat)
    requires t < c && n == w * c && e == w * (c - 1 - t)
    ensures Chunks(BinaryDigits(x, n), w, c)[t] == BinaryDigits(Shr(x, e), w)
    decreases t
  {
    var b := n - w;
    assert b == w * (c - 1);
    ChunksOfSplit(x, w, c, t, b);
    if t != 0 {
      ChunkOfDigitsAt(x, w, c - 1, t - 1, b, e);
    }
  }

  /** The first chunk of the w*c digits holds x shifted right by b = w*(c-1); the others chunk x's last b digits. */
  lemma ChunksOfSplit(x: nat, w: nat, c: nat, t: nat, b: nat)
    requires t < c && b == w * (c - 1)
    ensures Chunks(BinaryDigits(x, w * c), w, c)[t] ==
      if t == 0 then BinaryDigits(Shr(x, b), w) else Chunks(BinaryDigits(x, b), w, c - 1)[t - 1]
  {
    assert w * c == w + b;
    var s := BinaryDigits(x, w * c);
    BinaryDigitsSplit(x, w, b);
    assert s[..w] == BinaryDigits(Shr(x, b), w) && s[w..] == BinaryDigits(x, b);
    ChunksCons(s, w, c, t);
  }

  // ---------------------------------------------------------------------
  // Reading emitted lists back

  /** s without braces and blanks. */
  function Strip(s: string): string
  {
    if s == [] then []
    else (if s[0] in "{} " then [] else [s[0]]) + Strip(s[1..])
  }

  lemma {:induction false} StripConcat(a: string, b: string)
    ensures Strip(a + b) == Strip(a) + Strip(b)
  {
    if a == [] {
      assert a + b == b;
    } else {
      assert (a + b)[0] == a[0];
      assert (a + b)[1..] == a[1..] + b;
      StripConcat(a[1..], b);
    }
  }

  /** Decimal digits are kept. */
  lemma {:induction false} StripDigits(s: string)
    requires forall i :: 0 <= i < |s| ==> '0' <= s[i] <= '9'
    ensures Strip(s) == s
  {
    if s != [] {
      StripDigits(s[1..]);
    }
  }

  function StripEach(xs: seq<string>): (r: seq<string>)
    ensures |r| == |xs|
    ensures forall i :: 0 <= i < |xs| ==> r[i] == Strip(xs[i])
  {
    if xs == [] then [] else [Strip(xs[0])] + StripEach(xs[1..])
  }

  /** Stripping a ", "-joined list leaves the items joined by ",". */
  lemma {:induction false} StripJoin(xs: seq<string>)
    ensures Strip(Join(xs, ", ")) == Join(StripEach(xs), ",")
  {
    if |xs| >= 2 {
      StripJoin(xs[1..]);
      StripConcat(xs[0] + ", ", Join(xs[1..], ", "));
      StripConcat(xs[0], ", ");
      assert Strip(", ") == ",";
      assert StripEach(xs)[1..] == StripEach(xs[1..]);
    } else if |xs| == 1 {
    }
  }

  /** Joining joined groups gives the join of all items, when no group is empty. */
  lemma {:induction false} JoinGroups(ys: seq<seq<string>>, sep: string)
    requires forall i :: 0 <= i < |ys| ==> |ys[i]| >= 1
    ensures Join(seq(|ys|, i requires 0 <= i < |ys| => Join(ys[i], sep)), sep) == Join(Concat(ys), sep)
  {
    if |ys| >= 2 {
      var gs := seq(|ys|, i requires 0 <= i < |ys| => Join(ys[i], sep));
      assert gs[1..] == seq(|ys| - 1, i requires 0 <= i < |ys| - 1 => Join(ys[1..][i], sep));
      JoinGroups(ys[1..], sep);
      JoinAppend(ys[0], Concat(ys[1..]), sep);
    } else if |ys| == 1 {
      assert ys[1..] == [];
      assert Concat(ys) == ys[0];
    }
  }

  /** Python's `[x for y in ys for x in y]`. */
  function Concat<T>(ys: seq<seq<T>>): seq<T>
  {
    if ys == [] then [] else ys[0] + Concat(ys[1..])
  }

  /** Join of two non-empty lists is the two joins around one separator. */
  lemma {:induction false} JoinAppend(a: seq<string>, b: seq<string>, sep: string)
    requires |a| >= 1 && |b| >= 1
    ensures Join(a + b, sep) == Join(a, sep) + sep + Join(b, sep)
  {
    if |a| >= 2 {
      assert (a + b)[1..] == a[1..] + b;
      JoinAppend(a[1..], b, sep);
    } else {
      assert (a + b)[1..] == b;
    }
  }
}
