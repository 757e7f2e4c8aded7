/**
 * Renumbering of pointer addresses in Geant4-exported GDML names.
 *
 * Every leftmost-longest occurrence of `0x` followed by at least four
 * lower-case hexadecimal digits is replaced. The address is numbered, in
 * order of first appearance, among the addresses seen behind the same prefix
 * (the original text before the occurrence). Index 0 is replaced by nothing
 * and index k by "@k".
 */
module PointerReplacement {
  import opened Wrappers
  import opened PyDict
  import opened Text

  // ---------------------------------------------------------------------
  // The pattern 0x[0-9a-f]{4,}

  predicate IsHexDigit(c: char)
  {
    '0' <= c <= '9' || 'a' <= c <= 'f'
  }

  /** A text the pattern matches in full. */
  predicate IsPointer(t: string)
  {
    |t| >= 6 && t[0] == '0' && t[1] == 'x' && forall j :: 2 <= j < |t| ==> IsHexDigit(t[j])
  }

  /** The length of the run of hexadecimal digits starting at i. */
  function HexRun(s: string, i: nat): (n: nat)
    requires i <= |s|
    ensures i + n <= |s|
    ensures forall j :: i <= j < i + n ==> IsHexDigit(s[j])
    ensures i + n == |s| || !IsHexDigit(s[i + n])
    decreases |s| - i
  {
    if i < |s| && IsHexDigit(s[i]) then 1 + HexRun(s, i + 1) else 0
  }

  /** The pattern matches at position i. */
  predicate MatchAt(s: string, i: nat)
    requires i <= |s|
  {
    i + 2 <= |s| && s[i] == '0' && s[i + 1] == 'x' && HexRun(s, i + 2) >= 4
  }

  /** Where the greedy match at position i ends. */
  function MatchEnd(s: string, i: nat): (e: nat)
    requires i <= |s| && MatchAt(s, i)
    ensures i + 6 <= e <= |s|
  {
    i + 2 + HexRun(s, i + 2)
  }

  /**
   * A match at i runs to the longest pointer text starting there; where
   * there is no match, no pointer text starts.
   */
  lemma MatchAtSpec(s: string, i: nat)
    requires i <= |s|
    ensures MatchAt(s, i) ==>
      && IsPointer(s[i..MatchEnd(s, i)])
      && (MatchEnd(s, i) == |s| || !IsHexDigit(s[MatchEnd(s, i)]))
      && forall e :: MatchEnd(s, i) < e <= |s| ==> !IsPointer(s[i..e])
    ensures !MatchAt(s, i) ==> forall e :: i <= e <= |s| ==> !IsPointer(s[i..e])
  {
    if MatchAt(s, i) {
      var m := MatchEnd(s, i);
      forall e | m < e <= |s|
        ensures !IsPointer(s[i..e])
      {
        assert s[i..e][m - i] == s[m];
      }
    } else {
      forall e | i <= e <= |s|
        ensures !IsPointer(s[i..e])
      {
        PointerMatches(s, i, e);
      }
    }
  }

  /** A pointer text starting at i means the pattern matches there. */
  lemma PointerMatches(s: string, i: nat, e: nat)
    requires i <= e <= |s|
    ensures IsPointer(s[i..e]) ==> MatchAt(s, i)
  {
    if IsPointer(s[i..e]) {
      forall j | i + 2 <= j < i + 6
        ensures IsHexDigit(s[j])
      {
        assert s[j] == s[i..e][j - i];
      }
      HexRunAtLeast(s, i + 2, 4);
      assert s[i] == s[i..e][0] && s[i + 1] == s[i..e][1];
    }
  }

  /** A run of k hexadecimal digits from i makes the maximal run at least k long. */
  lemma {:induction false} HexRunAtLeast(s: string, i: nat, k: nat)
    requires i + k <= |s|
    requires forall j :: i <= j < i + k ==> IsHexDigit(s[j])
    ensures HexRun(s, i) >= k
    decreases k
  {
    if k > 0 {
      HexRunAtLeast(s, i + 1, k - 1);
    }
  }

  /** A piece of the input: one character copied, or one pattern match. */
  datatype Piece = Plain(at: nat) | Match(start: nat, end: nat)

  predicate PiecesIn(s: string, ps: seq<Piece>)
  {
    forall k :: 0 <= k < |ps| ==>
      match ps[k]
      case Plain(j) => j < |s|
      case Match(a, b) => a <= b <= |s|
  }

  function PieceText(s: string, p: Piece): string
    requires match p case Plain(j) => j < |s| case Match(a, b) => a <= b <= |s|
  {
    match p
    case Plain(j) => [s[j]]
    case Match(a, b) => s[a..b]
  }

  /** How `re.sub` cuts s[i..] into copied characters and matches, scanning left to right. */
  function Pieces(s: string, i: nat): (ps: seq<Piece>)
    requires i <= |s|
    ensures PiecesIn(s, ps)
    decreases |s| - i
  {
    if i == |s| then []
    else if MatchAt(s, i) then [Match(i, MatchEnd(s, i))] + Pieces(s, MatchEnd(s, i))
    else [Plain(i)] + Pieces(s, i + 1)
  }

  function Texts(s: string, ps: seq<Piece>): string
    requires PiecesIn(s, ps)
  {
    if ps == [] then "" else PieceText(s, ps[0]) + Texts(s, ps[1..])
  }

  /** The pieces tile the rest of the input, in order. */
  lemma {:induction false} PiecesTile(s: string, i: nat)
    requires i <= |s|
    ensures Texts(s, Pieces(s, i)) == s[i..]
    decreases |s| - i
  {
    if i < |s| {
      if MatchAt(s, i) {
        var m := MatchEnd(s, i);
        PiecesTile(s, m);
        TextsCons(s, Match(i, m), Pieces(s, m));
        SliceSplit(s, i, m);
      } else {
        PiecesTile(s, i + 1);
        TextsCons(s, Plain(i), Pieces(s, i + 1));
        SliceSplit(s, i, i + 1);
      }
    }
  }

  lemma SliceSplit<T>(x: seq<T>, i: nat, m: nat)
    requires i <= m <= |x|
    ensures x[i..] == x[i..m] + x[m..]
    ensures m == i + 1 ==> x[i..m] == [x[i]]
  {
  }

  lemma TextsCons(s: string, p: Piece, ps: seq<Piece>)
    requires PiecesIn(s, [p] + ps)
    ensures PiecesIn(s, ps) && match p case Plain(j) => j < |s| case Match(a, b) => a <= b <= |s|
    ensures Texts(s, [p] + ps) == PieceText(s, p) + Texts(s, ps)
  {
    assert ([p] + ps)[0] == p;
    assert ([p] + ps)[1..] == ps;
  }

  /**
   * Each match is a pointer text that cannot be extended, and no match
   * starts at a copied character: the matches are leftmost-longest.
   */
  lemma {:induction false} PiecesSpec(s: string, i: nat, k: nat)
    requires i <= |s| && k < |Pieces(s, i)|
    ensures Pieces(s, i)[k].Match? ==>
      var p := Pieces(s, i)[k];
      && i <= p.start
      && IsPointer(s[p.start..p.end])
      && (p.end == |s| || !IsHexDigit(s[p.end]))
    ensures Pieces(s, i)[k].Plain? ==>
      i <= Pieces(s, i)[k].at && !MatchAt(s, Pieces(s, i)[k].at)
  {
    PiecesSound(s, i, k);
  }

  /** Where a piece starts. */
  function Start(p: Piece): nat
  {
    match p
    case Plain(j) => j
    case Match(a, _) => a
  }

  /** A piece as the scan makes it: a maximal pointer text, or a character where no match starts. */
  predicate PieceSound(s: string, p: Piece)
  {
    match p
    case Match(a, b) => a <= b <= |s| && IsPointer(s[a..b]) && (b == |s| || !IsHexDigit(s[b]))
    case Plain(j) => j < |s| && !MatchAt(s, j)
  }

  lemma {:induction false} PiecesSound(s: string, i: nat, k: nat)
    requires i <= |s| && k < |Pieces(s, i)|
    ensures i <= Start(Pieces(s, i)[k]) && PieceSound(s, Pieces(s, i)[k])
    decreases |s| - i
  {
    if k == 0 {
      if MatchAt(s, i) {
        MatchPiece(s, i);
      }
    } else {
      var n := PiecesShift(s, i, k);
      PiecesSound(s, n, k - 1);
    }
  }

  /** After the first piece, the scan goes on where that piece ends. */
  lemma PiecesShift(s: string, i: nat, k: nat) returns (n: nat)
    requires i <= |s| && 0 < k < |Pieces(s, i)|
    ensures i < n <= |s| && k - 1 < |Pieces(s, n)| && Pieces(s, i)[k] == Pieces(s, n)[k - 1]
  {
    n := if MatchAt(s, i) then MatchEnd(s, i) else i + 1;
  }

  /** The match at i is a pointer text that cannot be extended. */
  lemma MatchPiece(s: string, i: nat)
    requires i <= |s| && MatchAt(s, i)
    ensures IsPointer(s[i..MatchEnd(s, i)])
    ensures MatchEnd(s, i) == |s| || !IsHexDigit(s[MatchEnd(s, i)])
  {
    MatchAtSpec(s, i);
  }

  // ---------------------------------------------------------------------
  // Numbering

  /** Addresses seen behind each prefix, with their indices: `addrs`. */
  type Addrs = Dict<string, PrefixAddrs>

  /** The addresses seen behind one prefix, with their indices: `prefix_addrs`. */
  type PrefixAddrs = Dict<string, nat>

  /** Each address's index is its position among the addresses seen behind its prefix. */
  predicate Numbered(d: Dict<string, nat>)
  {
    DistinctKeys(d) && forall j :: 0 <= j < |d| ==> d[j].1 == j
  }

  predicate AddrsValid(a: Addrs)
  {
    DistinctKeys(a) && forall p :: 0 <= p < |a| ==> Numbered(a[p].1)
  }

  /** b extends a: prefixes and addresses are only ever added, never altered or reordered. */
  predicate Grows(a: Addrs, b: Addrs)
  {
    |a| <= |b| && forall p :: 0 <= p < |a| ==> b[p].0 == a[p].0 && a[p].1 <= b[p].1
  }

  /** The replacement text for an index. */
  function Replacement(idx: nat): (r: string)
  {
    if idx == 0 then "" else "@" + Decimal(idx)
  }

  /** Index 0 leaves nothing, any other index k leaves "@k", and "@k" reads back as k. */
  lemma ReplacementSpec(idx: nat)
    ensures Replacement(idx) == "" <==> idx == 0
    ensures idx > 0 ==> Replacement(idx)[0] == '@' && ParseDecimal(Replacement(idx)[1..]) == idx
  {
    if idx > 0 {
      DecimalRoundTrip(idx);
      assert Replacement(idx)[1..] == Decimal(idx);
    }
  }

  /** `repl` on the match s[start..end]: the new `addrs` and the replacement text. */
  function Replace(a: Addrs, s: string, start: nat, end: nat): (Addrs, string)
    requires start <= end <= |s|
  {
    var prefix := s[..start];
    var d := Get<string, PrefixAddrs>(a, prefix, []);
    var (d', idx) := SetDefault<string, nat>(d, s[start..end], |d|);
    (Put<string, PrefixAddrs>(a, prefix, d'), Replacement(idx))
  }

  /**
   * `repl` gives an address already seen behind the same prefix its earlier
   * index back and changes nothing. A new address gets the next index, the
   * number of addresses seen so far behind that prefix. Other prefixes are
   * untouched.
   */
  lemma ReplaceSpec(a: Addrs, s: string, start: nat, end: nat, q: string)
    requires start <= end <= |s| && AddrsValid(a)
    ensures var (b, r) := Replace(a, s, start, end);
      var d := Get<string, PrefixAddrs>(a, s[..start], []);
      && AddrsValid(b)
      && Grows(a, b)
      && (Contains(d, s[start..end]) ==> b == a && r == Replacement(Get<string, nat>(d, s[start..end], 0)))
      && (!Contains(d, s[start..end]) ==>
            Get<string, PrefixAddrs>(b, s[..start], []) == d + [(s[start..end], |d|)] && r == Replacement(|d|))
      && (q != s[..start] ==> Get<string, PrefixAddrs>(b, q, []) == Get<string, PrefixAddrs>(a, q, []))
  {
    var prefix, addr := s[..start], s[start..end];
    var d := Get<string, PrefixAddrs>(a, prefix, []);
    GetNumbered(a, prefix);
    var d': Dict<string, nat> := SetDefault<string, nat>(d, addr, |d|).0;
    SetDefaultNumbered(d, addr);
    PutNumbered(a, prefix, d');
    PutGet<string, PrefixAddrs>(a, prefix, d', q, []);
    PutGet<string, PrefixAddrs>(a, prefix, d', prefix, []);
    if Contains(d, addr) {
      PutSame(a, prefix);
    }
  }

  lemma GetNumbered(a: Addrs, prefix: string)
    requires AddrsValid(a)
    ensures Numbered(Get<string, PrefixAddrs>(a, prefix, []))
  {
    if Contains(a, prefix) {
      assert Get<string, PrefixAddrs>(a, prefix, []) == a[Find(a, prefix).value].1;
    }
  }

  /** `setdefault(addr, len(d))` keeps the numbering, extending d by at most the new address. */
  lemma SetDefaultNumbered(d: Dict<string, nat>, addr: string)
    requires Numbered(d)
    ensures Numbered(SetDefault<string, nat>(d, addr, |d|).0)
    ensures d <= SetDefault<string, nat>(d, addr, |d|).0
  {
    SetDefaultSpec<string, nat>(d, addr, |d|);
  }

  lemma PutNumbered(a: Addrs, prefix: string, d': Dict<string, nat>)
    requires AddrsValid(a) && Numbered(d') && Get<string, PrefixAddrs>(a, prefix, []) <= d'
    ensures AddrsValid(Put<string, PrefixAddrs>(a, prefix, d')) && Grows(a, Put<string, PrefixAddrs>(a, prefix, d'))
  {
    PutGet<string, PrefixAddrs>(a, prefix, d', prefix, []);
  }

  /** Storing back the same entry changes nothing. */
  lemma PutSame(a: Addrs, prefix: string)
    requires Contains(a, prefix)
    ensures Put<string, PrefixAddrs>(a, prefix, Get<string, PrefixAddrs>(a, prefix, [])) == a
  {
    var p := Find(a, prefix).value;
    assert a[p] == (prefix, Get<string, PrefixAddrs>(a, prefix, []));
  }

  /** `re.sub(repl, ...)` over the pieces of s, threading `addrs` through the calls. */
  function Sub(a: Addrs, s: string, ps: seq<Piece>): (Addrs, string)
    requires PiecesIn(s, ps)
    decreases ps
  {
    if ps == [] then (a, "")
    else
      match ps[0]
      case Plain(j) =>
        var (b, out) := Sub(a, s, ps[1..]);
        (b, [s[j]] + out)
      case Match(st, en) =>
        var (a1, r) := Replace(a, s, st, en);
        var (b, out) := Sub(a1, s, ps[1..]);
        (b, r + out)
  }

  /** One piece: a copied character, or a match given to `repl`. */
  function SubOne(a: Addrs, s: string, p: Piece): (Addrs, string)
    requires PiecesIn(s, [p])
  {
    assert [p][0] == p;
    match p
    case Plain(j) => (a, [s[j]])
    case Match(st, en) => Replace(a, s, st, en)
  }

  lemma SubCons(a: Addrs, s: string, ps: seq<Piece>)
    requires PiecesIn(s, ps) && |ps| >= 1
    ensures PiecesIn(s, [ps[0]]) && PiecesIn(s, ps[1..])
    ensures var (a1, t) := SubOne(a, s, ps[0]);
      Sub(a, s, ps) == (Sub(a1, s, ps[1..]).0, t + Sub(a1, s, ps[1..]).1)
  {
    assert [ps[0]][0] == ps[0];
  }

  /** `PointerReplacer.__call__`: the rewritten string and the new `addrs`. */
  function Rewrite(a: Addrs, s: string): (Addrs, string)
  {
    Sub(a, s, Pieces(s, 0))
  }

  lemma GrowsTransitive(a: Addrs, b: Addrs, c: Addrs)
    requires Grows(a, b) && Grows(b, c)
    ensures Grows(a, c)
  {
  }

  /** Rewriting keeps `addrs` valid and only adds to it. */
  lemma {:induction false} SubGrows(a: Addrs, s: string, ps: seq<Piece>)
    requires PiecesIn(s, ps) && AddrsValid(a)
    ensures AddrsValid(Sub(a, s, ps).0) && Grows(a, Sub(a, s, ps).0)
    decreases ps
  {
    if ps != [] {
      match ps[0]
      case Plain(j) =>
        SubGrows(a, s, ps[1..]);
      case Match(st, en) =>
        ReplaceSpec(a, s, st, en, "");
        var a1 := Replace(a, s, st, en).0;
        SubGrows(a1, s, ps[1..]);
        GrowsTransitive(a, a1, Sub(a1, s, ps[1..]).0);
    }
  }

  /** An address numbered behind a prefix keeps its number in every extension. */
  lemma GrowsKeeps(a: Addrs, b: Addrs, prefix: string, addr: string)
    requires AddrsValid(a) && AddrsValid(b) && Grows(a, b)
    requires Contains(Get<string, PrefixAddrs>(a, prefix, []), addr)
    ensures Contains(Get<string, PrefixAddrs>(b, prefix, []), addr)
    ensures Get<string, nat>(Get<string, PrefixAddrs>(b, prefix, []), addr, 0) == Get<string, nat>(Get<string, PrefixAddrs>(a, prefix, []), addr, 0)
  {
    var p := Find(a, prefix).value;
    FindUnique(b, prefix, p);
    var d, e := a[p].1, b[p].1;
    var j := Find(d, addr).value;
    assert e[j] == d[j];
    FindUnique(e, addr, j);
  }

  /**
   * Once s has been rewritten, every later state that extends the result
   * rewrites it to the same text and stays as it is.
   */
  lemma {:induction false} SubStable(a: Addrs, b: Addrs, s: string, ps: seq<Piece>)
    requires PiecesIn(s, ps) && AddrsValid(a) && AddrsValid(b) && Grows(Sub(a, s, ps).0, b)
    ensures Sub(b, s, ps) == (b, Sub(a, s, ps).1)
    decreases ps
  {
    if ps != [] {
      match ps[0]
      case Plain(j) =>
        SubStable(a, b, s, ps[1..]);
      case Match(st, en) =>
        ReplaceSpec(a, s, st, en, "");
        var a1 := Replace(a, s, st, en).0;
        SubGrows(a1, s, ps[1..]);
        GrowsTransitive(a1, Sub(a1, s, ps[1..]).0, b);
        ReplaceStable(a, b, s, st, en);
        SubStable(a1, b, s, ps[1..]);
    }
  }

  /** Replacing one match again, against any later `addrs`, changes nothing and gives the same text. */
  lemma ReplaceStable(a: Addrs, b: Addrs, s: string, st: nat, en: nat)
    requires st <= en <= |s| && AddrsValid(a) && AddrsValid(b) && Grows(Replace(a, s, st, en).0, b)
    ensures Replace(b, s, st, en) == (b, Replace(a, s, st, en).1)
  {
    ReplaceSpec(a, s, st, en, "");
    var (a1, r) := Replace(a, s, st, en);
    var prefix, addr := s[..st], s[st..en];
    var d := Get<string, PrefixAddrs>(a, prefix, []);
    assert Contains(Get<string, PrefixAddrs>(a1, prefix, []), addr) && r == Replacement(Get<string, nat>(Get<string, PrefixAddrs>(a1, prefix, []), addr, 0)) by {
      if !Contains(d, addr) {
        var d1 := d + [(addr, |d|)];
        FindUnique(d1, addr, |d|);
      }
    }
    GrowsKeeps(a1, b, prefix, addr);
    ReplaceSpec(b, s, st, en, "");
  }

  /** Rewriting the same string again gives the same text and changes nothing. */
  lemma RewriteIdempotent(a: Addrs, s: string)
    requires AddrsValid(a)
    ensures var (b, out) := Rewrite(a, s);
      AddrsValid(b) && Grows(a, b) && Rewrite(b, s) == (b, out)
  {
    SubGrows(a, s, Pieces(s, 0));
    SubStable(a, Rewrite(a, s).0, s, Pieces(s, 0));
  }

  /** Once s has been rewritten, any later `addrs` rewrites it to the same text and is left as it is. */
  lemma RewriteStable(a: Addrs, b: Addrs, s: string)
    requires AddrsValid(a) && AddrsValid(b) && Grows(Rewrite(a, s).0, b)
    ensures Rewrite(b, s) == (b, Rewrite(a, s).1)
  {
    SubStable(a, b, s, Pieces(s, 0));
  }

  /** A string without any pointer text is left as it is, and so is `addrs`. */
  lemma {:induction false} RewriteNoPointer(a: Addrs, s: string, i: nat)
    requires i <= |s|
    requires forall j :: i <= j < |s| ==> !MatchAt(s, j)
    ensures Sub(a, s, Pieces(s, i)) == (a, s[i..])
    decreases |s| - i
  {
    if i < |s| {
      var ps := Pieces(s, i);
      PiecesNoMatch(s, i);
      RewriteNoPointer(a, s, i + 1);
      assert ps[1..] == Pieces(s, i + 1);
      SubPlain(a, s, ps, i);
      assert s[i..] == [s[i]] + s[i + 1..];
    }
  }

  lemma PiecesNoMatch(s: string, i: nat)
    requires i < |s| && !MatchAt(s, i)
    ensures Pieces(s, i) == [Plain(i)] + Pieces(s, i + 1)
  {
  }

  lemma SubPlain(a: Addrs, s: string, ps: seq<Piece>, i: nat)
    requires PiecesIn(s, ps) && |ps| >= 1 && ps[0] == Plain(i)
    ensures Sub(a, s, ps) == (Sub(a, s, ps[1..]).0, [s[i]] + Sub(a, s, ps[1..]).1)
  {
  }

  lemma PutPut<K, V>(d: Dict<K, V>, k: K, v: V, w: V)
    requires DistinctKeys(d)
    ensures Put(Put(d, k, v), k, w) == Put(d, k, w)
  {
    if Find(d, k).None? {
      FindUnique(d + [(k, v)], k, |d|);
    } else {
      FindUnique(d[Find(d, k).value := (k, v)], k, Find(d, k).value);
    }
  }

  /** `PointerReplacer`. */
  class PointerReplacer {
    var addrs: Addrs

    constructor()
      ensures addrs == []
    {
      addrs := [];
    }

    /** `repl`: number the match s[start..end] and return its replacement. */
    method Repl(s: string, start: nat, end: nat) returns (r: string)
      requires start <= end <= |s| && AddrsValid(addrs)
      modifies this
      ensures (addrs, r) == Replace(old(addrs), s, start, end)
    {
      var addr := s[start..end];
      var prefix := s[..start];
      // `self.addrs[prefix]` inserts an empty dictionary for a new prefix
      var prefixAddrs := Get<string, PrefixAddrs>(addrs, prefix, []);
      var (updated, idx) := SetDefault<string, nat>(prefixAddrs, addr, |prefixAddrs|);
      PutPut<string, PrefixAddrs>(addrs, prefix, prefixAddrs, updated);
      addrs := Put<string, PrefixAddrs>(addrs, prefix, prefixAddrs);
      addrs := Put<string, PrefixAddrs>(addrs, prefix, updated);
      if idx == 0 {
        return "";
      }
      r := "@" + Decimal(idx);
    }

    /** `re.sub`'s treatment of one piece: copy the character, or call `repl` on the match. */
    method SubPiece(s: string, p: Piece) returns (t: string)
      requires PiecesIn(s, [p]) && AddrsValid(addrs)
      modifies this
      ensures (addrs, t) == SubOne(old(addrs), s, p)
      ensures AddrsValid(addrs)
    {
      assert [p][0] == p;
      match p {
        case Plain(j) =>
          t := [s[j]];
        case Match(st, en) =>
          ReplaceSpec(addrs, s, st, en, "");
          t := Repl(s, st, en);
      }
    }

    /** `__call__`: rewrite every pointer in s. */
    method Call(s: string) returns (r: string)
      requires AddrsValid(addrs)
      modifies this
      ensures (addrs, r) == Rewrite(old(addrs), s)
      ensures AddrsValid(addrs)
    {
      var pieces := Pieces(s, 0);
      r := "";
      var k := 0;
      assert pieces[k..] == pieces;
      assert r + Sub(addrs, s, pieces[k..]).1 == Sub(addrs, s, pieces[k..]).1;
      while k < |pieces|
        invariant 0 <= k <= |pieces|
        invariant AddrsValid(addrs)
        invariant Rewrite(old(addrs), s) == (Sub(addrs, s, pieces[k..]).0, r + Sub(addrs, s, pieces[k..]).1)
        decreases |pieces| - k
      {
        SubCons(addrs, s, pieces[k..]);
        assert pieces[k..][0] == pieces[k] && pieces[k..][1..] == pieces[k + 1..];
        var t := SubPiece(s, pieces[k]);
        ghost var rest := Sub(addrs, s, pieces[k + 1..]).1;
        assert (r + t) + rest == r + (t + rest);
        r := r + t;
        k := k + 1;
      }
      assert pieces[k..] == [];
      assert Sub(addrs, s, pieces[k..]) == (addrs, "");
      assert r + "" == r;
    }
  }
}
