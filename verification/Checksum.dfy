/** The IPv4 header checksum (section 1 of RFC 1071) and its incremental update (section 3 of RFC 1624). */
module Checksum {
  import opened Words

  /** One's complement addition: the carry wraps around. */
  function OnesAdd(a: u16, b: u16): (r: u16) {
    if a + b > 0xffff then a + b - 0xffff else a + b
  }

  /** One's complement sum of 16-bit words, added one at a time. */
  function OnesSum(ws: seq<u16>): (r: u16)
    decreases |ws|
  {
    if ws == [] then 0 else OnesAdd(OnesSum(ws[..|ws| - 1]), ws[|ws| - 1])
  }

  /** A received header is intact when its one's complement sum is all ones. */
  predicate Valid(ws: seq<u16>) {
    OnesSum(ws) == 0xffff
  }

  function Sum(ws: seq<u16>): (r: nat)
    decreases |ws|
  {
    if ws == [] then 0 else Sum(ws[..|ws| - 1]) + ws[|ws| - 1]
  }

  /** `(sum & 0xffff) + (sum >> 16)`. */
  function Fold(s: nat): (r: nat) {
    s % 0x1_0000 + s / 0x1_0000
  }

  /** Folding keeps the residue modulo 65535 and does not turn a non-zero sum into zero. */
  lemma FoldKeeps(s: nat)
    ensures Fold(s) % 0xffff == s % 0xffff && (Fold(s) == 0 <==> s == 0)
  {
    assert s - Fold(s) == 0xffff * (s / 0x1_0000);
  }

  lemma {:induction false} SumBound(ws: seq<u16>)
    ensures Sum(ws) <= 0xffff * |ws|
    decreases |ws|
  {
    if ws != [] {
      SumBound(ws[..|ws| - 1]);
    }
  }

  lemma {:induction false} OnesSumResidue(ws: seq<u16>)
    ensures OnesSum(ws) % 0xffff == Sum(ws) % 0xffff && (OnesSum(ws) == 0 <==> Sum(ws) == 0)
    decreases |ws|
  {
    if ws != [] {
      OnesSumResidue(ws[..|ws| - 1]);
    }
  }

  /** The second fold of a sum of at most 65536 words fits in 16 bits. */
  lemma FoldBounds(s: nat)
    requires s <= 0xffff * 0x1_0000
    ensures Fold(s) <= 0x1_fffe && Fold(Fold(s)) <= 0xffff
  {
    assert s / 0x1_0000 <= 0xffff;
    assert Fold(s) / 0x1_0000 <= 1;
  }

  /** A 16-bit value is known by its residue modulo 65535 and by whether it is zero. */
  lemma SameResidue(a: nat, b: nat)
    requires a <= 0xffff && b <= 0xffff && a % 0xffff == b % 0xffff && (a == 0 <==> b == 0)
    ensures a == b
  {
  }

  /** Two folds of the plain sum give the one's complement sum, for any header and far beyond. */
  lemma TwoFoldsSuffice(ws: seq<u16>)
    requires |ws| <= 0x1_0000
    ensures Fold(Fold(Sum(ws))) == OnesSum(ws)
  {
    var s, o := Sum(ws), OnesSum(ws);
    SumBound(ws);
    OnesSumResidue(ws);
    FoldKeeps(s);
    FoldKeeps(Fold(s));
    FoldBounds(s);
    SameResidue(Fold(Fold(s)), o);
  }

  lemma ValidIff(ws: seq<u16>)
    ensures Valid(ws) <==> Sum(ws) % 0xffff == 0 && Sum(ws) != 0
  {
    OnesSumResidue(ws);
  }

  /** `incremental_csum`. */
  function IncrementalCsum(oldCheck: u16, oldHalf: u16, newHalf: u16): (r: u16) {
    var sum := (0xffff - oldCheck) + (0xffff - oldHalf) + newHalf;
    0xffff - Fold(Fold(sum))
  }

  lemma Congruent(a: int, b: int, k: int)
    requires a == b + 0xffff * k
    ensures a % 0xffff == b % 0xffff
  {
  }

  /** What a fold takes away. */
  lemma FoldTakes(s: nat)
    ensures Fold(s) == s - 0xffff * (s / 0x1_0000)
  {
  }

  /** The new checksum and half-word together replace the old ones, modulo 65535. */
  lemma IncrementalResidue(oldCheck: u16, oldHalf: u16, newHalf: u16) returns (k: int)
    ensures IncrementalCsum(oldCheck, oldHalf, newHalf) + newHalf == oldCheck + oldHalf + 0xffff * k
  {
    var sum := (0xffff - oldCheck) + (0xffff - oldHalf) + newHalf;
    FoldTakes(sum);
    FoldTakes(Fold(sum));
    k := sum / 0x1_0000 + Fold(sum) / 0x1_0000 - 1;
  }

  lemma {:induction false} SumUpdate(ws: seq<u16>, i: nat, w: u16)
    requires i < |ws|
    ensures Sum(ws[i := w]) == Sum(ws) - ws[i] + w
    decreases |ws|
  {
    var n := |ws| - 1;
    if i == n {
      assert ws[i := w][..n] == ws[..n];
    } else {
      assert ws[i := w][..n] == ws[..n][i := w];
      SumUpdate(ws[..n], i, w);
    }
  }

  /** Rewriting one half-word and the checksum incrementally neither breaks an intact header nor repairs a broken
      one. */
  lemma IncrementalUpdate(ws: seq<u16>, at: nat, check: nat, newHalf: u16)
    requires at < |ws| && check < |ws| && at != check
    ensures var c := IncrementalCsum(ws[check], ws[at], newHalf);
            var updated := ws[at := newHalf][check := c];
            Sum(updated) % 0xffff == Sum(ws) % 0xffff
            && (Sum(updated) != 0 && Sum(ws) != 0 ==> (Valid(updated) <==> Valid(ws)))
  {
    var c := IncrementalCsum(ws[check], ws[at], newHalf);
    var updated := ws[at := newHalf][check := c];
    SumUpdate(ws, at, newHalf);
    SumUpdate(ws[at := newHalf], check, c);
    var k := IncrementalResidue(ws[check], ws[at], newHalf);
    assert Sum(updated) == Sum(ws) + 0xffff * k;
    Congruent(Sum(updated), Sum(ws), k);
    ValidIff(ws);
    ValidIff(updated);
  }

  lemma {:induction false} SumAtLeast(ws: seq<u16>, i: nat)
    requires i < |ws|
    ensures Sum(ws) >= ws[i]
    decreases |ws|
  {
    if i < |ws| - 1 {
      SumAtLeast(ws[..|ws| - 1], i);
    }
  }

  // ---- Bytes -----------------------------------------------------------------------------------

  function Half(hi: u8, lo: u8): (w: u16) {
    hi * 256 + lo
  }

  /** The big-endian 16-bit words of a header. */
  function WordsOf(h: seq<u8>): (ws: seq<u16>)
    requires |h| % 2 == 0
    ensures |ws| == |h| / 2
    ensures forall i :: 0 <= i < |ws| ==> ws[i] == Half(h[2 * i], h[2 * i + 1])
  {
    seq(|h| / 2, i requires 0 <= i < |h| / 2 => Half(h[2 * i], h[2 * i + 1]))
  }

  function Hi(w: u16): (b: u8) {
    w / 256
  }

  function Lo(w: u16): (b: u8) {
    w % 256
  }

  /** Store a half-word and a checksum at word offsets `at` and `check`. */
  function Rewritten(h: seq<u8>, at: nat, hi: u8, lo: u8, check: nat, c: u16): (r: seq<u8>)
    requires 2 * at + 1 < |h| && 2 * check + 1 < |h|
    ensures |r| == |h|
  {
    h[2 * at := hi][2 * at + 1 := lo][2 * check := Hi(c)][2 * check + 1 := Lo(c)]
  }

  lemma RewrittenWords(h: seq<u8>, at: nat, hi: u8, lo: u8, check: nat, c: u16)
    requires |h| % 2 == 0 && 2 * at + 1 < |h| && 2 * check + 1 < |h| && at != check
    ensures WordsOf(Rewritten(h, at, hi, lo, check, c)) == WordsOf(h)[at := Half(hi, lo)][check := c]
  {
    var ws, r := WordsOf(h), Rewritten(h, at, hi, lo, check, c);
    var expected := ws[at := Half(hi, lo)][check := c];
    forall i | 0 <= i < |ws|
      ensures WordsOf(r)[i] == expected[i]
    {
      assert i != at && i != check ==> r[2 * i] == h[2 * i] && r[2 * i + 1] == h[2 * i + 1];
    }
  }

  /** With the incremental checksum, a rewritten header is intact exactly when the original was, as long as its first
      byte is not zero. */
  lemma RewrittenValidIff(h: seq<u8>, at: nat, hi: u8, lo: u8, check: nat, c: u16)
    requires |h| % 2 == 0 && 2 * at + 1 < |h| && 2 * check + 1 < |h| && 0 < check && at != check
    requires h[0] > 0 && (at == 0 ==> hi > 0)
    requires c == IncrementalCsum(Half(h[2 * check], h[2 * check + 1]), Half(h[2 * at], h[2 * at + 1]), Half(hi, lo))
    ensures Valid(WordsOf(Rewritten(h, at, hi, lo, check, c))) <==> Valid(WordsOf(h))
  {
    var ws := WordsOf(h);
    var updated: seq<u16> := ws[at := Half(hi, lo)][check := c];
    RewrittenWords(h, at, hi, lo, check, c);
    IncrementalUpdate(ws, at, check, Half(hi, lo));
    SumAtLeast(ws, 0);
    SumAtLeast(updated, 0);
  }

  /** An intact header whose first half-word changes without its checksum is no longer intact, unless the change is one
      of all bits. */
  lemma StaleChecksumBreaks(ws: seq<u16>, w: u16)
    requires ws != [] && Valid(ws) && w != ws[0] && -0xffff < w - ws[0] < 0xffff
    ensures !Valid(ws[0 := w])
  {
    SumUpdate(ws, 0, w);
    ValidIff(ws);
    ValidIff(ws[0 := w]);
    var k, d := Sum(ws) / 0xffff, w - ws[0];
    assert Sum(ws[0 := w]) == 0xffff * k + d;
    NotCongruent(k, d);
  }

  lemma NotCongruent(k: int, d: int)
    requires d != 0 && -0xffff < d < 0xffff
    ensures (0xffff * k + d) % 0xffff != 0
  {
  }
}
