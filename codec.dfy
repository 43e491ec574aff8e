/**
 * The position codec of rum_ts_utils.c: compress_pos, decompress_pos and count_pos.
 *
 * A WordEntryPos is a 16-bit value whose low 14 bits are the offset of a lexeme
 * occurrence and whose top 2 bits are its weight level (D=0 .. A=3). A position
 * list is stored as one variable-length record per position: the difference
 * from the previous offset, as uint16, is written in 7-bit groups, low group
 * first, each with HIGHBIT set while the remaining difference is at least 32;
 * the last byte holds the final 5 bits of the difference and the weight in
 * bits 5-6, with HIGHBIT clear.
 */
module PosCodec {
  import opened Common

  /**
   * The 16-bit WordEntryPos: offset in bits 0-13, weight level in bits 14-15.
   * It is kept as an integer below 2^16, so that the bit masks of ts_type.h
   * become arithmetic: x & 0x3FFF is x % 0x4000 and x >> 14 is x / 0x4000.
   */
  newtype WordEntryPos = x: int | 0 <= x < 0x10000

  // A payload byte is a Byte of Common, kept as an integer: for 0 <= b < 256,
  // b & HIGHBIT != 0 is b >= 0x80, b & ~HIGHBIT is b % 0x80, b & LOWERMASK is
  // b % 0x20 and b >> 5 is b / 0x20.

  const HIGHBIT: nat := 0x80
  const SIXTHBIT: nat := 0x20
  const LOWERMASK: nat := 0x1F

  /** WEP_GETPOS: the 14-bit offset. */
  function GetPos(x: WordEntryPos): (r: nat)
    ensures r < 0x4000
  {
    (x % 0x4000) as nat
  }

  /** WEP_GETWEIGHT: the 2-bit weight level. */
  function GetWeight(x: WordEntryPos): (r: nat)
    ensures r < 4
  {
    (x / 0x4000) as nat
  }

  /** WEP_SETWEIGHT: (w << 14) | (x & 0x3FFF), i.e. replace the weight bits and keep the offset. */
  function SetWeight(x: WordEntryPos, w: nat): (r: WordEntryPos)
    requires w < 4
    ensures GetWeight(r) == w && GetPos(r) == GetPos(x)
  {
    (w * 0x4000 + GetPos(x)) as WordEntryPos
  }

  /** The uint16 difference compress_pos encodes: offset minus previous offset, wrapped to 16 bits. */
  function Delta(prev: WordEntryPos, x: WordEntryPos): (d: nat)
    ensures d < 0x10000
  {
    (GetPos(x) - GetPos(prev)) % 0x10000
  }

  /** The bytes compress_pos writes for one position: continuation groups, then the terminating byte. */
  function EncodeOne(delta: nat, w: nat): seq<Byte>
    requires w < 4
    decreases delta
  {
    if delta >= SIXTHBIT then [ContinuationByte(delta)] + EncodeOne(delta / 128, w)
    else [TerminatingByte(delta, w)]
  }

  /** The bytes written for xs when the previous position was prev. */
  function CompressFrom(prev: WordEntryPos, xs: seq<WordEntryPos>): seq<Byte>
    decreases |xs|
  {
    if |xs| == 0 then []
    else EncodeOne(Delta(prev, xs[0]), GetWeight(xs[0])) + CompressFrom(xs[0], xs[1..])
  }

  /** The payload compress_pos produces for a whole position list (prev starts at 0). */
  function Compress(xs: seq<WordEntryPos>): seq<Byte> {
    CompressFrom(0, xs)
  }

  /** The last position of xs, or prev when xs is empty. */
  function LastOr(prev: WordEntryPos, xs: seq<WordEntryPos>): WordEntryPos {
    if |xs| == 0 then prev else xs[|xs| - 1]
  }

  /** v << n: v doubled n times. */
  function Shifted(v: nat, n: nat): nat {
    if n == 0 then v else 2 * Shifted(v, n - 1)
  }

  /** What decompress_pos has read once it passes a terminating byte. */
  datatype Step = Step(next: nat, delta: int, weight: nat)

  /**
   * The inner loop of decompress_pos from byte k, with the shift i and the
   * difference accumulated so far; None when the buffer ends before a
   * terminating byte. The 7-bit groups land on disjoint bits, so the bitwise
   * OR of the source is a sum here; the sum is reduced modulo 2^16 where it
   * is added to the position.
   */
  function Scan(buf: seq<Byte>, k: nat, shift: nat, delta: int): (r: Option<Step>)
    ensures r.Some? ==> k < r.value.next <= |buf| && r.value.weight < 4
    decreases |buf| - k
  {
    if k >= |buf| then None
    else if !IsTerminator(buf[k]) then
      Scan(buf, k + 1, shift + 7, delta + Shifted(GroupBits(buf[k]), shift))
    else
      Some(Step(k + 1, delta + Shifted(FinalBits(buf[k]), shift), TerminatorWeight(buf[k])))
  }

  /** The 7 data bits of a byte, v & ~HIGHBIT: the byte with bit 7 cleared. */
  function GroupBits(v: Byte): nat {
    if v >= HIGHBIT as Byte then (v - HIGHBIT as Byte) as nat else v as nat
  }

  /** The 5 data bits of a terminating byte, v & LOWERMASK. */
  function FinalBits(v: Byte): nat {
    (v % (LOWERMASK + 1) as Byte) as nat
  }

  /** Bits 5-6 of a terminating byte, v >> 5. */
  function TerminatorWeight(v: Byte): (w: nat)
    requires IsTerminator(v)
    ensures w < 4
  {
    (v / 0x20) as nat
  }

  /**
   * What decompress_pos leaves in *pos: the uint16 sum of the previous
   * position and the difference, with its weight bits replaced by w. Only the
   * low 14 bits of that sum survive, and those are the sum modulo 2^14
   * (AdvanceIsWrappedAdd).
   */
  function Advance(pos: WordEntryPos, delta: int, w: nat): WordEntryPos
    requires w < 4
  {
    (w * 0x4000 + (pos as int + delta) % 0x4000) as WordEntryPos
  }

  /** One call of decompress_pos at byte k with running position pos: the next cursor and the new position. */
  function DecodeNext(buf: seq<Byte>, k: nat, pos: WordEntryPos): (r: Option<(nat, WordEntryPos)>)
    ensures r.Some? ==> k < r.value.0 <= |buf|
  {
    match Scan(buf, k, 0, 0)
    case None => None
    case Some(s) => Some((s.next, Advance(pos, s.delta, s.weight)))
  }

  /** n successive calls of decompress_pos: the positions returned and the final cursor. */
  function DecodeN(buf: seq<Byte>, k: nat, pos: WordEntryPos, n: nat): (r: Option<(seq<WordEntryPos>, nat)>)
    ensures r.Some? ==> |r.value.0| == n && k <= r.value.1 && (n > 0 ==> r.value.1 <= |buf|)
    decreases n
  {
    if n == 0 then Some(([], k))
    else match DecodeNext(buf, k, pos)
      case None => None
      case Some((k', p)) =>
        match DecodeN(buf, k', p, n - 1)
        case None => None
        case Some((ps, end)) => Some(([p] + ps, end))
  }

  /** count_pos's notion of an element: a byte whose HIGHBIT is clear. */
  predicate IsTerminator(b: Byte) {
    b < HIGHBIT as Byte
  }

  /** Number of terminating bytes in a byte string. */
  function CountTerminators(bytes: seq<Byte>): nat
    decreases |bytes|
  {
    if |bytes| == 0 then 0
    else CountTerminators(bytes[..|bytes| - 1]) + (if IsTerminator(bytes[|bytes| - 1]) then 1 else 0)
  }

  /** decompress_pos finds no record exactly when no terminating byte lies ahead of the cursor. */
  lemma DecodeNextNone(buf: seq<Byte>, k: nat, pos: WordEntryPos)
    ensures DecodeNext(buf, k, pos).None? <==> !HasTerminator(buf, k)
  {
    if HasTerminator(buf, k) {
      ScanFindsTerminator(buf, k, 0, 0);
    } else {
      ScanEndsOnTerminator(buf, k, 0, 0);
    }
  }

  /** When the inner loop of decompress_pos ends, the byte it read last is a terminating one. */
  lemma {:induction false} ScanEndsOnTerminator(buf: seq<Byte>, k: nat, shift: nat, delta: int)
    ensures var r := Scan(buf, k, shift, delta); r.Some? ==> IsTerminator(buf[r.value.next - 1])
    decreases |buf| - k
  {
    if k < |buf| && !IsTerminator(buf[k]) {
      ScanEndsOnTerminator(buf, k + 1, shift + 7, delta + Shifted(GroupBits(buf[k]), shift));
    }
  }

  /** Some byte at or after k ends a record, so decompress_pos stays inside the buffer. */
  predicate HasTerminator(buf: seq<Byte>, k: nat) {
    exists j :: k <= j < |buf| && IsTerminator(buf[j])
  }

  /** The bytes of c lie in buf from byte k on. */
  predicate Holds(buf: seq<Byte>, k: nat, c: seq<Byte>)
    decreases |c|
  {
    |c| == 0 || (k < |buf| && buf[k] == c[0] && Holds(buf, k + 1, c[1..]))
  }

  // ---------------------------------------------------------------------------
  // Byte-level facts

  /** A continuation byte: (delta & ~HIGHBIT) | HIGHBIT, truncated to a byte. */
  function ContinuationByte(delta: nat): (b: Byte)
    ensures !IsTerminator(b)
  {
    (delta % 0x80 + HIGHBIT) as Byte
  }

  /** A continuation byte carries the low 7 bits of the difference. */
  lemma ContinuationBits(delta: nat)
    ensures GroupBits(ContinuationByte(delta)) == delta % 0x80
  {
    assert ContinuationByte(delta) >= HIGHBIT as Byte;
  }

  /** A terminating byte: delta | (weight << 5), with delta < 32 and weight < 4. */
  function TerminatingByte(delta: nat, w: nat): (b: Byte)
    requires delta < SIXTHBIT && w < 4
    ensures IsTerminator(b)
  {
    (delta + w * 0x20) as Byte
  }

  /** A terminating byte carries the last 5 bits of the difference and the weight. */
  lemma TerminatingBits(delta: nat, w: nat)
    requires delta < SIXTHBIT && w < 4
    ensures FinalBits(TerminatingByte(delta, w)) == delta && TerminatorWeight(TerminatingByte(delta, w)) == w
  {
  }

  lemma ShiftedBy7(v: nat)
    ensures Shifted(v, 7) == 128 * v
  {
    calc {
      Shifted(v, 7);
      2 * Shifted(v, 6);
      4 * Shifted(v, 5);
      8 * Shifted(v, 4);
      16 * Shifted(v, 3);
      32 * Shifted(v, 2);
      64 * Shifted(v, 1);
      128 * Shifted(v, 0);
    }
  }

  /** The low 7 bits of d shifted by s, plus the rest of d shifted by s + 7, is d shifted by s. */
  lemma {:induction false} ShiftedRegroup(d: nat, s: nat)
    ensures Shifted(d % 128, s) + Shifted(d / 128, s + 7) == Shifted(d, s)
    decreases s
  {
    if s == 0 {
      ShiftedBy7(d / 128);
    } else {
      ShiftedRegroup(d, s - 1);
    }
  }

  // ---------------------------------------------------------------------------
  // Shape and size of the encoding

  /**
   * The record of one position is 1 to 3 bytes: every byte but the last has
   * HIGHBIT set, and the last has it clear (so it is at most 127).
   */
  lemma {:induction false} EncodeOneShape(d: nat, w: nat)
    requires d < 0x10000 && w < 4
    ensures var e := EncodeOne(d, w);
      1 <= |e| <= 3
      && (forall k :: 0 <= k < |e| - 1 ==> !IsTerminator(e[k]))
      && IsTerminator(e[|e| - 1]) && e[|e| - 1] <= 127
    ensures d < SIXTHBIT ==> |EncodeOne(d, w)| == 1
    decreases d
  {
    if d >= SIXTHBIT {
      EncodeOneShape(d / 128, w);
      var e' := EncodeOne(d / 128, w);
      assert d / 128 < 512;
      assert |e'| <= 2 by {
        if d / 128 >= SIXTHBIT {
          assert d / 128 / 128 < SIXTHBIT;
          EncodeOneShape(d / 128 / 128, w);
        }
      }
    }
  }

  /** Splitting the list splits the payload at the matching byte. */
  lemma {:induction false} CompressSplit(prev: WordEntryPos, a: seq<WordEntryPos>, b: seq<WordEntryPos>)
    ensures CompressFrom(prev, a + b) == CompressFrom(prev, a) + CompressFrom(LastOr(prev, a), b)
    decreases |a|
  {
    if |a| > 0 {
      assert (a + b)[0] == a[0];
      assert (a + b)[1..] == a[1..] + b;
      CompressSplit(a[0], a[1..], b);
      assert LastOr(a[0], a[1..]) == LastOr(prev, a);
    } else {
      assert a + b == b;
    }
  }

  /** compress_pos writes between npos and 3*npos bytes. */
  lemma {:induction false} CompressLength(prev: WordEntryPos, xs: seq<WordEntryPos>)
    ensures |xs| <= |CompressFrom(prev, xs)| <= 3 * |xs|
    decreases |xs|
  {
    if |xs| > 0 {
      EncodeOneShape(Delta(prev, xs[0]), GetWeight(xs[0]));
      CompressLength(xs[0], xs[1..]);
    }
  }

  /** Hence the payload always fits the 2 * npos * sizeof(WordEntryPos) bytes its caller allocates. */
  lemma CompressFitsBuffer(xs: seq<WordEntryPos>)
    ensures |Compress(xs)| <= 2 * |xs| * 2
  {
    CompressLength(0, xs);
  }

  lemma {:induction false} CountTerminatorsAppend(a: seq<Byte>, b: seq<Byte>)
    ensures CountTerminators(a + b) == CountTerminators(a) + CountTerminators(b)
    decreases |b|
  {
    if |b| > 0 {
      assert (a + b)[..|a + b| - 1] == a + b[..|b| - 1];
      CountTerminatorsAppend(a, b[..|b| - 1]);
    } else {
      assert a + b == a;
    }
  }

  lemma {:induction false} CountTerminatorsAllContinuation(bytes: seq<Byte>)
    requires forall k :: 0 <= k < |bytes| ==> !IsTerminator(bytes[k])
    ensures CountTerminators(bytes) == 0
    decreases |bytes|
  {
    if |bytes| > 0 {
      CountTerminatorsAllContinuation(bytes[..|bytes| - 1]);
    }
  }

  lemma EncodeOneCount(d: nat, w: nat)
    requires d < 0x10000 && w < 4
    ensures CountTerminators(EncodeOne(d, w)) == 1
  {
    var e := EncodeOne(d, w);
    EncodeOneShape(d, w);
    CountTerminatorsAllContinuation(e[..|e| - 1]);
  }

  /** count_pos over a compressed payload gives back the number of positions. */
  lemma {:induction false} CompressCount(prev: WordEntryPos, xs: seq<WordEntryPos>)
    ensures CountTerminators(CompressFrom(prev, xs)) == |xs|
    decreases |xs|
  {
    if |xs| > 0 {
      EncodeOneCount(Delta(prev, xs[0]), GetWeight(xs[0]));
      CompressCount(xs[0], xs[1..]);
      CountTerminatorsAppend(EncodeOne(Delta(prev, xs[0]), GetWeight(xs[0])), CompressFrom(xs[0], xs[1..]));
    }
  }

  /** A non-empty payload ends with a terminating byte, so decoding never reads past it. */
  lemma {:induction false} CompressEndsWithTerminator(prev: WordEntryPos, xs: seq<WordEntryPos>)
    requires |xs| > 0
    ensures var c := CompressFrom(prev, xs); |c| > 0 && IsTerminator(c[|c| - 1])
    decreases |xs|
  {
    EncodeOneShape(Delta(prev, xs[0]), GetWeight(xs[0]));
    if |xs| > 1 {
      CompressEndsWithTerminator(xs[0], xs[1..]);
    }
  }

  // ---------------------------------------------------------------------------
  // Round trip

  /** Reading a continuation byte adds its 7 bits at the current shift and moves on. */
  lemma ScanContinuation(buf: seq<Byte>, k: nat, shift: nat, acc: int, d: nat)
    requires k < |buf| && buf[k] == ContinuationByte(d)
    ensures Scan(buf, k, shift, acc) == Scan(buf, k + 1, shift + 7, acc + Shifted(d % 128, shift))
  {
    ContinuationBits(d);
  }

  /** Reading a terminating byte adds its 5 bits at the current shift and ends the record. */
  lemma ScanTerminating(buf: seq<Byte>, k: nat, shift: nat, acc: int, d: nat, w: nat)
    requires d < SIXTHBIT && w < 4
    requires k < |buf| && buf[k] == TerminatingByte(d, w)
    ensures Scan(buf, k, shift, acc) == Some(Step(k + 1, acc + Shifted(d, shift), w))
  {
    TerminatingBits(d, w);
  }

  /** Reading the record of d and w from any shift adds d at that shift and ends with weight w. */
  lemma {:induction false} ScanEncoded(buf: seq<Byte>, k: nat, shift: nat, acc: int, d: nat, w: nat)
    requires w < 4 && d < 0x10000
    requires Holds(buf, k, EncodeOne(d, w))
    ensures Scan(buf, k, shift, acc) == Some(Step(k + |EncodeOne(d, w)|, acc + Shifted(d, shift), w))
    decreases d
  {
    var e := EncodeOne(d, w);
    if d >= SIXTHBIT {
      var e' := EncodeOne(d / 128, w);
      assert e == [ContinuationByte(d)] + e';
      assert buf[k] == ContinuationByte(d) && Holds(buf, k + 1, e') by {
        assert e[0] == ContinuationByte(d) && e[1..] == e';
      }
      ScanContinuation(buf, k, shift, acc, d);
      ScanEncoded(buf, k + 1, shift + 7, acc + Shifted(d % 128, shift), d / 128, w);
      ShiftedRegroup(d, shift);
      assert k + 1 + |e'| == k + |e|;
      assert acc + Shifted(d % 128, shift) + Shifted(d / 128, shift + 7) == acc + Shifted(d, shift);
    } else {
      assert e == [TerminatingByte(d, w)];
      ScanTerminating(buf, k, shift, acc, d, w);
    }
  }

  /** Adding the wrapped difference to the previous position and setting the weight restores x. */
  lemma DeltaRestores(prev: WordEntryPos, x: WordEntryPos)
    ensures Advance(prev, Delta(prev, x), GetWeight(x)) == x
  {
    var pp: int, pw: int, xp: int := GetPos(prev), GetWeight(prev), GetPos(x);
    assert prev as int == pp + 0x4000 * pw;
    assert x as int == GetWeight(x) * 0x4000 + xp;
    var sum := prev as int + Delta(prev, x);
    if xp >= pp {
      assert Delta(prev, x) == xp - pp;
      assert sum == xp + 0x4000 * pw;
    } else {
      assert Delta(prev, x) == xp - pp + 0x10000;
      assert sum == xp + 0x4000 * (pw + 4);
    }
    assert sum % 0x4000 == xp;
  }

  /** Advance is the uint16 addition followed by WEP_SETWEIGHT, as decompress_pos writes it. */
  lemma AdvanceIsWrappedAdd(pos: WordEntryPos, delta: int, w: nat)
    requires w < 4
    ensures Advance(pos, delta, w) == SetWeight(((pos as int + delta) % 0x10000) as WordEntryPos, w)
  {
    var sum := pos as int + delta;
    var y := sum % 0x10000;
    assert sum == 0x4000 * (4 * (sum / 0x10000)) + y;
    assert sum % 0x4000 == y % 0x4000;
  }

  /** A record read from its first byte yields the difference and weight written into it. */
  lemma ScanRecord(buf: seq<Byte>, k: nat, d: nat, w: nat)
    requires w < 4 && d < 0x10000
    requires Holds(buf, k, EncodeOne(d, w))
    ensures Scan(buf, k, 0, 0) == Some(Step(k + |EncodeOne(d, w)|, d, w))
  {
    ScanEncoded(buf, k, 0, 0, d, w);
    assert 0 + Shifted(d, 0) == d;
  }

  /** decompress_pos in terms of the record Scan reads. */
  lemma DecodeNextOfScan(buf: seq<Byte>, k: nat, pos: WordEntryPos, next: nat, delta: int, w: nat)
    requires Scan(buf, k, 0, 0) == Some(Step(next, delta, w)) && w < 4
    ensures DecodeNext(buf, k, pos) == Some((next, Advance(pos, delta, w)))
  {
  }

  /** decompress_pos on a record written by compress_pos returns the position that was written. */
  lemma DecodeNextEncoded(buf: seq<Byte>, k: nat, prev: WordEntryPos, x: WordEntryPos)
    requires Holds(buf, k, EncodeOne(Delta(prev, x), GetWeight(x)))
    ensures DecodeNext(buf, k, prev) == Some((k + |EncodeOne(Delta(prev, x), GetWeight(x))|, x))
  {
    ScanRecord(buf, k, Delta(prev, x), GetWeight(x));
    DecodeNextOfScan(buf, k, prev, k + |EncodeOne(Delta(prev, x), GetWeight(x))|, Delta(prev, x), GetWeight(x));
    DeltaRestores(prev, x);
  }

  /** Where buf holds a + b, it holds a, and b right after it. */
  lemma {:induction false} HoldsSplit(buf: seq<Byte>, k: nat, a: seq<Byte>, b: seq<Byte>)
    requires Holds(buf, k, a + b)
    ensures Holds(buf, k, a) && Holds(buf, k + |a|, b)
    decreases |a|
  {
    if |a| == 0 {
      assert a + b == b;
    } else {
      assert (a + b)[0] == a[0] && (a + b)[1..] == a[1..] + b;
      HoldsSplit(buf, k + 1, a[1..], b);
    }
  }

  /** buf holds its own bytes from k on. */
  lemma {:induction false} HoldsSuffix(buf: seq<Byte>, k: nat)
    requires k <= |buf|
    ensures Holds(buf, k, buf[k..])
    decreases |buf| - k
  {
    if k < |buf| {
      assert buf[k..][1..] == buf[k + 1..];
      HoldsSuffix(buf, k + 1);
    }
  }

  /** Decoding a list is decoding its head, then its tail from where the head stopped. */
  lemma DecodeNCons(buf: seq<Byte>, k: nat, prev: WordEntryPos, xs: seq<WordEntryPos>, k': nat, end: nat)
    requires |xs| > 0
    requires DecodeNext(buf, k, prev) == Some((k', xs[0]))
    requires DecodeN(buf, k', xs[0], |xs[1..]|) == Some((xs[1..], end))
    ensures DecodeN(buf, k, prev, |xs|) == Some((xs, end))
  {
    assert [xs[0]] + xs[1..] == xs;
  }

  /** Repeated decompress_pos over a compressed run gives back the run and stops right after it. */
  lemma {:induction false} RoundTripFrom(buf: seq<Byte>, k: nat, prev: WordEntryPos, xs: seq<WordEntryPos>)
    requires Holds(buf, k, CompressFrom(prev, xs))
    ensures DecodeN(buf, k, prev, |xs|) == Some((xs, k + |CompressFrom(prev, xs)|))
    decreases |xs|
  {
    if |xs| == 0 {
      assert xs == [] && CompressFrom(prev, xs) == [];
    } else {
      var e := EncodeOne(Delta(prev, xs[0]), GetWeight(xs[0]));
      var rest := CompressFrom(xs[0], xs[1..]);
      assert CompressFrom(prev, xs) == e + rest;
      HoldsSplit(buf, k, e, rest);
      DecodeNextEncoded(buf, k, prev, xs[0]);
      RoundTripFrom(buf, k + |e|, xs[0], xs[1..]);
      assert k + |e| + |rest| == k + |CompressFrom(prev, xs)|;
      DecodeNCons(buf, k, prev, xs, k + |e|, k + |CompressFrom(prev, xs)|);
    }
  }

  /** The payload of a list is the payload of its first i positions followed by the rest's, continuing from them. */
  lemma CompressPrefix(xs: seq<WordEntryPos>, i: nat)
    requires i <= |xs|
    ensures Compress(xs) == Compress(xs[..i]) + CompressFrom(LastOr(0, xs[..i]), xs[i..])
  {
    assert xs == xs[..i] + xs[i..];
    CompressSplit(0, xs[..i], xs[i..]);
  }

  /**
   * After i calls of decompress_pos on a payload, the first i positions have
   * come back and the cursor stands at the end of their records.
   */
  lemma DecodePrefix(xs: seq<WordEntryPos>, i: nat)
    requires i <= |xs|
    ensures DecodeN(Compress(xs), 0, 0, i) == Some((xs[..i], |Compress(xs[..i])|))
  {
    var c := Compress(xs);
    var a, b := Compress(xs[..i]), CompressFrom(LastOr(0, xs[..i]), xs[i..]);
    CompressPrefix(xs, i);
    HoldsSuffix(c, 0);
    assert c[0..] == a + b;
    HoldsSplit(c, 0, a, b);
    RoundTripFrom(c, 0, 0, xs[..i]);
  }

  /**
   * While positions remain after i calls, a terminating byte lies ahead of
   * the cursor, so the next decompress_pos call stays inside the payload.
   */
  lemma PrefixHasTerminator(xs: seq<WordEntryPos>, i: nat)
    requires i < |xs|
    ensures HasTerminator(Compress(xs), |Compress(xs[..i])|)
  {
    var c := Compress(xs);
    CompressPrefix(xs, i);
    CompressLength(LastOr(0, xs[..i]), xs[i..]);
    CompressEndsWithTerminator(0, xs);
    assert |Compress(xs[..i])| < |c| && IsTerminator(c[|c| - 1]);
  }

  /**
   * Starting from position 0 at the start of the payload, npos calls of
   * decompress_pos return exactly the positions given to compress_pos (each
   * with its 14-bit offset and 2-bit weight) and leave the cursor at the end
   * of the payload. No ordering of the list is needed: the uint16 wrap-around
   * of a negative difference cancels when it is added back.
   */
  lemma RoundTrip(xs: seq<WordEntryPos>)
    ensures DecodeN(Compress(xs), 0, 0, |xs|) == Some((xs, |Compress(xs)|))
  {
    var c := Compress(xs);
    HoldsSuffix(c, 0);
    assert c[0..] == c;
    RoundTripFrom(c, 0, 0, xs);
  }

  lemma {:induction false} ScanFindsTerminator(buf: seq<Byte>, k: nat, shift: nat, delta: int)
    requires HasTerminator(buf, k)
    ensures Scan(buf, k, shift, delta).Some?
    decreases |buf| - k
  {
    if !IsTerminator(buf[k]) {
      ScanFindsTerminator(buf, k + 1, shift + 7, delta + Shifted(GroupBits(buf[k]), shift));
    }
  }

  // ---------------------------------------------------------------------------
  // The C functions

  /**
   * compress_pos: writes the records of pos into target and returns the number
   * of bytes written. The caller's buffer must hold the payload; its usual
   * size 2 * npos * sizeof(WordEntryPos) always does (CompressFitsBuffer).
   */
  method CompressPos(target: array<Byte>, pos: seq<WordEntryPos>) returns (n: nat)
    requires |Compress(pos)| <= target.Length
    modifies target
    ensures n == |Compress(pos)|
    ensures target[..n] == Compress(pos)
    ensures target[n..] == old(target[n..])
  {
    ghost var c := Compress(pos);
    var ptr: nat := 0;
    var prev: WordEntryPos := 0;
    var i := 0;
    assert c[ptr..] == CompressFrom(prev, pos[i..]);
    while i < |pos|
      invariant 0 <= i <= |pos| && ptr <= |c|
      invariant c[ptr..] == CompressFrom(prev, pos[i..])
      invariant forall j :: 0 <= j < ptr ==> target[j] == c[j]
      invariant forall j :: ptr <= j < target.Length ==> target[j] == old(target[j])
    {
      var w := GetWeight(pos[i]);
      var delta: nat := Delta(prev, pos[i]);
      ghost var tail := CompressFrom(pos[i], pos[i + 1..]);
      assert CompressFrom(prev, pos[i..]) == EncodeOne(delta, w) + tail by {
        assert pos[i..][0] == pos[i] && pos[i..][1..] == pos[i + 1..];
      }
      ptr := WriteRecord(target, ptr, delta, w, c, tail);
      prev := pos[i];
      i := i + 1;
    }
    assert pos[i..] == [];
    n := ptr;
    assert target[..n] == c;
  }

  /**
   * The inner loop of compress_pos: writes the record of one position at
   * target[ptr0..], 7 bits at a time while the difference is at least 32,
   * then the terminating byte, and returns the cursor after it.
   */
  method WriteRecord(target: array<Byte>, ptr0: nat, delta0: nat, w: nat, ghost c: seq<Byte>, ghost tail: seq<Byte>)
    returns (ptr: nat)
    requires w < 4 && delta0 < 0x10000
    requires ptr0 <= |c| <= target.Length
    requires c[ptr0..] == EncodeOne(delta0, w) + tail
    requires forall j :: 0 <= j < ptr0 ==> target[j] == c[j]
    modifies target
    ensures ptr0 < ptr <= |c| && c[ptr..] == tail
    ensures forall j :: 0 <= j < ptr ==> target[j] == c[j]
    ensures forall j :: ptr <= j < target.Length ==> target[j] == old(target[j])
  {
    ptr := ptr0;
    var delta: nat := delta0;
    while true
      invariant ptr0 <= ptr < |c|
      invariant delta < 0x10000
      invariant c[ptr..] == EncodeOne(delta, w) + tail
      invariant forall j :: 0 <= j < ptr ==> target[j] == c[j]
      invariant forall j :: ptr <= j < target.Length ==> target[j] == old(target[j])
      decreases delta
    {
      NextByte(c, ptr, EncodeOne(delta, w), tail);
      if delta >= SIXTHBIT {
        target[ptr] := ContinuationByte(delta);
        ptr := ptr + 1;
        delta := delta / 128;
      } else {
        target[ptr] := TerminatingByte(delta, w);
        ptr := ptr + 1;
        return;
      }
    }
  }

  /** Where the unwritten part of a payload starts with a record e, its next byte is e's first. */
  lemma NextByte(c: seq<Byte>, p: nat, e: seq<Byte>, t: seq<Byte>)
    requires p <= |c| && c[p..] == e + t && |e| > 0
    ensures p < |c| && c[p] == e[0] && c[p + 1..] == e[1..] + t
  {
    assert c[p..][0] == e[0];
    assert c[p + 1..] == c[p..][1..];
  }

  /**
   * decompress_pos: reads one record starting at byte ptr0, adds its
   * difference to the running position (modulo 2^16), overwrites the weight
   * bits and returns the cursor just past the record. The buffer must hold a
   * terminating byte at or after ptr0 (the source reads on until it finds one).
   */
  method DecompressPos(buf: seq<Byte>, ptr0: nat, pos0: WordEntryPos) returns (ptr: nat, pos: WordEntryPos)
    requires HasTerminator(buf, ptr0)
    ensures DecodeNext(buf, ptr0, pos0) == Some((ptr, pos))
  {
    var i: nat := 0;
    var delta: int := 0;
    ptr := ptr0;
    ScanFindsTerminator(buf, ptr0, 0, 0);
    while true
      invariant ptr0 <= ptr
      invariant Scan(buf, ptr0, 0, 0) == Scan(buf, ptr, i, delta)
      invariant Scan(buf, ptr, i, delta).Some?
      decreases |buf| - ptr
    {
      var v := buf[ptr];
      ptr := ptr + 1;
      if !IsTerminator(v) {
        delta := delta + Shifted(GroupBits(v), i);
      } else {
        delta := delta + Shifted(FinalBits(v), i);
        assert Scan(buf, ptr0, 0, 0) == Some(Step(ptr, delta, TerminatorWeight(v)));
        DecodeNextOfScan(buf, ptr0, pos0, ptr, delta, TerminatorWeight(v));
        pos := Advance(pos0, delta, TerminatorWeight(v));
        return;
      }
      i := i + 7;
    }
  }

  /** count_pos: the number of positions stored in the first len bytes of a payload. */
  method CountPos(ptr: seq<Byte>, len: nat) returns (count: nat)
    requires len <= |ptr|
    ensures count == CountTerminators(ptr[..len])
  {
    count := 0;
    var i := 0;
    while i < len
      invariant 0 <= i <= len
      invariant count == CountTerminators(ptr[..i])
    {
      assert ptr[..i + 1][..i] == ptr[..i];
      if IsTerminator(ptr[i]) {
        count := count + 1;
      }
      i := i + 1;
    }
  }
}
