/** The NE2000 (DP8390) network driver: dotted-quad parsing for `ping`,
    the Internet checksum, byte-order swapping, the transmit length
    clamp, the receive ring of 256-byte card pages with its boundary
    register, and the ICMP echo request frame. Port I/O and the card's
    remote DMA are not modelled as hardware: the card's memory is a byte
    sequence the driver reads and writes, and the registers it reads
    (CURR) are inputs. */
module Net {
  import opened Machine

  const CHAR_DOT: Byte := 0x2E
  const CHAR_ZERO: Byte := 0x30
  const CHAR_PERCENT: Byte := 0x25
  const CHAR_D: Byte := 0x64

  // ---------------------------------------------------------------------
  // Byte order
  // ---------------------------------------------------------------------

  /** `(v << 8) | (v >> 8)` in a 16-bit result: the two bytes of v swapped. */
  function Bswap16(v: Word16): (r: Word16)
    ensures r % 0x100 == v / 0x100 && r / 0x100 == v % 0x100
  {
    (v % 0x100) * 0x100 + v / 0x100
  }

  /** Swapping twice gives the value back, so htons and ntohs, which are
      both the swap, undo each other. */
  lemma Bswap16Involution(v: Word16)
    ensures Bswap16(Bswap16(v)) == v
  {
    var r := Bswap16(v);
    assert Bswap16(r) == (r % 0x100) * 0x100 + r / 0x100;
    assert v == (v / 0x100) * 0x100 + v % 0x100;
  }

  function Htons(v: Word16): Word16 { Bswap16(v) }
  function Ntohs(v: Word16): Word16 { Bswap16(v) }

  // ---------------------------------------------------------------------
  // mini_sscanf and parse_ipv4
  // ---------------------------------------------------------------------

  /** The only format mini_sscanf accepts. */
  const QUAD_FORMAT: seq<Byte> := [CHAR_PERCENT, CHAR_D, CHAR_DOT, CHAR_PERCENT, CHAR_D, CHAR_DOT,
                                   CHAR_PERCENT, CHAR_D, CHAR_DOT, CHAR_PERCENT, CHAR_D]

  predicate IsDigit(c: Byte) { CHAR_ZERO <= c <= CHAR_ZERO + 9 }

  /** What mini_sscanf's loop yields from the rest `s` of the string, with
      the groups `vals` already complete and `num` accumulated in the
      current group (`has` when it has a digit): it stops after four
      groups, at the end of the string, at an empty group, at a group
      value above 255 and at any character that is neither a digit nor
      '.'. At the end of the string an unfinished group counts, and the
      result exists only when there are four groups in all. */
  function Scan(s: seq<Byte>, vals: seq<Byte>, num: Byte, has: bool): Option<seq<Byte>>
    requires |vals| <= 4
    decreases |s|
  {
    if |vals| == 4 then Some(vals)
    else if |s| == 0 || s[0] == 0 then
      if has && |vals| == 3 then Some(vals + [num]) else None
    else if IsDigit(s[0]) then
      var n := num * 10 + (s[0] - CHAR_ZERO);
      if n > 255 then None else Scan(s[1..], vals, n, true)
    else if s[0] == CHAR_DOT then
      if !has then None else Scan(s[1..], vals + [num], 0, false)
    else None
  }

  /** mini_sscanf: 4 and the four values when `str` is a dotted quad under
      the format "%d.%d.%d.%d", 0 and no values otherwise (including a
      NULL string or format). */
  method MiniSscanf(str: Option<seq<Byte>>, fmt: Option<seq<Byte>>) returns (n: int, quad: seq<Byte>)
    ensures str.None? || fmt.None? || CString(fmt.value) != QUAD_FORMAT ==> n == 0 && quad == []
    ensures str.Some? && fmt.Some? && CString(fmt.value) == QUAD_FORMAT ==>
              (n == 4 <==> Scan(str.value, [], 0, false).Some?)
              && (n == 4 ==> Some(quad) == Scan(str.value, [], 0, false))
              && (n != 4 ==> n == 0 && quad == [])
  {
    if str.None? || fmt.None? || CString(fmt.value) != QUAD_FORMAT {
      return 0, [];
    }
    var s := str.value;
    var vals: seq<Byte> := [];
    var num: Byte := 0;
    var hasDigit := false;
    var i := 0;
    while i < |s| && s[i] != 0 && |vals| < 4
      invariant 0 <= i <= |s| && |vals| <= 4
      invariant Scan(s[i..], vals, num, hasDigit) == Scan(s, [], 0, false)
      decreases |s| - i
    {
      var c := s[i];
      i := i + 1;
      if IsDigit(c) {
        var next := num * 10 + (c - CHAR_ZERO);
        if next > 255 {
          return 0, [];
        }
        num := next;
        hasDigit := true;
      } else if c == CHAR_DOT {
        if !hasDigit {
          return 0, [];
        }
        vals := vals + [num];
        num := 0;
        hasDigit := false;
      } else {
        return 0, [];
      }
      assert s[i - 1..][1..] == s[i..];
    }
    if hasDigit && |vals| < 4 {
      vals := vals + [num];
    }
    if |vals| != 4 {
      return 0, [];
    }
    return 4, vals;
  }

  /** parse_ipv4: the four bytes of a dotted quad. The source's second
      range check of each value never fails, because mini_sscanf already
      keeps every group within 0..255. */
  method ParseIpv4(s: Option<seq<Byte>>) returns (ok: bool, addr: seq<Byte>)
    ensures s.None? ==> !ok
    ensures s.Some? ==> (ok <==> Scan(s.value, [], 0, false).Some?)
    ensures ok ==> s.Some? && Some(addr) == Scan(s.value, [], 0, false) && |addr| == 4
  {
    var n, quad := MiniSscanf(s, Some(QUAD_FORMAT));
    if n != 4 {
      return false, [];
    }
    ScanLength(s.value, [], 0, false);
    return true, quad;
  }

  /** Whatever the scan returns has four groups. */
  lemma {:induction false} ScanLength(s: seq<Byte>, vals: seq<Byte>, num: Byte, has: bool)
    requires |vals| <= 4
    ensures Scan(s, vals, num, has).Some? ==>
              |Scan(s, vals, num, has).value| == 4 && Scan(s, vals, num, has).value[..|vals|] == vals
    decreases |s|
  {
    if |vals| == 4 || |s| == 0 || s[0] == 0 {
    } else if IsDigit(s[0]) {
      var n := num * 10 + (s[0] - CHAR_ZERO);
      if n <= 255 {
        ScanLength(s[1..], vals, n, true);
      }
    } else if s[0] == CHAR_DOT && has {
      ScanLength(s[1..], vals + [num], 0, false);
      var r := Scan(s, vals, num, has);
      if r.Some? {
        assert r.value[..|vals|] == r.value[..|vals| + 1][..|vals|];
      }
    }
  }

  /** The decimal digits printf's "%d" writes for a value 0..255. */
  function Dec(n: Byte): (r: seq<Byte>)
    ensures 1 <= |r| <= 3 && forall k :: 0 <= k < |r| ==> IsDigit(r[k])
  {
    if n < 10 then [CHAR_ZERO + n]
    else if n < 100 then [CHAR_ZERO + n / 10, CHAR_ZERO + n % 10]
    else var q := n / 10; [CHAR_ZERO + q / 10, CHAR_ZERO + q % 10, CHAR_ZERO + n % 10]
  }

  /** The groups of `q`, each followed by '.'. */
  function Dotted(q: seq<Byte>): seq<Byte>
  {
    if |q| == 0 then [] else Dotted(q[..|q| - 1]) + Dec(q[|q| - 1]) + [CHAR_DOT]
  }

  /** The dotted-quad text of a four-byte address a.b.c.d. */
  function Quad(q: seq<Byte>): seq<Byte>
    requires |q| == 4
  {
    Dotted(q[..3]) + Dec(q[3])
  }

  /** One digit `d` of a group: the value so far times ten plus the digit,
      as long as it stays within 255. */
  lemma ScanDigit(d: nat, rest: seq<Byte>, vals: seq<Byte>, num: Byte, has: bool, next: Byte)
    requires |vals| < 4 && d < 10 && next == num * 10 + d
    ensures Scan([CHAR_ZERO + d] + rest, vals, num, has) == Scan(rest, vals, next, true)
  {
    assert ([CHAR_ZERO + d] + rest)[1..] == rest;
  }

  /** Scanning a group's digits from an empty group leaves its value in
      the accumulator. */
  lemma ScanGroup(n: Byte, rest: seq<Byte>, vals: seq<Byte>)
    requires |vals| < 4
    ensures Scan(Dec(n) + rest, vals, 0, false) == Scan(rest, vals, n, true)
  {
    if n < 10 {
      ScanDigit(n, rest, vals, 0, false, n);
    } else if n < 100 {
      var t, u := n / 10, n % 10;
      assert Dec(n) + rest == [CHAR_ZERO + t] + ([CHAR_ZERO + u] + rest);
      ScanDigit(t, [CHAR_ZERO + u] + rest, vals, 0, false, t);
      ScanDigit(u, rest, vals, t, true, n);
    } else {
      var q := n / 10;
      var h, t, u := q / 10, q % 10, n % 10;
      assert Dec(n) + rest == [CHAR_ZERO + h] + ([CHAR_ZERO + t] + ([CHAR_ZERO + u] + rest));
      ScanDigit(h, [CHAR_ZERO + t] + ([CHAR_ZERO + u] + rest), vals, 0, false, h);
      ScanDigit(t, [CHAR_ZERO + u] + rest, vals, h, true, q);
      ScanDigit(u, rest, vals, q, true, n);
    }
  }

  /** A '.' after a group with a digit completes the group. */
  lemma ScanDot(rest: seq<Byte>, vals: seq<Byte>, num: Byte)
    requires |vals| < 4
    ensures Scan([CHAR_DOT] + rest, vals, num, true) == Scan(rest, vals + [num], 0, false)
  {
    assert ([CHAR_DOT] + rest)[1..] == rest;
  }

  /** Complete groups are consumed one by one: after the text of `q`, each
      group followed by '.', the scan continues with `q` as its groups. */
  lemma {:induction false} ScanDotted(q: seq<Byte>, rest: seq<Byte>)
    requires |q| <= 3
    ensures Scan(Dotted(q) + rest, [], 0, false) == Scan(rest, q, 0, false)
    decreases |q|
  {
    if |q| > 0 {
      var p := q[..|q| - 1];
      var n := q[|q| - 1];
      assert Dotted(q) == Dotted(p) + Dec(n) + [CHAR_DOT];
      assert Dotted(q) + rest == Dotted(p) + (Dec(n) + ([CHAR_DOT] + rest));
      ScanDotted(p, Dec(n) + ([CHAR_DOT] + rest));
      ScanGroup(n, [CHAR_DOT] + rest, p);
      ScanDot(rest, p, n);
      assert p + [n] == q;
    } else {
      assert Dotted(q) + rest == rest;
    }
  }

  /** The text of any four-byte address scans back to that address,
      whether the string ends there or goes on after a fourth '.'. */
  lemma QuadRoundTrip(q: seq<Byte>, tail: seq<Byte>)
    requires |q| == 4
    requires tail == [] || tail[0] == 0 || tail[0] == CHAR_DOT
    ensures Scan(Quad(q) + tail, [], 0, false) == Some(q)
  {
    assert Quad(q) + tail == Dotted(q[..3]) + (Dec(q[3]) + tail);
    ScanDotted(q[..3], Dec(q[3]) + tail);
    ScanGroup(q[3], tail, q[..3]);
    assert q[..3] + [q[3]] == q;
    if tail != [] && tail[0] == CHAR_DOT {
      assert Scan(tail, q[..3], q[3], true) == Scan(tail[1..], q, 0, false);
    }
  }

  /** A group that is empty (a '.' where a digit must come, or a string
      that ends after a '.') or a character that is neither a digit nor
      '.' before the fourth group is complete makes the scan fail; so do
      fewer than four groups. */
  lemma ScanRejects(q: seq<Byte>, x: Byte, rest: seq<Byte>)
    requires |q| <= 3
    ensures Scan(Dotted(q) + ([CHAR_DOT] + rest), [], 0, false) == None
    ensures Scan(Dotted(q), [], 0, false) == None
    ensures !IsDigit(x) && x != CHAR_DOT && x != 0 ==> Scan(Dotted(q) + ([x] + rest), [], 0, false) == None
    ensures |q| > 0 ==> Scan(Dotted(q[..|q| - 1]) + Dec(q[|q| - 1]), [], 0, false) == None
  {
    ScanDotted(q, [CHAR_DOT] + rest);
    ScanDotted(q, []);
    assert Dotted(q) + [] == Dotted(q);
    ScanDotted(q, [x] + rest);
    if |q| > 0 {
      var p := q[..|q| - 1];
      ScanDotted(p, Dec(q[|q| - 1]));
      ScanGroup(q[|q| - 1], [], p);
      assert Dec(q[|q| - 1]) + [] == Dec(q[|q| - 1]);
    }
  }

  /** A group of three digits whose value is above 255 makes the scan fail,
      wherever the group stands. */
  lemma ScanRejectsLargeGroup(q: seq<Byte>, d: seq<Byte>, rest: seq<Byte>)
    requires |q| <= 3 && |d| == 3 && forall k :: 0 <= k < 3 ==> IsDigit(d[k])
    requires (d[0] - CHAR_ZERO) * 100 + (d[1] - CHAR_ZERO) * 10 + (d[2] - CHAR_ZERO) > 255
    ensures Scan(Dotted(q) + (d + rest), [], 0, false) == None
  {
    ScanDotted(q, d + rest);
    assert d + rest == [d[0]] + ([d[1]] + ([d[2]] + rest));
    var d0, d1 := d[0] - CHAR_ZERO, d[1] - CHAR_ZERO;
    assert d[0] == CHAR_ZERO + d0 && d[1] == CHAR_ZERO + d1;
    ScanDigit(d0, [d[1]] + ([d[2]] + rest), q, 0, false, d0);
    ScanDigit(d1, [d[2]] + rest, q, d0, true, d0 * 10 + d1);
    assert ([d[2]] + rest)[0] == d[2];
  }

  // ---------------------------------------------------------------------
  // ip_checksum
  // ---------------------------------------------------------------------

  /** The sum of the buffer read as little-endian 16-bit words, the last
      odd byte on its own. */
  function WordSum(b: seq<Byte>): nat
  {
    if |b| == 0 then 0
    else if |b| == 1 then b[0]
    else Word(b[0], b[1]) + WordSum(b[2..])
  }

  /** A little-endian 16-bit word from its two bytes. */
  function Word(lo: Byte, hi: Byte): nat
  {
    lo as int + 0x100 * (hi as int)
  }

  /** The end of ip_checksum on the 32-bit sum: the carries folded in
      twice and the bits complemented, cut to 16 bits. */
  function Finish(sum: Word32): Word16
  {
    var s1 := sum / 0x1_0000 + sum % 0x1_0000;
    var s2 := s1 + s1 / 0x1_0000;
    0xFFFF - s2 % 0x1_0000
  }

  /** ip_checksum: the sum wraps at 32 bits like the source's uint32_t. */
  function Checksum(b: seq<Byte>): Word16
  {
    Finish(WordSum(b) % U32)
  }

  /** The summing loop of ip_checksum. */
  method IpChecksum(b: seq<Byte>) returns (r: Word16)
    ensures r == Checksum(b)
  {
    var sum: Word32 := 0;
    var i := 0;
    while |b| - i > 1
      invariant 0 <= i <= |b|
      invariant (sum + WordSum(b[i..])) % U32 == WordSum(b) % U32
    {
      assert WordSum(b[i..]) == Word(b[i], b[i + 1]) + WordSum(b[i + 2..]);
      AddWrap(sum + Word(b[i], b[i + 1]), WordSum(b[i + 2..]));
      sum := (sum + Word(b[i], b[i + 1])) % U32;
      i := i + 2;
    }
    if |b| - i == 1 {
      assert WordSum(b[i..]) == b[i];
      sum := (sum + b[i] as int) % U32;
    } else {
      assert WordSum(b[i..]) == 0;
      NoWrap(sum);
    }
    assert sum == WordSum(b) % U32;
    r := Finish(sum);
  }

  lemma AddWrap(a: nat, b: nat)
    ensures (a % U32 + b) % U32 == (a + b) % U32
  {
    var q := a / U32;
    assert a == q * U32 + a % U32;
    assert a + b == (a % U32 + b) + q * U32;
  }

  /** No word is above 0x7FFF.8 per byte, so short buffers never wrap the
      32-bit sum. */
  lemma {:induction false} WordSumBound(b: seq<Byte>)
    ensures WordSum(b) <= 0x8000 * |b|
  {
    if |b| >= 2 {
      WordSumBound(b[2..]);
    }
  }

  /** Storing a word at an even offset changes the sum by the difference
      of the words. */
  lemma {:induction false} WordSumPut(b: seq<Byte>, o: nat, lo: Byte, hi: Byte)
    requires o % 2 == 0 && o + 1 < |b|
    ensures WordSum(b[o := lo][o + 1 := hi]) + Word(b[o], b[o + 1]) == WordSum(b) + Word(lo, hi)
  {
    var b' := b[o := lo][o + 1 := hi];
    if o > 0 {
      WordSumPut(b[2..], o - 2, lo, hi);
      assert b'[2..] == b[2..][o - 2 := lo][o - 1 := hi];
    } else {
      assert b'[2..] == b[2..];
    }
  }

  /** The folding in Finish keeps the sum's value modulo 0xFFFF (one's
      complement arithmetic), ends within 16 bits, and is 0 only for a
      zero sum. */
  lemma Fold(sum: Word32)
    ensures var f := 0xFFFF - Finish(sum);
            0 <= f <= 0xFFFF && (sum > 0 ==> f > 0)
            && sum == f + 0xFFFF * (sum / 0x1_0000 + (if sum / 0x1_0000 + sum % 0x1_0000 >= 0x1_0000 then 1 else 0))
  {
    var s1 := sum / 0x1_0000 + sum % 0x1_0000;
    assert sum == 0x1_0000 * (sum / 0x1_0000) + sum % 0x1_0000;
    if s1 >= 0x1_0000 {
      assert (s1 + 1) % 0x1_0000 == s1 + 1 - 0x1_0000;
    }
  }

  /** Section 4.1 of RFC 1071: once the checksum of a buffer (computed with
      its checksum field zero) is stored in that field, the checksum of
      the buffer is 0. The field is at an even offset and stored
      little-endian, as the source's uint16_t store does. */
  lemma ChecksumVerifies(b: seq<Byte>, o: nat)
    requires o % 2 == 0 && o + 1 < |b| && |b| < 0x1_0000
    requires b[o] == 0 && b[o + 1] == 0
    ensures var c := Checksum(b);
            Checksum(b[o := c % 0x100][o + 1 := c / 0x100]) == 0
  {
    var c := Checksum(b);
    var lo: Byte, hi: Byte := c % 0x100, c / 0x100;
    var b' := b[o := lo][o + 1 := hi];
    assert Word(lo, hi) == c;
    WordSumPut(b, o, lo, hi);
    WordSumBound(b);
    SumChecks(WordSum(b), WordSum(b'));
  }

  /** The same on the sums: a sum below 2^31 plus its checksum gives a
      sum whose checksum is 0. */
  lemma SumChecks(s: nat, s': nat)
    requires s < 0x8000_0000 && s' == s + Finish(s % U32)
    ensures Finish(s' % U32) == 0
  {
    NoWrap(s);
    NoWrap(s');
    FinishTwice(s);
  }

  /** Adding the folded complement of a sum to it gives a sum whose
      folded complement is 0. */
  lemma FinishTwice(s: Word32)
    requires s + Finish(s) < U32
    ensures Finish(s + Finish(s)) == 0
  {
    var s' := s + Finish(s);
    Fold(s);
    Fold(s');
    var f' := 0xFFFF - Finish(s');
    var m := s / 0x1_0000 + (if s / 0x1_0000 + s % 0x1_0000 >= 0x1_0000 then 1 else 0);
    var m' := s' / 0x1_0000 + (if s' / 0x1_0000 + s' % 0x1_0000 >= 0x1_0000 then 1 else 0);
    assert s' == 0xFFFF * (m + 1);
    assert f' == 0xFFFF * (m + 1 - m');
    assert f' == 0xFFFF;
  }

  // ---------------------------------------------------------------------
  // The card: transmit pages and the receive ring
  // ---------------------------------------------------------------------

  const PAGE_SIZE: nat := 256
  const RX_START: nat := 0x46
  const RX_STOP: nat := 0x80
  const TX_START: nat := 0x40
  /** The card memory the driver addresses: everything below page RX_STOP. */
  const CARD_SIZE: nat := RX_STOP * PAGE_SIZE
  const ETH_MIN: nat := 60
  const ETH_MAX: nat := 1518
  /** sizeof(rx_buf) and sizeof(tx_buf). */
  const RX_BUF_SIZE: nat := 1600
  const TX_BUF_SIZE: nat := 1518

  /** Page p lies in the receive ring [RX_START, RX_STOP). */
  predicate InRing(p: int) { RX_START <= p < RX_STOP }

  /** ne2k_transmit's length: at least the Ethernet minimum, at most a
      full frame. */
  function TxLength(len: Word16): (r: nat)
    ensures ETH_MIN <= r <= ETH_MAX
    ensures ETH_MIN <= len <= ETH_MAX ==> r == len
    ensures len < ETH_MIN ==> r == ETH_MIN
    ensures len > ETH_MAX ==> r == ETH_MAX
  {
    if len < ETH_MIN then ETH_MIN else if len > ETH_MAX then ETH_MAX else len
  }

  /** The first page ne2k_rx_drain reads: the one after the boundary, in
      8-bit arithmetic, back to RX_START at RX_STOP. */
  function StartPage(bnry: Byte): Byte
  {
    var p := (bnry + 1) % U8;
    if p >= RX_STOP then RX_START else p
  }

  /** The boundary after a frame whose successor starts at page `next`:
      the page before it, in 8-bit arithmetic, back to RX_STOP - 1 below
      RX_START. */
  function NextBoundary(next: Byte): Byte
  {
    var b := (next - 1) % U8;
    if b < RX_START then RX_STOP - 1 else b
  }

  /** The boundary written to recover from a bad frame or an overwrite
      warning: the page before CURR, RX_STOP - 1 when CURR is RX_START. */
  function RecoveryBoundary(curr: Byte): Byte
  {
    if curr == RX_START then RX_STOP - 1 else (curr - 1) % U8
  }

  /** The boundary arithmetic stays in the ring, and every boundary it
      writes is the one just behind the page the next drain is to read:
      after a frame, the successor page; after a recovery, CURR, so that
      the ring reads as empty. */
  lemma RingArithmetic(b: Byte, next: Byte, curr: Byte)
    ensures InRing(b) ==> InRing(StartPage(b))
    ensures InRing(next) ==> InRing(NextBoundary(next)) && StartPage(NextBoundary(next)) == next
    ensures InRing(curr) ==> InRing(RecoveryBoundary(curr)) && StartPage(RecoveryBoundary(curr)) == curr
  {
  }

  /** The two reads of a frame that may pass the end of the ring: up to
      the end of the ring from the frame's page, and the rest from the
      ring's first page. */
  function RingRead(card: seq<Byte>, page: Byte, readLen: nat): (r: seq<Byte>)
    requires |card| == CARD_SIZE && page < RX_STOP && readLen <= RX_BUF_SIZE
    ensures |r| == readLen
  {
    var addr := page * PAGE_SIZE;
    var first := Min(CARD_SIZE - addr, readLen);
    card[addr..addr + first] + card[RX_START * PAGE_SIZE..RX_START * PAGE_SIZE + (readLen - first)]
  }

  /** The card address of byte a of the ring read linearly. */
  function RingAddr(a: nat): nat
  {
    if a < CARD_SIZE then a else a - CARD_SIZE + RX_START * PAGE_SIZE
  }

  /** Byte k of the frame read from `page` is the byte k places on from
      the frame's start, wrapping from the end of the ring to its start. */
  predicate ReadsWrapped(card: seq<Byte>, page: Byte, readLen: nat, k: nat)
    requires |card| == CARD_SIZE && page < RX_STOP && readLen <= RX_BUF_SIZE && k < readLen
  {
    RingAddr(page * PAGE_SIZE + k) < CARD_SIZE
    && RingRead(card, page, readLen)[k] == card[RingAddr(page * PAGE_SIZE + k)]
  }

  /** The split read is the ring read as a circle. */
  lemma RingReadWraps(card: seq<Byte>, page: Byte, readLen: nat)
    requires |card| == CARD_SIZE && InRing(page) && readLen <= RX_BUF_SIZE
    ensures forall k: nat :: k < readLen ==> ReadsWrapped(card, page, readLen, k)
  {
    forall k: nat | k < readLen
      ensures ReadsWrapped(card, page, readLen, k)
    {
      var addr := page * PAGE_SIZE;
      var first := Min(CARD_SIZE - addr, readLen);
      var r := RingRead(card, page, readLen);
      if k < first {
        assert r[k] == card[addr..addr + first][k];
      } else {
        assert r[k] == card[RX_START * PAGE_SIZE..RX_START * PAGE_SIZE + (readLen - first)][k - first];
      }
    }
  }

  /** The frame in rx_buf (after the 4-byte ring header) is an ICMP echo
      reply: Ethernet type 0x0800 (read big-endian through ntohs), IP
      protocol 1 in a 20-byte IP header, ICMP type 0, each test guarded by
      the length read. */
  predicate IsEchoReply(f: seq<Byte>)
  {
    |f| >= 4 + 14 && f[16] == 0x08 && f[17] == 0x00
    && |f| >= 4 + 14 + 20 && f[4 + 14 + 9] == 1
    && |f| >= 4 + 14 + 20 + 8 && f[4 + 14 + 20] == 0
  }

  /** The ring header's total length, little-endian. */
  function FrameLength(card: seq<Byte>, page: Byte): Word16
    requires |card| == CARD_SIZE && page < RX_STOP
  {
    Word(card[page * PAGE_SIZE + 2], card[page * PAGE_SIZE + 3])
  }

  /** The outcome of ne2k_rx_drain: the boundary, the ping flag, and
      whether the bound on frames ran out before the loop ended. */
  datatype Drained = Drained(bnry: Byte, ping: bool, exhausted: bool)

  /** A ring header whose length ne2k_rx_drain accepts. */
  predicate GoodLength(card: seq<Byte>, page: Byte)
    requires |card| == CARD_SIZE && page < RX_STOP
  {
    ETH_MIN <= FrameLength(card, page) <= RX_BUF_SIZE
  }

  /** The frame at `page` is an echo reply, read with its header up to
      the size of rx_buf. */
  predicate EchoAt(card: seq<Byte>, page: Byte)
    requires |card| == CARD_SIZE && page < RX_STOP && GoodLength(card, page)
  {
    IsEchoReply(RingRead(card, page, Min(FrameLength(card, page) + 4, RX_BUF_SIZE)))
  }

  /** The successor page in the ring header. */
  function Successor(card: seq<Byte>, page: Byte): Byte
    requires |card| == CARD_SIZE && page < RX_STOP
  {
    card[page * PAGE_SIZE + 1]
  }

  /** ne2k_rx_drain from page `page` with CURR = `curr`, for at most `fuel`
      more frames: a length outside 60..1600 or a successor page outside
      the ring ends the drain with the recovery boundary; otherwise the
      frame is read, checked for an echo reply, and the boundary moves to
      just before its successor. */
  function DrainFrom(card: seq<Byte>, page: Byte, curr: Byte, bnry: Byte, ping: bool, fuel: nat): Drained
    requires |card| == CARD_SIZE && page < RX_STOP
    decreases fuel
  {
    if page == curr then Drained(bnry, ping, false)
    else if fuel == 0 then Drained(bnry, ping, true)
    else if !GoodLength(card, page) then Drained(RecoveryBoundary(curr), ping, false)
    else
      var ping' := ping || EchoAt(card, page);
      var next := Successor(card, page);
      if !InRing(next) then Drained(RecoveryBoundary(curr), ping', false)
      else DrainFrom(card, next, curr, NextBoundary(next), ping', fuel - 1)
  }

  /** A drain keeps the boundary in the ring, and unless the bound on
      frames ran out it leaves the boundary just behind CURR, so that the
      next drain starts where the card writes next. */
  lemma {:induction false} DrainCatchesUp(card: seq<Byte>, page: Byte, curr: Byte, bnry: Byte, ping: bool, fuel: nat)
    requires |card| == CARD_SIZE && InRing(page) && InRing(curr) && InRing(bnry)
    requires page == StartPage(bnry)
    ensures var r := DrainFrom(card, page, curr, bnry, ping, fuel);
            InRing(r.bnry) && (!r.exhausted ==> StartPage(r.bnry) == curr)
    decreases fuel
  {
    var next := Successor(card, page);
    RingArithmetic(bnry, next, curr);
    if page != curr && fuel > 0 && GoodLength(card, page) && InRing(next) {
      DrainCatchesUp(card, next, curr, NextBoundary(next), ping || EchoAt(card, page), fuel - 1);
    }
  }

  /** As written, the loop of ne2k_rx_drain has no bound: a ring header
      with an accepted length whose successor is its own page, away from
      CURR, is read again and again, so however many frames a drain is
      allowed it never reaches CURR. */
  lemma {:induction false} SelfLinkedSpinsAsWritten(card: seq<Byte>, page: Byte, curr: Byte, bnry: Byte, ping: bool, fuel: nat)
    requires |card| == CARD_SIZE && InRing(page) && page != curr
    requires GoodLength(card, page) && Successor(card, page) == page
    ensures DrainFrom(card, page, curr, bnry, ping, fuel).exhausted
    decreases fuel
  {
    if fuel > 0 {
      SelfLinkedSpinsAsWritten(card, page, curr, NextBoundary(page), ping || EchoAt(card, page), fuel - 1);
    }
  }

  /** A ring holding such a header: page RX_START names itself as the
      successor and carries a 60-byte frame. */
  function SelfLinkedCard(): (card: seq<Byte>)
    ensures |card| == CARD_SIZE
    ensures Successor(card, RX_START) == RX_START && FrameLength(card, RX_START) == ETH_MIN
  {
    seq(CARD_SIZE, i => if i == RX_START * PAGE_SIZE + 1 then RX_START
                        else if i == RX_START * PAGE_SIZE + 2 then ETH_MIN else 0)
  }

  /** With the boundary just before RX_START and CURR anywhere else in the
      ring, the drain of that card spins: every bound runs out. */
  lemma SelfLinkedCardSpins(curr: Byte, fuel: nat)
    requires InRing(curr) && curr != RX_START
    ensures StartPage(RX_STOP - 1) == RX_START
    ensures DrainFrom(SelfLinkedCard(), RX_START, curr, RX_STOP - 1, false, fuel).exhausted
  {
    SelfLinkedSpinsAsWritten(SelfLinkedCard(), RX_START, curr, RX_STOP - 1, false, fuel);
  }

  // ---------------------------------------------------------------------
  // build_icmp_echo and do_ping_impl
  // ---------------------------------------------------------------------

  const MY_MAC: seq<Byte> := [0x52, 0x54, 0x00, 0x12, 0x34, 0x56]
  const MY_IP: seq<Byte> := [192, 168, 10, 19]
  const BROADCAST_MAC: seq<Byte> := [0xFF, 0xFF, 0xFF, 0xFF, 0xFF, 0xFF]
  const ETH_P_IP: Word16 := 0x0800
  const IP_PROTO_ICMP: Byte := 1
  /** ETH_HLEN + IP_HLEN + ICMP_HLEN + 32 bytes of payload. */
  const ECHO_LEN: nat := 74
  /** How many drains do_ping_impl waits for a reply. */
  const PING_TRIES: nat := 1000

  /** A host uint16_t as the i386 stores it: low byte first. */
  function Store16(v: Word16): (r: seq<Byte>)
    ensures |r| == 2
  {
    [v % 0x100, v / 0x100]
  }

  /** A value passed through htons is stored in network order: high byte
      first. */
  lemma HtonsStoresBigEndian(v: Word16)
    ensures Store16(Htons(v)) == [v / 0x100, v % 0x100]
  {
  }

  /** The echo payload: 'A' + i % 26 for i in 0..32. */
  function EchoPayload(): seq<Byte>
  {
    seq(32, i => 0x41 + i % 26)
  }

  /** The Ethernet header: destination, this card's address, type IPv4
      (network order). */
  function EthHeader(dstMac: seq<Byte>): seq<Byte>
  {
    dstMac + MY_MAC + [0x08, 0x00]
  }

  /** The 20-byte IP header with its checksum field zero: version 4,
      IHL 5, total length 60 (network order), TTL 64, protocol ICMP. */
  function IpHeader(dstIp: seq<Byte>): seq<Byte>
  {
    [0x45, 0, 0x00, 0x3C, 0, 0, 0, 0, 64, IP_PROTO_ICMP, 0, 0] + MY_IP + dstIp
  }

  /** The ICMP echo request with its checksum field zero: type 8, code 0,
      identifier 0x1234 and sequence 1 (network order), then the
      payload. */
  function IcmpPart(payload: seq<Byte>): seq<Byte>
  {
    [8, 0, 0, 0, 0x12, 0x34, 0x00, 0x01] + payload
  }

  /** `b` with ip_checksum of `b` stored at offset `o`. */
  function Sealed(b: seq<Byte>, o: nat): (r: seq<Byte>)
    requires o + 1 < |b|
    ensures |r| == |b|
  {
    var c := Checksum(b);
    b[o := c % 0x100][o + 1 := c / 0x100]
  }

  /** The frame build_icmp_echo writes, for a given payload: the Ethernet
      header, then the IP header and the ICMP message, each sealed with
      the checksum of its own bytes. The source's payload is
      EchoPayload(). */
  function EchoFrame(dstMac: seq<Byte>, dstIp: seq<Byte>, payload: seq<Byte>): seq<Byte>
  {
    EthHeader(dstMac) + Sealed(IpHeader(dstIp), 10) + Sealed(IcmpPart(payload), 2)
  }

  /** The three parts of a frame are found back at their offsets. */
  lemma Parts(e: seq<Byte>, i: seq<Byte>, m: seq<Byte>)
    ensures var f := e + i + m;
            f[..|e|] == e && f[|e|..|e| + |i|] == i && f[|e| + |i|..] == m
  {
    var f := e + i + m;
    assert f[..|e|] == e;
    assert f[|e|..|e| + |i|] == i;
    assert f[|e| + |i|..] == m;
  }

  /** Both checksums of the echo request verify (section 4.1 of RFC 1071). */
  lemma EchoChecksumsVerify(dstMac: seq<Byte>, dstIp: seq<Byte>, payload: seq<Byte>)
    requires |dstMac| == 6 && |dstIp| == 4 && |payload| == 32
    ensures var f := EchoFrame(dstMac, dstIp, payload);
            |f| == ECHO_LEN && Checksum(f[14..34]) == 0 && Checksum(f[34..74]) == 0
  {
    var ip := IpHeader(dstIp);
    var icmp := IcmpPart(payload);
    ChecksumVerifies(ip, 10);
    ChecksumVerifies(icmp, 2);
    var f := EchoFrame(dstMac, dstIp, payload);
    Parts(EthHeader(dstMac), Sealed(ip, 10), Sealed(icmp, 2));
    assert f[34..74] == f[34..];
  }

  /** The echo request is addressed to `dstMac` from this card with type
      IPv4. */
  lemma EchoFrameEthernet(dstMac: seq<Byte>, dstIp: seq<Byte>, payload: seq<Byte>)
    requires |dstMac| == 6 && |dstIp| == 4 && |payload| == 32
    ensures var f := EchoFrame(dstMac, dstIp, payload);
            |f| == ECHO_LEN && f[..6] == dstMac && f[6..12] == MY_MAC
            && Ntohs(Word(f[12], f[13])) == ETH_P_IP
  {
    var e := EthHeader(dstMac);
    var f := EchoFrame(dstMac, dstIp, payload);
    Parts(e, Sealed(IpHeader(dstIp), 10), Sealed(IcmpPart(payload), 2));
    assert f[..6] == e[..6];
    assert f[6..12] == e[6..12];
    assert f[12] == e[12] && f[13] == e[13];
    assert Word(f[12], f[13]) == 8;
  }

  /** The echo request carries ICMP from this host to `dstIp`, with ICMP
      type 8 (echo request) and the given payload. */
  lemma EchoFrameIp(dstMac: seq<Byte>, dstIp: seq<Byte>, payload: seq<Byte>)
    requires |dstMac| == 6 && |dstIp| == 4 && |payload| == 32
    ensures var f := EchoFrame(dstMac, dstIp, payload);
            |f| == ECHO_LEN && f[23] == IP_PROTO_ICMP && f[26..30] == MY_IP && f[30..34] == dstIp
            && f[34] == 8 && f[42..] == payload
  {
    var e := EthHeader(dstMac);
    var i := Sealed(IpHeader(dstIp), 10);
    var m := Sealed(IcmpPart(payload), 2);
    var f := EchoFrame(dstMac, dstIp, payload);
    Parts(e, i, m);
    assert f[23] == IP_PROTO_ICMP && f[26..30] == MY_IP && f[30..34] == dstIp by {
      assert f[23] == i[9];
      assert f[26..30] == i[12..16];
      assert f[30..34] == i[16..20];
    }
    assert f[34] == 8 && f[42..] == payload by {
      assert f[34] == m[0];
      assert f[42..] == m[8..];
    }
  }

  /** Our own echo request, if it came back through the ring, is not taken
      for a reply: its ICMP type is 8. */
  lemma EchoRequestIsNotReply(hdr: seq<Byte>, dstMac: seq<Byte>, dstIp: seq<Byte>, payload: seq<Byte>)
    requires |hdr| == 4 && |dstMac| == 6 && |dstIp| == 4 && |payload| == 32
    ensures !IsEchoReply(hdr + EchoFrame(dstMac, dstIp, payload))
  {
    EchoFrameIp(dstMac, dstIp, payload);
    assert (hdr + EchoFrame(dstMac, dstIp, payload))[4 + 14 + 20] == EchoFrame(dstMac, dstIp, payload)[34];
  }

  /** do_ping_impl's waiting loop: up to `tries` drains, each starting with
      the flag clear, stopping at the first that sees an echo reply. */
  function PingLoop(card: seq<Byte>, curr: Byte, bnry: Byte, fuel: nat, tries: nat): Drained
    requires |card| == CARD_SIZE
    decreases tries
  {
    if tries == 0 then Drained(bnry, false, false)
    else
      var r := DrainFrom(card, StartPage(bnry), curr, bnry, false, fuel);
      if r.ping then r else PingLoop(card, curr, r.bnry, fuel, tries - 1)
  }

  /** The waiting loop keeps the boundary in the ring. */
  lemma {:induction false} PingLoopInRing(card: seq<Byte>, curr: Byte, bnry: Byte, fuel: nat, tries: nat)
    requires |card| == CARD_SIZE && InRing(curr) && InRing(bnry)
    ensures InRing(PingLoop(card, curr, bnry, fuel, tries).bnry)
    decreases tries
  {
    if tries > 0 {
      RingArithmetic(bnry, 0, 0);
      DrainCatchesUp(card, StartPage(bnry), curr, bnry, false, fuel);
      var r := DrainFrom(card, StartPage(bnry), curr, bnry, false, fuel);
      if !r.ping {
        PingLoopInRing(card, curr, r.bnry, fuel, tries - 1);
      }
    }
  }

  /** ISR bits the interrupt handler acts on. */
  predicate HasPrx(isr: Byte) { isr % 2 == 1 }
  predicate HasOvw(isr: Byte) { (isr / 0x10) % 2 == 1 }

  /** The NE2000 as the driver sees it: the card's memory, the boundary
      register BNRY, the static tx_buf, the frames put on the wire, and
      the ping flag. */
  class Nic {
    var card: seq<Byte>
    var bnry: Byte
    var txBuf: seq<Byte>
    var sent: seq<seq<Byte>>
    var pingReceived: bool

    ghost predicate Valid()
      reads this
    {
      |card| == CARD_SIZE && |txBuf| == TX_BUF_SIZE
    }

    /** ne2k_init: the boundary starts at RX_START; the card memory is
        whatever it holds; nothing has been sent. */
    constructor (mem: seq<Byte>)
      requires |mem| == CARD_SIZE
      ensures Valid() && card == mem && bnry == RX_START && sent == [] && !pingReceived
      ensures txBuf == seq(TX_BUF_SIZE, _ => 0)
    {
      card := mem;
      bnry := RX_START;
      txBuf := seq(TX_BUF_SIZE, _ => 0);
      sent := [];
      pingReceived := false;
    }

    /** ne2k_transmit: the clamped length of `data` goes into the card's
        transmit pages and out on the wire. The source reads that many
        bytes from `data` whatever its size; its callers pass tx_buf. */
    method Transmit(data: seq<Byte>, len: Word16)
      requires Valid() && |data| >= TxLength(len)
      modifies this
      ensures Valid()
      ensures var n := TxLength(len);
              card == old(card)[..TX_START * PAGE_SIZE] + data[..n] + old(card)[TX_START * PAGE_SIZE + n..]
              && sent == old(sent) + [data[..n]]
      ensures bnry == old(bnry) && txBuf == old(txBuf) && pingReceived == old(pingReceived)
    {
      var n := TxLength(len);
      var addr := TX_START * PAGE_SIZE;
      card := card[..addr] + data[..n] + card[addr + n..];
      sent := sent + [data[..n]];
    }

    /** send_packet: nothing for a NULL buffer or length 0; otherwise at
        most 1518 bytes are copied into tx_buf and transmitted. A frame
        shorter than 60 bytes goes out padded with whatever tx_buf held
        after it. */
    method SendPacket(data: Option<seq<Byte>>, len: nat)
      requires Valid() && (data.Some? ==> |data.value| >= Min(len, TX_BUF_SIZE))
      modifies this
      ensures Valid() && bnry == old(bnry) && pingReceived == old(pingReceived)
      ensures data.None? || len == 0 ==> sent == old(sent) && txBuf == old(txBuf) && card == old(card)
      ensures data.Some? && len > 0 ==>
                var n := Min(len, TX_BUF_SIZE);
                txBuf == data.value[..n] + old(txBuf)[n..]
                && sent == old(sent) + [txBuf[..TxLength(n)]]
      ensures data.Some? && ETH_MIN <= len <= ETH_MAX ==> sent == old(sent) + [data.value[..len]]
    {
      if data.None? || len == 0 {
        return;
      }
      var n := Min(len, TX_BUF_SIZE);
      txBuf := data.value[..n] + txBuf[n..];
      Transmit(txBuf, n);
      if ETH_MIN <= len <= ETH_MAX {
        assert txBuf[..TxLength(n)] == data.value[..len];
      }
    }

    /** The two remote-DMA reads of a frame into rx_buf: up to the end of
        the ring, then the rest from the ring's first page. */
    method ReadFrame(page: Byte, readLen: nat) returns (frame: seq<Byte>)
      requires Valid() && page < RX_STOP && readLen <= RX_BUF_SIZE
      ensures frame == RingRead(card, page, readLen)
    {
      var addr := page * PAGE_SIZE;
      var first := CARD_SIZE - addr;
      if first > readLen {
        first := readLen;
      }
      frame := card[addr..addr + first];
      if first < readLen {
        frame := frame + card[RX_START * PAGE_SIZE..RX_START * PAGE_SIZE + (readLen - first)];
      } else {
        assert card[RX_START * PAGE_SIZE..RX_START * PAGE_SIZE + (readLen - first)] == [];
        assert frame + [] == frame;
      }
    }

    /** One pass of ne2k_rx_drain's loop body at `page`: a bad length, or
        a successor page outside the ring, sets the recovery boundary and
        stops; otherwise the frame is read, an echo reply sets the flag,
        and the boundary moves just before the successor page. */
    method DrainOne(page: Byte, curr: Byte) returns (stop: bool, next: Byte)
      requires Valid() && page < RX_STOP
      modifies this
      ensures Valid() && card == old(card) && txBuf == old(txBuf) && sent == old(sent)
      ensures !GoodLength(card, page) ==> stop && bnry == RecoveryBoundary(curr) && pingReceived == old(pingReceived)
      ensures GoodLength(card, page) ==>
                pingReceived == (old(pingReceived) || EchoAt(card, page))
                && next == Successor(card, page) && stop == !InRing(next)
                && bnry == (if stop then RecoveryBoundary(curr) else NextBoundary(next))
    {
      var addr := page * PAGE_SIZE;
      var totlen: Word16 := card[addr + 2] as int + 0x100 * card[addr + 3] as int;
      assert totlen == FrameLength(card, page);
      if totlen < ETH_MIN || totlen > RX_BUF_SIZE {
        bnry := RecoveryBoundary(curr);
        return true, 0;
      }
      var readLen := totlen + 4;
      if readLen > RX_BUF_SIZE {
        readLen := RX_BUF_SIZE;
      }
      var frame := ReadFrame(page, readLen);
      if IsEchoReply(frame) {
        pingReceived := true;
      }
      next := card[addr + 1];
      if !InRing(next) {
        bnry := RecoveryBoundary(curr);
        return true, next;
      }
      bnry := NextBoundary(next);
      stop := false;
    }

    /** ne2k_rx_drain with CURR reading `curr` throughout, for at most
        `fuel` frames. */
    method Drain(curr: Byte, fuel: nat)
      requires Valid()
      modifies this
      ensures Valid() && card == old(card) && txBuf == old(txBuf) && sent == old(sent)
      ensures var r := DrainFrom(card, StartPage(old(bnry)), curr, old(bnry), old(pingReceived), fuel);
              bnry == r.bnry && pingReceived == r.ping
    {
      var page: Byte := StartPage(bnry);
      ghost var goal := DrainFrom(card, page, curr, bnry, pingReceived, fuel);
      var left := fuel;
      while page != curr
        invariant Valid() && card == old(card) && txBuf == old(txBuf) && sent == old(sent)
        invariant page < RX_STOP
        invariant DrainFrom(card, page, curr, bnry, pingReceived, left) == goal
        decreases left
      {
        if left == 0 {
          break;
        }
        ghost var bnry0, ping0 := bnry, pingReceived;
        var stop, next := DrainOne(page, curr);
        if stop {
          assert goal == DrainFrom(card, page, curr, bnry0, ping0, left) == Drained(bnry, pingReceived, false);
          return;
        }
        assert DrainFrom(card, page, curr, bnry0, ping0, left)
            == DrainFrom(card, next, curr, bnry, pingReceived, left - 1);
        page := next;
        left := left - 1;
      }
      assert goal == Drained(bnry, pingReceived, page != curr);
    }

    /** build_icmp_echo into tx_buf: the first 74 bytes become the echo
        request, the rest of tx_buf is left as it was. */
    method BuildIcmpEcho(dstMac: seq<Byte>, dstIp: seq<Byte>) returns (outLen: nat)
      requires Valid() && |dstMac| == 6 && |dstIp| == 4
      modifies this
      ensures Valid() && outLen == ECHO_LEN
      ensures txBuf == EchoFrame(dstMac, dstIp, EchoPayload()) + old(txBuf)[ECHO_LEN..]
      ensures card == old(card) && bnry == old(bnry) && sent == old(sent) && pingReceived == old(pingReceived)
    {
      HtonsStoresBigEndian(ETH_P_IP);
      HtonsStoresBigEndian(0x1234);
      HtonsStoresBigEndian(1);
      HtonsStoresBigEndian(20 + 8 + 32);
      var eth := dstMac + MY_MAC + Store16(Htons(ETH_P_IP));
      assert eth == EthHeader(dstMac);
      var payload: seq<Byte> := seq(32, _ => 0);
      for i := 0 to 32
        invariant |payload| == 32
        invariant forall j :: 0 <= j < i ==> payload[j] == EchoPayload()[j]
      {
        payload := payload[i := 0x41 + i % 26];
      }
      assert payload == EchoPayload();
      var icmp := [8, 0, 0, 0] + Store16(Htons(0x1234)) + Store16(Htons(1)) + payload;
      assert icmp == IcmpPart(payload);
      var c := IpChecksum(icmp);
      icmp := icmp[2 := c % 0x100][3 := c / 0x100];
      var ip := [0x45, 0, 0, 0, 0, 0, 0, 0, 64, IP_PROTO_ICMP, 0, 0] + MY_IP + dstIp;
      var totLen := Store16(Htons(20 + 8 + 32));
      ip := ip[2 := totLen[0]][3 := totLen[1]];
      assert ip == IpHeader(dstIp);
      var check := IpChecksum(ip);
      ip := ip[10 := check % 0x100][11 := check / 0x100];
      txBuf := eth + ip + icmp + txBuf[ECHO_LEN..];
      outLen := 14 + 20 + 8 + 32;
    }

    /** do_ping_impl: an address that does not parse sends nothing;
        otherwise the echo request goes out to the broadcast address, the
        flag is cleared, and up to 1000 drains wait for a reply. */
    method DoPing(ipstr: Option<seq<Byte>>, curr: Byte, fuel: nat)
      requires Valid()
      modifies this
      ensures Valid()
      ensures var q := if ipstr.Some? then Scan(ipstr.value, [], 0, false) else None;
              if q.None? then
                card == old(card) && bnry == old(bnry) && txBuf == old(txBuf)
                && sent == old(sent) && pingReceived == old(pingReceived)
              else
                var f := EchoFrame(BROADCAST_MAC, q.value, EchoPayload());
                var r := PingLoop(card, curr, old(bnry), fuel, PING_TRIES);
                txBuf == f + old(txBuf)[ECHO_LEN..] && sent == old(sent) + [f]
                && card == old(card)[..TX_START * PAGE_SIZE] + f + old(card)[TX_START * PAGE_SIZE + ECHO_LEN..]
                && bnry == r.bnry && pingReceived == r.ping
    {
      var ok, dip := ParseIpv4(ipstr);
      if !ok {
        return;
      }
      var frameLen := BuildIcmpEcho(BROADCAST_MAC, dip);
      ghost var f := EchoFrame(BROADCAST_MAC, dip, EchoPayload());
      assert txBuf[..ECHO_LEN] == f;
      Transmit(txBuf, frameLen);
      assert TxLength(frameLen) == ECHO_LEN;
      pingReceived := false;
      ghost var card1, txBuf1, sent1 := card, txBuf, sent;
      ghost var goal := PingLoop(card, curr, bnry, fuel, PING_TRIES);
      var t := 0;
      while t < PING_TRIES && !pingReceived
        invariant Valid() && card == card1 && txBuf == txBuf1 && sent == sent1
        invariant t <= PING_TRIES
        invariant pingReceived ==> goal == Drained(bnry, true, goal.exhausted)
        invariant !pingReceived ==> PingLoop(card, curr, bnry, fuel, PING_TRIES - t) == goal
        decreases PING_TRIES - t
      {
        Drain(curr, fuel);
        t := t + 1;
      }
    }

    /** net_interrupt_handler: the packet-received bit drains the ring, the
        overwrite-warning bit then moves the boundary just behind CURR;
        the other bits are only acknowledged. */
    method Interrupt(isr: Byte, curr: Byte, fuel: nat)
      requires Valid()
      modifies this
      ensures Valid() && card == old(card) && txBuf == old(txBuf) && sent == old(sent)
      ensures var r := DrainFrom(card, StartPage(old(bnry)), curr, old(bnry), old(pingReceived), fuel);
              pingReceived == (if HasPrx(isr) then r.ping else old(pingReceived))
              && bnry == (if HasOvw(isr) then RecoveryBoundary(curr) else if HasPrx(isr) then r.bnry else old(bnry))
    {
      if HasPrx(isr) {
        Drain(curr, fuel);
      }
      if HasOvw(isr) {
        bnry := RecoveryBoundary(curr);
      }
    }
  }
}
