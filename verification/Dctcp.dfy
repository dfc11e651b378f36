/** DCTCP's estimate of the fraction of marked packets, and the slow-start threshold it yields. */
module Dctcp {
  import opened Words

  const DCTCP_MAX_ALPHA: u32 := 1024
  const DCTCP_SHIFT_G_DIV: nat := 16    // g = 1/16
  const CE_SCALE: nat := 64             // 2^(10 - 4)

  /** Sequence number order: the wrapped difference is negative as a signed word. */
  predicate Before(a: u32, b: u32) { Wrap32(a - b) >= 0x8000_0000 }

  /** A sixteenth, but never zero for a non-zero value: the smaller of the two that is not zero. */
  function Decay(alpha: u32): (d: u32) {
    var y := alpha / DCTCP_SHIFT_G_DIV;
    if alpha == 0 then y else if y == 0 then alpha else Min(alpha, y)
  }

  /** The estimate after a round trip with that many marked and delivered packets. */
  function NextAlpha(alpha: u32, ce: u32, delivered: u32): (a: u32) {
    var lower := Wrap32(alpha - Decay(alpha));
    if ce == 0 then lower
    else Min(Wrap32(lower + Wrap32(ce * CE_SCALE) / Max(1, delivered)), DCTCP_MAX_ALPHA)
  }

  function Ssthresh(cwnd: u32, alpha: u32): (t: u32) {
    Max(Wrap32(cwnd - Wrap32(cwnd * alpha) / 2048), 2)
  }

  // ----- the estimate -----

  lemma AlphaInRange(alpha: u32, ce: u32, delivered: u32)
    requires alpha <= DCTCP_MAX_ALPHA
    ensures NextAlpha(alpha, ce, delivered) <= DCTCP_MAX_ALPHA
  {
  }

  /** With no mark a positive estimate strictly drops, to zero at once when it is below 16. */
  lemma UnmarkedDrops(alpha: u32, delivered: u32)
    requires alpha <= DCTCP_MAX_ALPHA
    ensures var a := NextAlpha(alpha, 0, delivered);
            (alpha > 0 ==> a < alpha) && (alpha < 16 ==> a == 0) && 16 * a <= 15 * alpha + 15
  {
    hide Wrap32;
    DecayBounds(alpha);
    WrapExact(alpha - Decay(alpha));
  }

  function Unmarked(alpha: u32, delivered: seq<u32>): (a: u32) {
    if delivered == [] then alpha else Unmarked(NextAlpha(alpha, 0, delivered[0]), delivered[1..])
  }

  /** As many unmarked round trips as the estimate is large bring it to zero, where it stays. */
  lemma {:induction false} UnmarkedReachesZero(alpha: u32, delivered: seq<u32>)
    requires alpha <= DCTCP_MAX_ALPHA && |delivered| >= alpha
    ensures Unmarked(alpha, delivered) == 0
  {
    if delivered != [] {
      UnmarkedDrops(alpha, delivered[0]);
      UnmarkedReachesZero(NextAlpha(alpha, 0, delivered[0]), delivered[1..]);
    }
  }

  /** When every delivered packet is marked the estimate does not drop exactly when the truncated ratio
      makes up for the decay, which it does, strictly, as long as the scaled count fits in 32 bits; and
      full stays full exactly then. */
  lemma AllMarkedRises(alpha: u32, delivered: u32)
    requires alpha <= DCTCP_MAX_ALPHA && 0 < delivered
    ensures alpha <= NextAlpha(alpha, delivered, delivered) <==>
              Decay(alpha) <= Wrap32(delivered * CE_SCALE) / delivered
    ensures delivered * CE_SCALE < TWO32 ==>
              alpha <= NextAlpha(alpha, delivered, delivered)
                && (alpha < DCTCP_MAX_ALPHA ==> alpha < NextAlpha(alpha, delivered, delivered))
    ensures NextAlpha(DCTCP_MAX_ALPHA, delivered, delivered) == DCTCP_MAX_ALPHA <==> delivered * CE_SCALE < TWO32
  {
    MarkedRatio(delivered);
    var t := Wrap32(delivered * CE_SCALE) / delivered;
    MarkedNext(alpha, delivered, t);
    MarkedNext(DCTCP_MAX_ALPHA, delivered, t);
    DecayBounds(alpha);
    DecayBounds(DCTCP_MAX_ALPHA);
    hide Wrap32, NextAlpha, Decay;
  }

  lemma MarkedRatio(delivered: u32)
    requires delivered > 0
    ensures var t := Wrap32(delivered * CE_SCALE) / delivered;
            0 <= t <= CE_SCALE && (t == CE_SCALE <==> delivered * CE_SCALE < TWO32)
  {
    hide Wrap32;
    var p := delivered * CE_SCALE;
    ScaledRatio(delivered);
    WrapSmall(p);
    if p >= TWO32 {
      WrapLess(p);
      RatioBelow(Wrap32(p), delivered);
    }
  }

  lemma WrapLess(p: nat)
    requires p >= TWO32
    ensures Wrap32(p) < p
  {
  }

  lemma RatioBelow(w: nat, d: nat)
    requires d > 0 && w < d * 64
    ensures 0 <= w / d < 64
  {
    DivBounds(w, d);
    var q := w / d;
    if q >= 64 { MulLeq(64, q, d); }
  }

  lemma DecayBounds(alpha: u32)
    requires alpha <= DCTCP_MAX_ALPHA
    ensures Decay(alpha) <= alpha && Decay(alpha) <= CE_SCALE
            && (Decay(alpha) == CE_SCALE <==> alpha == DCTCP_MAX_ALPHA)
  {
  }

  lemma MarkedNext(alpha: u32, delivered: u32, t: nat)
    requires alpha <= DCTCP_MAX_ALPHA && 0 < delivered && t == Wrap32(delivered * CE_SCALE) / delivered && t <= CE_SCALE
    ensures Decay(alpha) <= alpha
    ensures NextAlpha(alpha, delivered, delivered) == Min(alpha - Decay(alpha) + t, DCTCP_MAX_ALPHA)
  {
    hide Decay, Wrap32;
    DecayBounds(alpha);
    WrapExact(alpha - Decay(alpha));
    WrapExact(alpha - Decay(alpha) + t);
  }

  /** What an unmarked part leaves: fifteen sixteenths, rounded up, and nothing of an estimate below 16. */
  lemma DecayLeaves(alpha: u32)
    requires alpha <= DCTCP_MAX_ALPHA
    ensures var lower := alpha - Decay(alpha);
            if alpha < 16 then lower == 0 else 15 * alpha <= 16 * lower <= 15 * alpha + 15
  {
  }

  lemma RatioAtMost(w: nat, d: nat)
    requires d > 0 && w <= d * 64
    ensures 0 <= w / d <= 64 && w / d * d <= w < w / d * d + d
  {
    DivBounds(w, d);
    var q := w / d;
    assert (q + 1) * d == q * d + d;
    if q >= 65 {
      MulLeq(65, q, d);
      assert false;
    }
  }

  /** Times 16 and the delivered packets, the new estimate is 15 times the old one plus 1024 times the marked
      ones, each at the scale of the other, within 16 times the delivered packets: the moving average with
      weight 1/16, to less than one unit. The scaled count is the marked packets times 64 as long as that fits
      in 32 bits. */
  lemma MarkedMean(alpha: u32, ce: u32, delivered: u32)
    requires alpha <= DCTCP_MAX_ALPHA && 0 < ce <= delivered
    ensures var a, scaled := NextAlpha(alpha, ce, delivered), Wrap32(64 * ce);
            && (if alpha < 16 then scaled - delivered < a * delivered <= scaled
                else -16 * delivered < 16 * (a * delivered) - (15 * (alpha * delivered) + 16 * scaled) < 16 * delivered)
            && (64 * ce < 0x1_0000_0000 ==> scaled == 64 * ce)
  {
    var scaled := Wrap32(64 * ce);
    WrapSmall(64 * ce);
    hide Wrap32;
    RatioAtMost(scaled, delivered);
    var q := scaled / delivered;
    MarkedSum(alpha, ce, delivered, q);
    DecayLeaves(alpha);
    var lower := alpha - Decay(alpha);
    hide Decay, NextAlpha;
    Weigh(lower, q, alpha, delivered, scaled);
  }

  lemma MarkedSum(alpha: u32, ce: u32, delivered: u32, q: nat)
    requires alpha <= DCTCP_MAX_ALPHA && 0 < ce && 0 < delivered && q == Wrap32(64 * ce) / delivered && q <= 64
    ensures Decay(alpha) <= alpha && NextAlpha(alpha, ce, delivered) == alpha - Decay(alpha) + q
  {
    hide Wrap32;
    DecayBounds(alpha);
    assert ce * CE_SCALE == 64 * ce;
    WrapExact(alpha - Decay(alpha));
    WrapExact(alpha - Decay(alpha) + q);
  }

  lemma Weigh(lower: nat, q: nat, alpha: nat, d: nat, scaled: nat)
    requires d > 0 && q * d <= scaled < q * d + d
    requires if alpha < 16 then lower == 0 else 15 * alpha <= 16 * lower <= 15 * alpha + 15
    ensures if alpha < 16 then scaled - d < (lower + q) * d <= scaled
            else -16 * d < 16 * ((lower + q) * d) - (15 * (alpha * d) + 16 * scaled) < 16 * d
  {
    Products(lower, q, alpha, d);
    if alpha >= 16 {
      MulLeq(15 * alpha, 16 * lower, d);
      MulLeq(16 * lower, 15 * alpha + 15, d);
    }
  }

  lemma Products(x: int, y: int, z: int, d: int)
    ensures (x + y) * d == x * d + y * d && 15 * z * d == 15 * (z * d) && 16 * x * d == 16 * (x * d)
    ensures (15 * z + 15) * d == 15 * (z * d) + 15 * d
  {
  }

  /** 2^26 packets, all marked: the shifted count is 0 and a full estimate drops. */
  lemma AllMarkedDrops()
    ensures NextAlpha(DCTCP_MAX_ALPHA, 0x400_0000, 0x400_0000) == 960
  {
  }

  lemma ScaledRatio(d: nat)
    requires d > 0
    ensures d * 64 / d == 64
  {
    ModUnique(d * 64, d, 64, 0);
  }

  // ----- the threshold -----

  lemma HalfOfProduct(cwnd: nat, alpha: nat)
    requires alpha <= 1024
    ensures 0 <= cwnd * alpha / 2048 <= cwnd / 2
  {
    MulLeq(alpha, 1024, cwnd);
    var p := cwnd * alpha;
    assert 0 <= p <= 1024 * cwnd;
  }

  /** Wrapped or not, the reduction is at most half the window. */
  lemma ReductionAtMostHalf(cwnd: u32, alpha: u32)
    requires alpha <= DCTCP_MAX_ALPHA
    ensures 0 <= Wrap32(cwnd * alpha) / 2048 <= cwnd / 2
  {
    HalfOfProduct(cwnd, alpha);
    var p := cwnd * alpha;
    WrapSmall(p);
    assert p <= cwnd * 1024 by { MulLeq(alpha, 1024, cwnd); }
    hide Wrap32;
    assert p >= TWO32 ==> cwnd >= 0x40_0000;
  }

  lemma WrapSmall(p: nat)
    ensures 0 <= Wrap32(p) <= p && Wrap32(p) / 2048 < 0x20_0000 && (p < TWO32 ==> Wrap32(p) == p)
  {
  }

  /** Between half the window and the window, and never below two, for every window. */
  lemma SsthreshBounds(cwnd: u32, alpha: u32)
    requires alpha <= DCTCP_MAX_ALPHA
    ensures Max(2, (cwnd + 1) / 2) <= Ssthresh(cwnd, alpha) <= Max(2, cwnd)
  {
    ReductionAtMostHalf(cwnd, alpha);
    var q := Wrap32(cwnd * alpha) / 2048;
    assert Wrap32(cwnd - q) == cwnd - q by { WrapSmall(cwnd - q); }
    hide Wrap32;
  }

  /** The reduction is the promised fraction of the window exactly when the product fits in 32 bits. */
  lemma SsthreshExactIff(cwnd: u32, alpha: u32)
    requires alpha <= DCTCP_MAX_ALPHA && cwnd >= 4
    ensures Ssthresh(cwnd, alpha) == cwnd - cwnd * alpha / 2048 <==> cwnd * alpha < TWO32
  {
    var p := cwnd * alpha;
    HalfOfProduct(cwnd, alpha);
    ReductionAtMostHalf(cwnd, alpha);
    WrapSmall(p);
    var q := Wrap32(p) / 2048;
    assert Wrap32(cwnd - q) == cwnd - q by { WrapSmall(cwnd - q); }
    if p >= TWO32 { WrapDrops(p); }
    hide Wrap32;
  }

  lemma WrapDrops(p: nat)
    requires p >= TWO32
    ensures Wrap32(p) / 2048 < p / 2048
  {
    assert Wrap32(p) <= p - TWO32;
  }

  /** A window of 2^22 with every packet marked is not reduced at all. */
  lemma WrappedWindowIsNotReduced()
    ensures Ssthresh(0x40_0000, DCTCP_MAX_ALPHA) == 0x40_0000
  {
  }

  // ----- the program -----

  /** The socket's counters an event reads. */
  datatype Sock = Sock(sndUna: u32, sndNxt: u32, delivered: u32, deliveredCe: u32)

  datatype State = State(alpha: u32, nextSeq: u32, oldDelivered: u32, oldDeliveredCe: u32)

  /** State after a successful initialisation. */
  function Initial(sk: Sock): (s: State) { Reset(State(DCTCP_MAX_ALPHA, 0, 0, 0), sk) }

  function Reset(s: State, sk: Sock): (s': State) {
    s.(nextSeq := sk.sndNxt, oldDelivered := sk.delivered, oldDeliveredCe := sk.deliveredCe)
  }

  /** An acknowledgement: once the round trip has expired, the estimate moves and the counters restart. */
  function Acked(s: State, sk: Sock): (s': State) {
    if Before(sk.sndUna, s.nextSeq) then s
    else Reset(s.(alpha := NextAlpha(s.alpha, Wrap32(sk.deliveredCe - s.oldDeliveredCe),
                                     Wrap32(sk.delivered - s.oldDelivered))), sk)
  }

  /** A number comes before those at most 2^31 ahead of it. */
  lemma BeforeIff(a: u32, k: u32)
    ensures Before(a, Wrap32(a + k)) <==> 0 < k <= 0x8000_0000
  {
    if a + k < TWO32 { AheadBy(a, k, a + k); } else { AheadBy(a, k, a + k - TWO32); }
  }

  lemma AheadBy(a: u32, k: u32, b: u32)
    requires b == a + k || b == a + k - TWO32
    ensures b == Wrap32(a + k) && (Wrap32(a - b) >= 0x8000_0000 <==> 0 < k <= 0x8000_0000)
  {
  }

  /** While the acknowledged number is at most 2^31 behind the mark nothing happens; otherwise the estimate moves
      by what was marked and delivered since, also across a wrap of the counters, which restart from here. */
  lemma AckedMeans(s: State, sk: Sock, ahead: u32, ce: u32, delivered: u32)
    requires s.nextSeq == Wrap32(sk.sndUna + ahead) && sk.deliveredCe == Wrap32(s.oldDeliveredCe + ce)
    requires sk.delivered == Wrap32(s.oldDelivered + delivered)
    ensures 0 < ahead <= 0x8000_0000 ==> Acked(s, sk) == s
    ensures !(0 < ahead <= 0x8000_0000) ==>
              Acked(s, sk) == State(NextAlpha(s.alpha, ce, delivered), sk.sndNxt, sk.delivered, sk.deliveredCe)
    ensures Initial(sk) == State(1024, sk.sndNxt, sk.delivered, sk.deliveredCe)
  {
    BeforeIff(sk.sndUna, ahead);
    Since(s.oldDeliveredCe, ce);
    Since(s.oldDelivered, delivered);
    hide Wrap32, NextAlpha, Before;
  }

  lemma Since(was: u32, n: u32)
    ensures Wrap32(Wrap32(was + n) - was) == n
  {
    assert Wrap32(was + n) == was + n || Wrap32(was + n) == was + n - TWO32;
  }

  function After(s: State, sks: seq<Sock>): (s': State)
    decreases |sks|
  {
    if sks == [] then s else After(Acked(s, sks[0]), sks[1..])
  }

  /** Over every event sequence after initialisation the estimate is a fraction of 1024, so the threshold
      stays within its bounds. */
  lemma {:induction false} AlphaStays(s: State, sks: seq<Sock>, cwnd: u32)
    requires s.alpha <= DCTCP_MAX_ALPHA
    ensures After(s, sks).alpha <= DCTCP_MAX_ALPHA
    ensures Max(2, (cwnd + 1) / 2) <= Ssthresh(cwnd, After(s, sks).alpha) <= Max(2, cwnd)
    decreases |sks|
  {
    hide NextAlpha, Ssthresh, Wrap32;
    if sks == [] {
      SsthreshBounds(cwnd, s.alpha);
    } else {
      var sk := sks[0];
      AlphaInRange(s.alpha, Wrap32(sk.deliveredCe - s.oldDeliveredCe), Wrap32(sk.delivered - s.oldDelivered));
      AlphaStays(Acked(s, sk), sks[1..], cwnd);
    }
  }

  /** The per-socket area, updated in place. */
  class DctcpCa {
    var alpha: u32
    var nextSeq: u32
    var oldDelivered: u32
    var oldDeliveredCe: u32
    var lossCwnd: u32

    function View(): (s: State)
      reads this
    {
      State(alpha, nextSeq, oldDelivered, oldDeliveredCe)
    }

    constructor (sk: Sock)
      ensures View() == Initial(sk) && lossCwnd == 0
    {
      alpha, lossCwnd := Min(DCTCP_MAX_ALPHA, DCTCP_MAX_ALPHA), 0;
      nextSeq, oldDelivered, oldDeliveredCe := sk.sndNxt, sk.delivered, sk.deliveredCe;
    }

    method ResetTo(sk: Sock)
      modifies this
      ensures View() == Reset(old(View()), sk) && lossCwnd == old(lossCwnd)
    {
      nextSeq, oldDelivered, oldDeliveredCe := sk.sndNxt, sk.delivered, sk.deliveredCe;
    }

    method UpdateAlpha(sk: Sock)
      modifies this
      ensures View() == Acked(old(View()), sk) && lossCwnd == old(lossCwnd)
    {
      hide Wrap32;
      if !Before(sk.sndUna, nextSeq) {
        var ce := Wrap32(sk.deliveredCe - oldDeliveredCe);
        var a := alpha;
        var y := a / DCTCP_SHIFT_G_DIV;
        var mnz := if a == 0 then y else if y == 0 then a else Min(a, y);
        a := Wrap32(a - mnz);
        if ce != 0 {
          var delivered := Wrap32(sk.delivered - oldDelivered);
          ce := Wrap32(ce * CE_SCALE);
          ce := ce / Max(1, delivered);
          a := Min(Wrap32(a + ce), DCTCP_MAX_ALPHA);
        }
        alpha := a;
        ResetTo(sk);
      }
    }

    method SsthreshFor(cwnd: u32) returns (t: u32)
      modifies this
      ensures View() == old(View()) && lossCwnd == cwnd && t == Ssthresh(cwnd, alpha)
    {
      lossCwnd := cwnd;
      t := Max(Wrap32(cwnd - Wrap32(cwnd * alpha) / 2048), 2);
    }
  }
}
