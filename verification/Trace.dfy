/** The observable call trace: events are laid out in a byte array behind a running cursor, and
    comparing two such arrays is the same as comparing the event lists. */
module Trace {
  import opened Words
  import opened Terms
  import opened Machine
  import opened SymbolicStep
  import opened Simulation

  // ----- byte layout -----

  /** Id, length in two bytes, payload. */
  function Encode(e: Event): (bs: seq<u8>)
    ensures |bs| == 3 + |e.payload|
  {
    [e.hid % 256, |e.payload| % 256, (|e.payload| / 256) % 256] + e.payload
  }

  function EncodeAll(es: seq<Event>): (bs: seq<u8>) {
    if es == [] then [] else EncodeAll(es[..|es| - 1]) + Encode(es[|es| - 1])
  }

  /** What the layout can express: an id byte and a 16-bit length. */
  predicate Sized(es: seq<Event>) {
    forall e :: e in es ==> e.hid < 256 && |e.payload| < 0x1_0000
  }

  /** A byte string laid over initial contents. */
  function Overlay(bs: seq<u8>, init: nat -> u8, a: nat): (b: u8) {
    if a < |bs| then bs[a] else init(a)
  }

  lemma {:induction false} EncodeAllFront(es: seq<Event>)
    requires es != []
    ensures EncodeAll(es) == Encode(es[0]) + EncodeAll(es[1..])
  {
    hide Encode, EncodeAll;
    var n := |es| - 1;
    EncodeAllStep(es);
    if n == 0 {
      assert es[..0] == [] && es[1..] == [];
      EncodeAllStep([]);
    } else {
      EncodeAllFront(es[..n]);
      EncodeAllStep(es[1..]);
      assert es[..n][1..] == es[1..][..n - 1];
      assert es[1..][n - 1] == es[n];
    }
  }

  lemma EncodeAllStep(es: seq<Event>)
    ensures EncodeAll(es) == if es == [] then [] else EncodeAll(es[..|es| - 1]) + Encode(es[|es| - 1])
  {
  }

  lemma SameFirst(x: Event, y: Event, xs: seq<u8>, ys: seq<u8>)
    requires x.hid < 256 && y.hid < 256 && |x.payload| < 0x1_0000 && |y.payload| < 0x1_0000
    requires Encode(x) + xs == Encode(y) + ys
    ensures x == y && xs == ys
  {
    var l, r := Encode(x) + xs, Encode(y) + ys;
    assert l[0] == x.hid && r[0] == y.hid;
    assert l[1] == |x.payload| % 256 && r[1] == |y.payload| % 256;
    assert l[2] == (|x.payload| / 256) % 256 && r[2] == (|y.payload| / 256) % 256;
    assert |x.payload| == |y.payload|;
    assert x.payload == l[3..3 + |x.payload|] == r[3..3 + |y.payload|] == y.payload;
    assert xs == l[3 + |x.payload|..] && ys == r[3 + |y.payload|..];
  }

  /** Different event lists have different layouts, and neither is confused with a prefix. */
  lemma {:induction false} EncodeInjective(xs: seq<Event>, ys: seq<Event>)
    requires Sized(xs) && Sized(ys) && EncodeAll(xs) == EncodeAll(ys)
    ensures xs == ys
  {
    hide Encode;
    if xs != [] && ys != [] {
      EncodeAllFront(xs);
      EncodeAllFront(ys);
      SameFirst(xs[0], ys[0], EncodeAll(xs[1..]), EncodeAll(ys[1..]));
      EncodeInjective(xs[1..], ys[1..]);
      assert xs == [xs[0]] + xs[1..] && ys == [ys[0]] + ys[1..];
    }
  }

  lemma OverlayDiffers(xs: seq<u8>, ys: seq<u8>)
    requires |xs| < |ys|
    ensures exists init: nat -> u8, a: nat :: Overlay(xs, init, a) != Overlay(ys, init, a)
  {
    var a := |xs|;
    var other: u8 := if ys[a] == 0 then 1 else 0;
    var init := (k: nat) => other;
    assert Overlay(xs, init, a) != Overlay(ys, init, a);
  }

  /** The arrays agree everywhere, whatever they held before. */
  ghost predicate SameArrays(bs: seq<u8>, cs: seq<u8>) {
    forall init: nat -> u8, a: nat :: Overlay(bs, init, a) == Overlay(cs, init, a)
  }

  /** Two traces are equal whatever the array held before if and only if the event lists are equal. */
  lemma TraceComparisonExact(xs: seq<Event>, ys: seq<Event>)
    requires Sized(xs) && Sized(ys)
    ensures SameArrays(EncodeAll(xs), EncodeAll(ys)) <==> xs == ys
  {
    var bs, cs := EncodeAll(xs), EncodeAll(ys);
    if SameArrays(bs, cs) {
      if |bs| < |cs| { OverlayDiffers(bs, cs); }
      if |cs| < |bs| { OverlayDiffers(cs, bs); }
      var zero := (k: nat) => 0;
      forall a | 0 <= a < |bs|
        ensures bs[a] == cs[a]
      {
        assert Overlay(bs, zero, a) == Overlay(cs, zero, a);
      }
      EncodeInjective(xs, ys);
    }
  }

  // ----- the array the executor builds -----

  /** The trace is not a region: no pointer leads to it. */
  datatype TraceArr =
    | TraceInit
    | TraceStore(prev: TraceArr, at: nat, val: Term)
    | TraceIf(c: Cond, yes: TraceArr, no: TraceArr)

  ghost function TraceAt(t: TraceArr, env: Env, init: nat -> u8, a: nat): (b: u8) {
    match t
    case TraceInit => init(a)
    case TraceStore(prev, at, val) => if at == a then Eval(val, env) % 256 else TraceAt(prev, env, init, a)
    case TraceIf(c, yes, no) => if Holds(c, env) then TraceAt(yes, env, init, a) else TraceAt(no, env, init, a)
  }

  function EventTerms(e: SEvent): (ts: seq<Term>) {
    var n := |e.payload|;
    [Const(e.hid % 256), Const(n % 256), Const((n / 256) % 256)] + e.payload
  }

  function StoreAll(t: TraceArr, cursor: nat, ts: seq<Term>): (r: TraceArr) {
    if ts == [] then t else TraceStore(StoreAll(t, cursor, ts[..|ts| - 1]), cursor + |ts| - 1, ts[|ts| - 1])
  }

  /** Appends one event at the cursor. */
  method EmitEvent(t: TraceArr, cursor: nat, e: SEvent) returns (r: TraceArr, next: nat)
    ensures r == StoreAll(t, cursor, EventTerms(e)) && next == cursor + |EventTerms(e)|
  {
    var ev := EventTerms(e);
    r := t;
    var k := 0;
    while k < |ev|
      invariant 0 <= k <= |ev|
      invariant r == StoreAll(t, cursor, ev[..k])
    {
      assert ev[..k + 1][..k] == ev[..k];
      r := TraceStore(r, cursor + k, ev[k]);
      k := k + 1;
    }
    assert ev[..|ev|] == ev;
    next := cursor + |ev|;
  }

  function Cursor(log: seq<SEvent>): (n: nat) {
    if log == [] then 0 else Cursor(log[..|log| - 1]) + |EventTerms(log[|log| - 1])|
  }

  /** The array after a whole log. */
  function TraceOf(log: seq<SEvent>): (t: TraceArr) {
    if log == [] then TraceInit
    else
      var n := |log| - 1;
      StoreAll(TraceOf(log[..n]), Cursor(log[..n]), EventTerms(log[n]))
  }

  /** A log's events with every payload byte evaluated, loop records included. */
  ghost function Recorded(log: seq<SEvent>, env: Env): (es: seq<Event>)
    ensures |es| == |log|
    ensures forall i :: 0 <= i < |log| ==> es[i] == Event(log[i].hid, EvalBytes(log[i].payload, env))
  {
    seq(|log|, i requires 0 <= i < |log| => Event(log[i].hid, EvalBytes(log[i].payload, env)))
  }

  lemma {:induction false} StoreAllAt(t: TraceArr, cursor: nat, ts: seq<Term>, env: Env, init: nat -> u8, a: nat)
    ensures TraceAt(StoreAll(t, cursor, ts), env, init, a)
            == if cursor <= a < cursor + |ts| then Eval(ts[a - cursor], env) % 256 else TraceAt(t, env, init, a)
  {
    hide Eval, Holds;
    if ts != [] {
      StoreAllAt(t, cursor, ts[..|ts| - 1], env, init, a);
    }
  }

  lemma EventTermsValue(e: SEvent, env: Env)
    ensures EvalBytes(EventTerms(e), env) == Encode(Event(e.hid, EvalBytes(e.payload, env)))
  {
    var n := |e.payload|;
    var head: seq<u8> := [e.hid % 256, n % 256, (n / 256) % 256];
    assert EventTerms(e) == ConstBytes(head) + e.payload;
    hide Eval, EventTerms;
    EvalBytesConcat(ConstBytes(head), e.payload, env);
    EvalConstBytes(head, env);
  }

  /** The array the executor builds is the encoded log over the initial contents. */
  lemma {:induction false} TraceIsEncoding(log: seq<SEvent>, env: Env, init: nat -> u8, a: nat)
    ensures Cursor(log) == |EncodeAll(Recorded(log, env))|
    ensures TraceAt(TraceOf(log), env, init, a) == Overlay(EncodeAll(Recorded(log, env)), init, a)
  {
    hide Eval, EventTerms, Encode;
    if log != [] {
      var n := |log| - 1;
      TraceIsEncoding(log[..n], env, init, a);
      EventTermsValue(log[n], env);
      assert Recorded(log, env)[..n] == Recorded(log[..n], env);
      StoreAllAt(TraceOf(log[..n]), Cursor(log[..n]), EventTerms(log[n]), env, init, a);
    }
  }

  /** Loop records at the same place carry the same bytes. */
  ghost predicate SameLoopRecords(log: seq<SEvent>, log': seq<SEvent>, e: Env, e': Env) {
    forall i :: 0 <= i < |log| && i < |log'| && log[i].hid == H_LOOP && log'[i].hid == H_LOOP ==>
      EvalBytes(log[i].payload, e) == EvalBytes(log'[i].payload, e')
  }

  /** Records are equal exactly when the events they stand for are and the loop records agree. */
  lemma RecordedIff(log: seq<SEvent>, events: seq<Event>, e: Env, log': seq<SEvent>, events': seq<Event>, e': Env)
    requires LogRel(log, events, e) && LogRel(log', events', e')
    ensures Recorded(log, e) == Recorded(log', e') <==> events == events' && SameLoopRecords(log, log', e, e')
  {
    hide EvalBytes;
    var rs, rs' := Recorded(log, e), Recorded(log', e');
    if rs == rs' {
      assert |log| == |rs| == |rs'| == |log'|;
      forall i | 0 <= i < |log|
        ensures events[i] == events'[i] && log[i].hid == log'[i].hid
        ensures EvalBytes(log[i].payload, e) == EvalBytes(log'[i].payload, e')
      {
        assert rs[i] == rs'[i];
        assert EventRel(log[i], events[i], e) && EventRel(log'[i], events'[i], e');
      }
    }
    if events == events' && SameLoopRecords(log, log', e, e') {
      forall i | 0 <= i < |log|
        ensures rs[i] == rs'[i]
      {
        assert EventRel(log[i], events[i], e) && EventRel(log'[i], events'[i], e');
      }
    }
  }
}
