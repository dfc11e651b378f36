/** Closure of a program over its bpf-to-bpf calls, for instruction counts that follow subprograms. */
module CallGraph {
  import opened Words

  const JMP: nat := 5
  const JMP32: nat := 6
  const JMP_CALL: nat := 8

  /** An instruction slot: opcode byte, source register, immediate. */
  datatype Insn = Insn(op: nat, src: nat, imm: int) {
    predicate LocalCall() { (op % 8 == JMP || op % 8 == JMP32) && op / 16 == JMP_CALL && src == 1 }
  }

  /** A relocation's symbol; no section if it is undefined or out of range. */
  datatype Symbol = Symbol(section: Option<string>, value: nat)

  /** A named function: its section, first slot and number of slots. */
  datatype Span = Span(sec: string, start: nat, len: nat) {
    function Key(): (k: (string, nat)) { (sec, start) }
  }

  type Key = (string, nat)

  datatype Elf = Elf(sections: map<string, seq<Insn>>, spans: seq<Span>, relocs: map<(string, nat), Symbol>)

  /** Functions lie inside their sections. */
  ghost predicate Fits(elf: Elf, f: Span) {
    f.sec in elf.sections ==> f.start + f.len <= |elf.sections[f.sec]|
  }

  ghost predicate AllFit(elf: Elf, entry: Span) {
    Fits(elf, entry) && forall i :: 0 <= i < |elf.spans| ==> Fits(elf, elf.spans[i])
  }

  function CallTarget(elf: Elf, sec: string, pc: nat, x: Insn): (t: Option<(string, int)>) {
    if (sec, pc) !in elf.relocs then Some((sec, pc + 1 + x.imm))
    else
      var sym := elf.relocs[(sec, pc)];
      if sym.section.None? then None else Some((sym.section.value, sym.value / 8 + x.imm + 1))
  }

  /** First named function at that place. */
  function FunctionAt(spans: seq<Span>, sec: string, pc: int): (f: Option<Span>)
    ensures f.Some? ==> f.value in spans && f.value.sec == sec && f.value.start == pc
    ensures f.None? ==> forall i :: 0 <= i < |spans| ==> spans[i].sec != sec || spans[i].start != pc
  {
    if spans == [] then None
    else if spans[0].sec == sec && spans[0].start == pc then Some(spans[0])
    else FunctionAt(spans[1..], sec, pc)
  }

  /** The function an instruction calls, if it is a local call to a known function. */
  function Callee(elf: Elf, sec: string, pc: nat, x: Insn): (f: Option<Span>) {
    if !x.LocalCall() then None
    else
      var t := CallTarget(elf, sec, pc, x);
      if t.None? then None else FunctionAt(elf.spans, t.value.0, t.value.1)
  }

  ghost function Body(elf: Elf, f: Span): (body: seq<Insn>)
    requires Fits(elf, f)
  {
    if f.sec in elf.sections then elf.sections[f.sec][f.start..f.start + f.len] else []
  }

  // ----- the graph -----

  /** The function a key stands for: the entry, or the first function there. */
  ghost function Node(elf: Elf, entry: Span, k: Key): (f: Option<Span>) {
    if k == entry.Key() then Some(entry) else FunctionAt(elf.spans, k.0, k.1)
  }

  ghost predicate Calls(elf: Elf, f: Span, k: Key)
    requires Fits(elf, f)
  {
    exists i :: 0 <= i < |Body(elf, f)| && CalledAt(elf, f, i, k)
  }

  ghost predicate CalledAt(elf: Elf, f: Span, i: nat, k: Key)
    requires Fits(elf, f) && i < |Body(elf, f)|
  {
    var c := Callee(elf, f.sec, f.start + i, Body(elf, f)[i]);
    c.Some? && c.value.Key() == k
  }

  ghost predicate Edge(elf: Elf, entry: Span, k: Key, k': Key)
    requires AllFit(elf, entry)
  {
    var f := Node(elf, entry, k);
    f.Some? && Fits(elf, f.value) && Calls(elf, f.value, k')
  }

  /** A chain of calls from the entry. */
  ghost predicate Chain(elf: Elf, entry: Span, path: seq<Key>)
    requires AllFit(elf, entry)
  {
    && path != [] && path[0] == entry.Key()
    && forall i :: 0 < i < |path| ==> Edge(elf, entry, path[i - 1], path[i])
  }

  ghost predicate Reachable(elf: Elf, entry: Span, k: Key)
    requires AllFit(elf, entry)
  {
    exists path :: Chain(elf, entry, path) && path[|path| - 1] == k
  }

  lemma EntryReachable(elf: Elf, entry: Span)
    requires AllFit(elf, entry)
    ensures Reachable(elf, entry, entry.Key())
  {
    assert Chain(elf, entry, [entry.Key()]);
  }

  lemma ReachableStep(elf: Elf, entry: Span, k: Key, k': Key)
    requires AllFit(elf, entry) && Reachable(elf, entry, k) && Edge(elf, entry, k, k')
    ensures Reachable(elf, entry, k')
  {
    var path :| Chain(elf, entry, path) && path[|path| - 1] == k;
    assert Chain(elf, entry, path + [k']);
  }

  /** A set that holds the entry and is closed under calls holds every reachable key. */
  lemma {:induction false} ClosedHoldsAll(elf: Elf, entry: Span, seen: set<Key>, path: seq<Key>)
    requires AllFit(elf, entry) && Chain(elf, entry, path) && entry.Key() in seen
    requires forall k, k' :: k in seen && Edge(elf, entry, k, k') ==> k' in seen
    ensures path[|path| - 1] in seen
  {
    hide Edge;
    if |path| > 1 {
      ClosedHoldsAll(elf, entry, seen, path[..|path| - 1]);
    }
  }

  /** Slot i of a function is a call whose target, relative to the next slot or to a symbol counted in eight-byte
      slots, is the start of a known function. */
  ghost predicate JumpsTo(elf: Elf, f: Span, i: int, k: Key)
    requires f.sec in elf.sections && f.start + f.len <= |elf.sections[f.sec]|
  {
    && 0 <= i < f.len && Known(elf, k)
    && var x := elf.sections[f.sec][f.start + i];
       && x.op in {0x85, 0x86, 0x8D, 0x8E} && x.src == 1
       && var site := (f.sec, f.start + i);
          if site in elf.relocs then
            var slot := k.1 - x.imm - 1;
            elf.relocs[site].section == Some(k.0) && 8 * slot <= elf.relocs[site].value < 8 * slot + 8
          else k == (f.sec, f.start + i + 1 + x.imm)
  }

  ghost predicate Known(elf: Elf, k: Key) {
    exists j :: 0 <= j < |elf.spans| && elf.spans[j].sec == k.0 && elf.spans[j].start == k.1
  }

  /** What a function calls, in opcodes and slots. */
  lemma CallsIff(elf: Elf, f: Span, k: Key)
    requires Fits(elf, f)
    ensures Calls(elf, f, k) <==> f.sec in elf.sections && exists i :: JumpsTo(elf, f, i, k)
  {
    if f.sec in elf.sections {
      assert |Body(elf, f)| == f.len;
      forall i | 0 <= i < f.len
        ensures CalledAt(elf, f, i, k) <==> JumpsTo(elf, f, i, k)
      {
        SlotCalls(elf, f, i, k);
      }
      hide JumpsTo, CalledAt, Body;
      if i :| JumpsTo(elf, f, i, k) { JumpsInside(elf, f, i, k); }
    }
  }

  lemma JumpsInside(elf: Elf, f: Span, i: int, k: Key)
    requires f.sec in elf.sections && f.start + f.len <= |elf.sections[f.sec]| && JumpsTo(elf, f, i, k)
    ensures 0 <= i < f.len
  {
  }

  lemma SlotCalls(elf: Elf, f: Span, i: nat, k: Key)
    requires Fits(elf, f) && f.sec in elf.sections && i < f.len
    ensures CalledAt(elf, f, i, k) <==> JumpsTo(elf, f, i, k)
  {
    var pc := f.start + i;
    var x := elf.sections[f.sec][pc];
    assert Body(elf, f)[i] == x;
    CallOpcode(x);
    var t := CallTarget(elf, f.sec, pc, x);
    if t.Some? {
      var c := FunctionAt(elf.spans, t.value.0, t.value.1);
      hide FunctionAt;
      if c.Some? {
        var j :| 0 <= j < |elf.spans| && elf.spans[j] == c.value;
        assert elf.spans[j].sec == t.value.0;
      }
    }
  }

  lemma CallOpcode(x: Insn)
    ensures x.LocalCall() <==> x.op in {0x85, 0x86, 0x8D, 0x8E} && x.src == 1
  {
  }

  // ----- the worklist -----

  /** What the first i instructions of a function push. */
  ghost function Pushed(elf: Elf, f: Span, i: nat): (fs: seq<Span>)
    requires Fits(elf, f) && i <= |Body(elf, f)|
  {
    if i == 0 then []
    else
      var c := Callee(elf, f.sec, f.start + i - 1, Body(elf, f)[i - 1]);
      Pushed(elf, f, i - 1) + (if c.Some? then [c.value] else [])
  }

  lemma {:induction false} PushedIsCalled(elf: Elf, f: Span, i: nat, c: Span)
    requires Fits(elf, f) && i <= |Body(elf, f)| && c in Pushed(elf, f, i)
    ensures FunctionAt(elf.spans, c.sec, c.start) == Some(c) && Calls(elf, f, c.Key())
  {
    hide Body, FunctionAt, CallTarget;
    if c !in Pushed(elf, f, i - 1) {
      assert Callee(elf, f.sec, f.start + (i - 1), Body(elf, f)[i - 1]) == Some(c);
      CalleeIsFirst(elf, f.sec, f.start + (i - 1), Body(elf, f)[i - 1]);
      assert CalledAt(elf, f, i - 1, c.Key());
    } else {
      PushedIsCalled(elf, f, i - 1, c);
    }
  }

  lemma CalleeIsFirst(elf: Elf, sec: string, pc: nat, x: Insn)
    requires Callee(elf, sec, pc, x).Some?
    ensures var c := Callee(elf, sec, pc, x).value; FunctionAt(elf.spans, c.sec, c.start) == Some(c)
  {
  }

  lemma {:induction false} CalledIsPushed(elf: Elf, f: Span, i: nat, p: nat)
    requires Fits(elf, f) && p < i <= |Body(elf, f)| && Callee(elf, f.sec, f.start + p, Body(elf, f)[p]).Some?
    ensures Callee(elf, f.sec, f.start + p, Body(elf, f)[p]).value in Pushed(elf, f, i)
  {
    hide Body, Callee;
    if p < i - 1 { CalledIsPushed(elf, f, i - 1, p); }
  }

  /** All calls of a function are pushed. */
  lemma CallsPushed(elf: Elf, f: Span, k: Key)
    requires Fits(elf, f) && Calls(elf, f, k)
    ensures exists c :: c in Pushed(elf, f, |Body(elf, f)|) && c.Key() == k
  {
    hide Body, Callee;
    var p :| 0 <= p < |Body(elf, f)| && CalledAt(elf, f, p, k);
    CalledIsPushed(elf, f, |Body(elf, f)|, p);
  }

  ghost function TotalOf(elf: Elf, fs: seq<Span>): (body: seq<Insn>)
    requires forall i :: 0 <= i < |fs| ==> Fits(elf, fs[i])
  {
    if fs == [] then [] else TotalOf(elf, fs[..|fs| - 1]) + Body(elf, fs[|fs| - 1])
  }

  ghost function SizeOf(fs: seq<Span>): (n: nat) {
    if fs == [] then 0 else SizeOf(fs[..|fs| - 1]) + fs[|fs| - 1].len
  }

  // ----- what the loop keeps -----

  ghost function AllKeys(elf: Elf, entry: Span): (ks: set<Key>) {
    {entry.Key()} + set i | 0 <= i < |elf.spans| :: elf.spans[i].Key()
  }

  /** A waiting function is reachable and, unless it was visited, the one its key stands for. */
  ghost predicate Waiting(elf: Elf, entry: Span, seen: set<Key>, f: Span)
    requires AllFit(elf, entry)
  {
    && Reachable(elf, entry, f.Key()) && Fits(elf, f) && f.Key() in AllKeys(elf, entry)
    && (f.Key() !in seen ==> Node(elf, entry, f.Key()) == Some(f))
  }

  /** Calls of visited keys are visited or waiting. */
  ghost predicate Covered(elf: Elf, entry: Span, seen: set<Key>, todo: seq<Span>)
    requires AllFit(elf, entry)
  {
    forall k, k' :: k in seen && Edge(elf, entry, k, k') ==> k' in seen || Waits(todo, k')
  }

  ghost predicate Waits(todo: seq<Span>, k: Key) {
    exists i :: 0 <= i < |todo| && todo[i].Key() == k
  }

  /** Listed are, once each, the visited keys whose section exists, each as the function it stands for. */
  ghost predicate Listed(elf: Elf, entry: Span, seen: set<Key>, funcs: seq<Span>) {
    && (forall i :: 0 <= i < |funcs| ==> funcs[i].Key() in seen && funcs[i].sec in elf.sections
                                          && Node(elf, entry, funcs[i].Key()) == Some(funcs[i]) && Fits(elf, funcs[i]))
    && (forall i, j :: 0 <= i < j < |funcs| ==> funcs[i].Key() != funcs[j].Key())
    && (forall k :: k in seen && k.0 in elf.sections ==> Waits(funcs, k))
  }

  /** Everything the loop keeps about visited and waiting keys. */
  ghost predicate Progress(elf: Elf, entry: Span, seen: set<Key>, todo: seq<Span>)
    requires AllFit(elf, entry)
  {
    && (forall i :: 0 <= i < |todo| ==> Waiting(elf, entry, seen, todo[i]))
    && Covered(elf, entry, seen, todo)
    && seen <= AllKeys(elf, entry) && (forall k :: k in seen ==> Reachable(elf, entry, k))
    && (if seen == {} then todo == [entry] else entry.Key() in seen)
  }

  lemma Starts(elf: Elf, entry: Span)
    requires AllFit(elf, entry)
    ensures Progress(elf, entry, {}, [entry]) && Listed(elf, entry, {}, [])
  {
    hide Reachable, Edge;
    EntryReachable(elf, entry);
    assert [entry][0].Key() == entry.Key();
  }

  /** Dropping a waiting function whose key was visited. */
  lemma Skipped(elf: Elf, entry: Span, seen: set<Key>, todo: seq<Span>)
    requires AllFit(elf, entry) && todo != [] && Progress(elf, entry, seen, todo) && todo[|todo| - 1].Key() in seen
    ensures Progress(elf, entry, seen, todo[..|todo| - 1])
  {
    hide Reachable, Edge, AllKeys, Node;
    var rest := todo[..|todo| - 1];
    forall k | Waits(todo, k) && k !in seen
      ensures Waits(rest, k)
    {
      var i :| 0 <= i < |todo| && todo[i].Key() == k;
      assert rest[i].Key() == k;
    }
  }

  /** Visiting the last waiting function: its calls take its place. */
  lemma Visited(elf: Elf, entry: Span, seen: set<Key>, todo: seq<Span>)
    requires AllFit(elf, entry) && todo != [] && Progress(elf, entry, seen, todo) && todo[|todo| - 1].Key() !in seen
    ensures var f := todo[|todo| - 1];
            Fits(elf, f) && Progress(elf, entry, seen + {f.Key()}, todo[..|todo| - 1] + Pushed(elf, f, |Body(elf, f)|))
  {
    LastWaits(elf, entry, seen, todo);
    var f := todo[|todo| - 1];
    var todo' := todo[..|todo| - 1] + Pushed(elf, f, |Body(elf, f)|);
    VisitedWaiting(elf, entry, seen, todo);
    VisitedCovered(elf, entry, seen, todo);
    hide Waiting, Covered, Pushed, Body, Reachable, AllKeys;
    assert seen == {} ==> todo == [entry];
  }

  lemma LastWaits(elf: Elf, entry: Span, seen: set<Key>, todo: seq<Span>)
    requires AllFit(elf, entry) && todo != [] && Progress(elf, entry, seen, todo)
    ensures var f := todo[|todo| - 1];
            && Fits(elf, f) && f.Key() in AllKeys(elf, entry) && Reachable(elf, entry, f.Key())
            && (f.Key() !in seen ==> Node(elf, entry, f.Key()) == Some(f))
  {
    hide Reachable, AllKeys, Node, Fits;
    assert Waiting(elf, entry, seen, todo[|todo| - 1]);
  }

  lemma VisitedWaiting(elf: Elf, entry: Span, seen: set<Key>, todo: seq<Span>)
    requires AllFit(elf, entry) && todo != [] && Progress(elf, entry, seen, todo) && todo[|todo| - 1].Key() !in seen
    requires Fits(elf, todo[|todo| - 1])
    ensures var f := todo[|todo| - 1];
            var todo' := todo[..|todo| - 1] + Pushed(elf, f, |Body(elf, f)|);
            forall i :: 0 <= i < |todo'| ==> Waiting(elf, entry, seen + {f.Key()}, todo'[i])
  {
    LastWaits(elf, entry, seen, todo);
    hide Reachable, AllKeys, Node, Body, Pushed, Fits, Covered;
    var f := todo[|todo| - 1];
    var seen', todo' := seen + {f.Key()}, todo[..|todo| - 1] + Pushed(elf, f, |Body(elf, f)|);
    forall i | 0 <= i < |todo'|
      ensures Waiting(elf, entry, seen', todo'[i])
    {
      if i < |todo| - 1 {
        assert Waiting(elf, entry, seen, todo[i]);
      } else {
        PushedWaits(elf, entry, seen', f, todo'[i]);
      }
    }
  }

  lemma VisitedCovered(elf: Elf, entry: Span, seen: set<Key>, todo: seq<Span>)
    requires AllFit(elf, entry) && todo != [] && Progress(elf, entry, seen, todo) && todo[|todo| - 1].Key() !in seen
    requires Fits(elf, todo[|todo| - 1])
    ensures var f := todo[|todo| - 1];
            Covered(elf, entry, seen + {f.Key()}, todo[..|todo| - 1] + Pushed(elf, f, |Body(elf, f)|))
  {
    LastWaits(elf, entry, seen, todo);
    var f := todo[|todo| - 1];
    var new_ := Pushed(elf, f, |Body(elf, f)|);
    var seen', todo' := seen + {f.Key()}, todo[..|todo| - 1] + new_;
    forall k, k' | k in seen' && Edge(elf, entry, k, k')
      ensures k' in seen' || Waits(todo', k')
    {
      hide Reachable, AllKeys, Body, Pushed, Fits, Calls, Waiting, AllFit;
      if k == f.Key() {
        assert Calls(elf, f, k');
        NewWaits(elf, f, todo[..|todo| - 1], k');
      } else if k' !in seen' {
        hide Edge, Node;
        Kept(todo, new_, k');
      }
    }
  }

  lemma NewWaits(elf: Elf, f: Span, base: seq<Span>, k: Key)
    requires Fits(elf, f) && Calls(elf, f, k)
    ensures Waits(base + Pushed(elf, f, |Body(elf, f)|), k)
  {
    hide Body, Pushed, Fits, Calls;
    var new_ := Pushed(elf, f, |Body(elf, f)|);
    CallsPushed(elf, f, k);
    var c :| c in new_ && c.Key() == k;
    var j :| 0 <= j < |new_| && new_[j] == c;
    assert (base + new_)[|base| + j].Key() == k;
  }

  lemma Kept(todo: seq<Span>, new_: seq<Span>, k: Key)
    requires todo != [] && Waits(todo, k) && todo[|todo| - 1].Key() != k
    ensures Waits(todo[..|todo| - 1] + new_, k)
  {
    var i :| 0 <= i < |todo| && todo[i].Key() == k;
    assert (todo[..|todo| - 1] + new_)[i] == todo[i];
  }

  lemma PushedWaits(elf: Elf, entry: Span, seen: set<Key>, f: Span, c: Span)
    requires AllFit(elf, entry) && Fits(elf, f) && Reachable(elf, entry, f.Key())
    requires Node(elf, entry, f.Key()) == Some(f) && c in Pushed(elf, f, |Body(elf, f)|)
    requires entry.Key() in seen
    ensures Waiting(elf, entry, seen, c)
  {
    PushedIsCalled(elf, f, |Body(elf, f)|, c);
    ReachableStep(elf, entry, f.Key(), c.Key());
    var i :| 0 <= i < |elf.spans| && elf.spans[i] == c;
    assert c.Key() in AllKeys(elf, entry);
  }

  lemma Shrinks(all: set<Key>, seen: set<Key>, k: Key)
    requires k in all && k !in seen
    ensures |all - (seen + {k})| < |all - seen|
  {
    assert all - (seen + {k}) == (all - seen) - {k};
  }

  lemma ListedMore(elf: Elf, entry: Span, seen: set<Key>, funcs: seq<Span>, f: Span)
    requires Listed(elf, entry, seen, funcs) && f.Key() !in seen && Fits(elf, f) && Node(elf, entry, f.Key()) == Some(f)
    ensures Listed(elf, entry, seen + {f.Key()}, if f.sec in elf.sections then funcs + [f] else funcs)
  {
    hide Node, Fits;
    var funcs' := funcs + [f];
    if f.sec in elf.sections {
      assert funcs'[|funcs|] == f;
      forall k | k in seen + {f.Key()} && k.0 in elf.sections
        ensures Waits(funcs', k)
      {
        if k != f.Key() {
          var i :| 0 <= i < |funcs| && funcs[i].Key() == k;
          assert funcs'[i].Key() == k;
        }
      }
    }
  }

  lemma ListedMeans(elf: Elf, entry: Span, seen: set<Key>, funcs: seq<Span>)
    requires Listed(elf, entry, seen, funcs)
    ensures forall i, j :: 0 <= i < j < |funcs| ==> funcs[i].Key() != funcs[j].Key()
    ensures forall i :: 0 <= i < |funcs| ==> Fits(elf, funcs[i]) && Node(elf, entry, funcs[i].Key()) == Some(funcs[i])
  {
  }

  lemma Appended(elf: Elf, funcs: seq<Span>, f: Span)
    requires Fits(elf, f) && f.sec in elf.sections && forall i :: 0 <= i < |funcs| ==> Fits(elf, funcs[i])
    ensures TotalOf(elf, funcs + [f]) == TotalOf(elf, funcs) + Body(elf, f)
    ensures SizeOf(funcs + [f]) == SizeOf(funcs) + |Body(elf, f)|
  {
    assert (funcs + [f])[..|funcs|] == funcs;
  }

  lemma Finished(elf: Elf, entry: Span, seen: set<Key>, funcs: seq<Span>, k: Key)
    requires AllFit(elf, entry) && Progress(elf, entry, seen, []) && Listed(elf, entry, seen, funcs)
    ensures Waits(funcs, k) <==> Reachable(elf, entry, k) && k.0 in elf.sections
  {
    hide Edge, AllKeys, Node;
    if Reachable(elf, entry, k) {
      var path :| Chain(elf, entry, path) && path[|path| - 1] == k;
      assert forall k :: !Waits([], k);
      ClosedHoldsAll(elf, entry, seen, path);
    }
  }

  /** The functions reachable from the entry, each once, and the instructions of all of them. The depth
      parameter only switches the search off when negative. */
  method WholeProgram(elf: Elf, entry: Span, depth: int) returns (total: seq<Insn>, funcs: seq<Span>)
    requires AllFit(elf, entry)
    ensures depth < 0 ==> total == [] && funcs == []
    ensures depth >= 0 ==> forall k :: Waits(funcs, k) <==> Reachable(elf, entry, k) && k.0 in elf.sections
    ensures forall i, j :: 0 <= i < j < |funcs| ==> funcs[i].Key() != funcs[j].Key()
    ensures forall i :: 0 <= i < |funcs| ==> Fits(elf, funcs[i]) && Node(elf, entry, funcs[i].Key()) == Some(funcs[i])
    ensures total == TotalOf(elf, funcs) && |total| == SizeOf(funcs)
  {
    hide Reachable, Node, AllKeys, Callee, AllFit, FunctionAt, Progress, Listed, Waits, TotalOf, SizeOf, Pushed, Fits;
    var seen: set<Key> := {};
    var todo := [entry];
    total, funcs := [], [];
    Starts(elf, entry);
    NothingYet(elf);
    while todo != [] && depth >= 0
      invariant Progress(elf, entry, seen, todo) && Listed(elf, entry, seen, funcs)
      invariant forall i :: 0 <= i < |funcs| ==> Fits(elf, funcs[i])
      invariant total == TotalOf(elf, funcs) && |total| == SizeOf(funcs)
      invariant depth < 0 ==> funcs == [] && total == []
      decreases |AllKeys(elf, entry) - seen|, |todo|
    {
      var f := todo[|todo| - 1];
      LastWaits(elf, entry, seen, todo);
      ghost var waiting := todo;
      todo := todo[..|todo| - 1];
      if f.Key() in seen {
        Skipped(elf, entry, seen, waiting);
        continue;
      }
      Visited(elf, entry, seen, waiting);
      Shrinks(AllKeys(elf, entry), seen, f.Key());
      ListedMore(elf, entry, seen, funcs, f);
      seen := seen + {f.Key()};
      NothingPushed(elf, f);
      if f.sec !in elf.sections {
        assert todo + [] == todo;
        continue;
      }
      BodyInside(elf, f);
      var body := elf.sections[f.sec][f.start..f.start + f.len];
      Appended(elf, funcs, f);
      total := total + body;
      funcs := funcs + [f];
      ghost var base := todo;
      assert base + [] == base;
      for i := 0 to |body|
        invariant todo == base + Pushed(elf, f, i)
      {
        PushedNext(elf, f, i);
        var c := Callee(elf, f.sec, f.start + i, body[i]);
        if c.Some? { todo := todo + [c.value]; }
      }
    }
    ListedMeans(elf, entry, seen, funcs);
    if depth >= 0 {
      forall k
        ensures Waits(funcs, k) <==> Reachable(elf, entry, k) && k.0 in elf.sections
      {
        Finished(elf, entry, seen, funcs, k);
      }
    }
  }

  lemma NothingYet(elf: Elf)
    ensures TotalOf(elf, []) == [] && SizeOf([]) == 0
  {
  }

  lemma NothingPushed(elf: Elf, f: Span)
    requires Fits(elf, f)
    ensures Pushed(elf, f, 0) == []
  {
  }

  lemma BodyInside(elf: Elf, f: Span)
    requires Fits(elf, f) && f.sec in elf.sections
    ensures f.start + f.len <= |elf.sections[f.sec]|
  {
  }

  lemma PushedNext(elf: Elf, f: Span, i: nat)
    requires Fits(elf, f) && i < |Body(elf, f)|
    ensures var c := Callee(elf, f.sec, f.start + i, Body(elf, f)[i]);
            Pushed(elf, f, i + 1) == Pushed(elf, f, i) + (if c.Some? then [c.value] else [])
  {
    hide Callee, Body;
  }
}
