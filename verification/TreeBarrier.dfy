/** The fork/join barrier of a static parallel loop, over any tree of participants. A
    participant waits for its slot to be set, sets the slots of its children, runs its block,
    waits for the children's slots to be cleared and clears its own. The root, which owns the
    loop's state on its stack, starts by itself and returns at the end.
 */
module TreeBarrier {
  import opened Sequences

  /** `signals[i]` and `waits[i]` are the children of participant `i`, in the order in
      which it signals them and in that in which it waits for them. */
  datatype Tree = Tree(root: nat, signals: seq<seq<nat>>, waits: seq<seq<nat>>)

  datatype Pc =
    | Idle                 // spinning on its own slot
    | Signalling(k: nat)   // the first k children have been signalled
    | Collecting(k: nat)   // the block has been run; the first k children have completed
    | Done

  // `sent` and `ran` record which slots were set and who ran its block.
  datatype State = State(pc: seq<Pc>, slot: seq<bool>, sent: multiset<nat>, ran: multiset<nat>)

  datatype Label = Notice(i: nat) | Signal(i: nat) | Execute(i: nat) | Collect(i: nat) | Leave(i: nat)

  /** The children lists form a tree: everybody but the root has one parent, which lists it
      once to signal and once to wait for, and parents are nearer to the root. */
  ghost predicate TreeOk(t: Tree, parent: seq<nat>, depth: seq<nat>) {
    && |t.signals| == |t.waits| == |parent| == |depth| && t.root < |parent|
    && (forall q: nat :: q < |parent| ==> Distinct(t.signals[q]) && Distinct(t.waits[q]))
    && (forall q: nat, c: nat :: q < |parent| ==> (c in t.signals[q] <==> IsKid(t, parent, q, c)))
    && (forall q: nat, c: nat :: q < |parent| ==> (c in t.waits[q] <==> IsKid(t, parent, q, c)))
    && (forall c: nat :: c < |parent| && c != t.root ==> parent[c] < |parent| && depth[parent[c]] < depth[c])
  }

  ghost predicate IsKid(t: Tree, parent: seq<nat>, q: nat, c: nat) {
    c < |parent| && c != t.root && parent[c] == q
  }

  function InitState(t: Tree): State {
    State(seq(|t.signals|, i => if i == t.root then Signalling(0) else Idle), seq(|t.signals|, _ => false),
          multiset{}, multiset{})
  }

  // Indices are in range.
  ghost predicate Shape(t: Tree, s: State) {
    && |s.pc| == |s.slot| == |t.signals| == |t.waits|
    && (forall q: nat, k: nat :: q < |t.signals| && k < |t.signals[q]| ==> t.signals[q][k] < |s.slot|)
    && (forall q: nat, k: nat :: q < |t.waits| && k < |t.waits[q]| ==> t.waits[q][k] < |s.slot|)
  }

  ghost predicate Enabled(t: Tree, s: State, l: Label) {
    && Shape(t, s) && l.i < |s.pc|
    && var pc := s.pc[l.i];
       match l
       case Notice(i) => pc.Idle? && s.slot[i]
       case Signal(i) => pc.Signalling? && pc.k < |t.signals[i]|
       case Execute(i) => pc == Signalling(|t.signals[i]|)
       case Collect(i) => pc.Collecting? && pc.k < |t.waits[i]| && !s.slot[t.waits[i][pc.k]]
       case Leave(i) => pc == Collecting(|t.waits[i]|)
  }

  ghost function Next(t: Tree, s: State, l: Label): State
    requires Enabled(t, s, l)
  {
    var pc := s.pc[l.i];
    match l
    case Notice(i) => s.(pc := s.pc[i := Signalling(0)])
    case Signal(i) =>
      var c := t.signals[i][pc.k];
      s.(pc := s.pc[i := Signalling(pc.k + 1)], slot := s.slot[c := true], sent := s.sent + multiset{c})
    case Execute(i) => s.(pc := s.pc[i := Collecting(0)], ran := s.ran + multiset{i})
    case Collect(i) => s.(pc := s.pc[i := Collecting(pc.k + 1)])
    case Leave(i) => s.(pc := s.pc[i := Done], slot := if i == t.root then s.slot else s.slot[i := false])
  }

  ghost predicate IsRun(t: Tree, states: seq<State>, labels: seq<Label>) {
    && |states| == |labels| + 1 && states[0] == InitState(t)
    && forall i :: 0 <= i < |labels| ==> Enabled(t, states[i], labels[i]) && states[i + 1] == Next(t, states[i], labels[i])
  }

  // ---------------------------------------------------------------------------
  // Invariant
  // ---------------------------------------------------------------------------

  // The participant at `pc` has set the slot of its child `c`.
  ghost predicate Signalled(signals: seq<nat>, pc: Pc, c: nat) {
    match pc
    case Idle => false
    case Signalling(k) => k <= |signals| && c in signals[..k]
    case _ => true
  }

  // It has seen the slot of `c` cleared.
  ghost predicate Collected(waits: seq<nat>, pc: Pc, c: nat) {
    match pc
    case Collecting(k) => k <= |waits| && c in waits[..k]
    case Done => true
    case _ => false
  }

  // What child at `pc`, whose slot is `slot`, and its parent know of each other.
  ghost predicate EdgeOk(pc: Pc, slot: bool, signalled: bool, collected: bool) {
    && (slot <==> signalled && pc != Done)
    && (!signalled ==> pc == Idle)
    && (collected ==> pc == Done)
  }

  ghost predicate PcOk(pc: Pc, signals: seq<nat>, waits: seq<nat>) {
    && (pc.Signalling? ==> pc.k <= |signals|)
    && (pc.Collecting? ==> pc.k <= |waits|)
  }

  ghost predicate Ran(pc: Pc) {
    pc.Collecting? || pc.Done?
  }

  function Once(b: bool): nat {
    if b then 1 else 0
  }

  ghost predicate ProcessOk(t: Tree, parent: seq<nat>, pc: seq<Pc>, slot: seq<bool>, c: nat)
    requires |pc| == |slot| == |parent| == |t.signals| == |t.waits| && c < |pc|
    requires c == t.root || parent[c] < |pc|
  {
    && PcOk(pc[c], t.signals[c], t.waits[c])
    && if c == t.root then pc[c] != Idle && !slot[c]
       else
         var q := parent[c];
         EdgeOk(pc[c], slot[c], Signalled(t.signals[q], pc[q], c), Collected(t.waits[q], pc[q], c))
  }

  ghost predicate ProcessesOk(t: Tree, parent: seq<nat>, depth: seq<nat>, pc: seq<Pc>, slot: seq<bool>)
    requires TreeOk(t, parent, depth) && |pc| == |slot| == |parent|
  {
    forall c: nat :: c < |pc| ==> ProcessOk(t, parent, pc, slot, c)
  }

  ghost predicate RanOk(pc: seq<Pc>, ran: multiset<nat>) {
    && (forall c: nat :: c < |pc| ==> ran[c] == Once(Ran(pc[c])))
    && (forall c: nat :: |pc| <= c ==> ran[c] == 0)
  }

  ghost predicate SentOk(t: Tree, parent: seq<nat>, depth: seq<nat>, pc: seq<Pc>, sent: multiset<nat>)
    requires TreeOk(t, parent, depth) && |pc| == |parent|
  {
    && (forall c: nat :: c < |pc| && c != t.root ==> sent[c] == Once(Signalled(t.signals[parent[c]], pc[parent[c]], c)))
    && (forall c: nat :: |pc| <= c || c == t.root ==> sent[c] == 0)
  }

  ghost predicate Inv(t: Tree, parent: seq<nat>, depth: seq<nat>, s: State) {
    && TreeOk(t, parent, depth) && |s.pc| == |s.slot| == |parent|
    && ProcessesOk(t, parent, depth, s.pc, s.slot)
    && SentOk(t, parent, depth, s.pc, s.sent)
    && RanOk(s.pc, s.ran)
  }

  lemma InvShape(t: Tree, parent: seq<nat>, depth: seq<nat>, s: State)
    requires TreeOk(t, parent, depth) && |s.pc| == |s.slot| == |parent|
    ensures Shape(t, s)
  {
    forall q: nat, k: nat | q < |t.signals| && k < |t.signals[q]| ensures t.signals[q][k] < |s.slot| {
      assert t.signals[q][k] in t.signals[q];
    }
    forall q: nat, k: nat | q < |t.waits| && k < |t.waits[q]| ensures t.waits[q][k] < |s.slot| {
      assert t.waits[q][k] in t.waits[q];
    }
  }

  lemma InitInv(t: Tree, parent: seq<nat>, depth: seq<nat>)
    requires TreeOk(t, parent, depth)
    ensures Inv(t, parent, depth, InitState(t))
  {
  }

  // A child that is the next to be signalled or collected.
  lemma Advance(s: seq<nat>, k: nat, c: nat)
    requires Distinct(s) && k < |s|
    ensures c in s[..k + 1] <==> c in s[..k] || c == s[k]
    ensures s[k] !in s[..k] && s[k] in s
  {
    assert s[..k + 1] == s[..k] + [s[k]];
  }

  lemma NotOwnParent(t: Tree, parent: seq<nat>, depth: seq<nat>, c: nat)
    requires TreeOk(t, parent, depth) && c < |parent| && c != t.root
    ensures parent[c] != c
  {
  }

  lemma SignalKeeps(t: Tree, parent: seq<nat>, depth: seq<nat>, s: State, i: nat)
    requires Inv(t, parent, depth, s) && Enabled(t, s, Signal(i))
    ensures Inv(t, parent, depth, Next(t, s, Signal(i)))
  {
    var s' := Next(t, s, Signal(i));
    var k := s.pc[i].k;
    var d := t.signals[i][k];
    Advance(t.signals[i], k, d);
    assert IsKid(t, parent, i, d);
    NotOwnParent(t, parent, depth, d);
    forall c: nat | c < |s.pc| ensures ProcessOk(t, parent, s'.pc, s'.slot, c) {
      assert ProcessOk(t, parent, s.pc, s.slot, c);
      Advance(t.signals[i], k, c);
    }
    forall c: nat | c < |s.pc| && c != t.root
      ensures s'.sent[c] == Once(Signalled(t.signals[parent[c]], s'.pc[parent[c]], c)) {
      Advance(t.signals[i], k, c);
    }
  }

  lemma NoticeKeeps(t: Tree, parent: seq<nat>, depth: seq<nat>, s: State, i: nat)
    requires Inv(t, parent, depth, s) && Enabled(t, s, Notice(i))
    ensures Inv(t, parent, depth, Next(t, s, Notice(i)))
  {
    var s' := Next(t, s, Notice(i));
    forall c: nat | c < |s.pc| ensures ProcessOk(t, parent, s'.pc, s'.slot, c) {
      assert ProcessOk(t, parent, s.pc, s.slot, c);
    }
  }

  lemma ExecuteKeeps(t: Tree, parent: seq<nat>, depth: seq<nat>, s: State, i: nat)
    requires Inv(t, parent, depth, s) && Enabled(t, s, Execute(i))
    ensures Inv(t, parent, depth, Next(t, s, Execute(i)))
  {
    var s' := Next(t, s, Execute(i));
    assert t.signals[i][..|t.signals[i]|] == t.signals[i];
    forall c: nat | c < |s.pc| ensures ProcessOk(t, parent, s'.pc, s'.slot, c) {
      assert ProcessOk(t, parent, s.pc, s.slot, c);
      assert c in t.signals[i] <==> IsKid(t, parent, i, c);
    }
    forall c: nat | c < |s.pc| && c != t.root
      ensures s'.sent[c] == Once(Signalled(t.signals[parent[c]], s'.pc[parent[c]], c)) {
      assert c in t.signals[i] <==> IsKid(t, parent, i, c);
    }
  }

  lemma CollectKeeps(t: Tree, parent: seq<nat>, depth: seq<nat>, s: State, i: nat)
    requires Inv(t, parent, depth, s) && Enabled(t, s, Collect(i))
    ensures Inv(t, parent, depth, Next(t, s, Collect(i)))
  {
    var s' := Next(t, s, Collect(i));
    var k := s.pc[i].k;
    var d := t.waits[i][k];
    Advance(t.waits[i], k, d);
    assert IsKid(t, parent, i, d);
    NotOwnParent(t, parent, depth, d);
    forall c: nat | c < |s.pc| ensures ProcessOk(t, parent, s'.pc, s'.slot, c) {
      assert ProcessOk(t, parent, s.pc, s.slot, c);
      Advance(t.waits[i], k, c);
    }
  }

  lemma LeaveKeeps(t: Tree, parent: seq<nat>, depth: seq<nat>, s: State, i: nat)
    requires Inv(t, parent, depth, s) && Enabled(t, s, Leave(i))
    ensures Inv(t, parent, depth, Next(t, s, Leave(i)))
  {
    var s' := Next(t, s, Leave(i));
    assert t.waits[i][..|t.waits[i]|] == t.waits[i];
    forall c: nat | c < |s.pc| ensures ProcessOk(t, parent, s'.pc, s'.slot, c) {
      assert ProcessOk(t, parent, s.pc, s.slot, c);
      assert c in t.waits[i] <==> IsKid(t, parent, i, c);
      if c != t.root {
        NotOwnParent(t, parent, depth, c);
      }
    }
  }

  /** Every step keeps the invariant. */
  lemma StepKeeps(t: Tree, parent: seq<nat>, depth: seq<nat>, s: State, l: Label)
    requires Inv(t, parent, depth, s) && Enabled(t, s, l)
    ensures Inv(t, parent, depth, Next(t, s, l))
  {
    match l
    case Notice(i) => NoticeKeeps(t, parent, depth, s, i);
    case Signal(i) => SignalKeeps(t, parent, depth, s, i);
    case Execute(i) => ExecuteKeeps(t, parent, depth, s, i);
    case Collect(i) => CollectKeeps(t, parent, depth, s, i);
    case Leave(i) => LeaveKeeps(t, parent, depth, s, i);
  }

  lemma {:induction false} RunInv(t: Tree, parent: seq<nat>, depth: seq<nat>, states: seq<State>, labels: seq<Label>, i: nat)
    requires TreeOk(t, parent, depth) && IsRun(t, states, labels) && i < |states|
    ensures Inv(t, parent, depth, states[i])
  {
    if i == 0 {
      InitInv(t, parent, depth);
    } else {
      RunInv(t, parent, depth, states, labels, i - 1);
      StepKeeps(t, parent, depth, states[i - 1], labels[i - 1]);
    }
  }

  // ---------------------------------------------------------------------------
  // Theorems
  // ---------------------------------------------------------------------------

  // Once the root is done, so is everybody, from the root outwards.
  lemma {:induction false} DoneBelow(t: Tree, parent: seq<nat>, depth: seq<nat>, s: State, c: nat)
    requires Inv(t, parent, depth, s) && s.pc[t.root] == Done && c < |s.pc|
    ensures s.pc[c] == Done
    decreases depth[c]
  {
    if c != t.root {
      DoneBelow(t, parent, depth, s, parent[c]);
      assert ProcessOk(t, parent, s.pc, s.slot, c);
    }
  }

  // The root has returned from the loop.
  ghost predicate Returned(t: Tree, s: State) {
    t.root < |s.pc| && s.pc[t.root] == Done
  }

  // Nobody is in the barrier and no slot is set.
  ghost predicate Quiet(s: State) {
    |s.slot| == |s.pc| && forall c: nat :: c < |s.pc| ==> s.pc[c] == Done && !s.slot[c]
  }

  // 0 to n - 1, once each
  ghost function All(n: nat): multiset<nat> {
    if n == 0 then multiset{} else All(n - 1) + multiset{n - 1}
  }

  lemma {:induction false} AllCounts(n: nat, c: nat)
    ensures All(n)[c] == if c < n then 1 else 0
  {
    if n > 0 {
      AllCounts(n - 1, c);
    }
  }

  /** The barrier is safe: when the root returns, everybody has run its block, everybody
      exactly once, everybody but the root was signalled exactly once, and all slots are
      cleared again, whatever the interleaving. */
  lemma BarrierComplete(t: Tree, parent: seq<nat>, depth: seq<nat>, states: seq<State>, labels: seq<Label>, i: nat)
    requires TreeOk(t, parent, depth) && IsRun(t, states, labels) && i < |states|
    requires Returned(t, states[i])
    ensures Quiet(states[i])
    ensures states[i].ran == All(|t.signals|)
    ensures states[i].sent == All(|t.signals|) - multiset{t.root}
  {
    RunInv(t, parent, depth, states, labels, i);
    var s := states[i];
    forall c: nat | c < |s.pc| ensures s.pc[c] == Done && !s.slot[c] {
      DoneBelow(t, parent, depth, s, c);
      assert ProcessOk(t, parent, s.pc, s.slot, c);
    }
    forall c: nat ensures s.ran[c] == All(|t.signals|)[c] && s.sent[c] == (All(|t.signals|) - multiset{t.root})[c] {
      AllCounts(|t.signals|, c);
      AllCounts(|t.signals|, t.root);
    }
  }

  /** At no time has anybody been signalled or has anybody run its block more than once,
      and nobody runs its block without having been signalled. */
  lemma AtMostOnce(t: Tree, parent: seq<nat>, depth: seq<nat>, states: seq<State>, labels: seq<Label>, i: nat, c: nat)
    requires TreeOk(t, parent, depth) && IsRun(t, states, labels) && i < |states| && c < |t.signals|
    ensures states[i].ran[c] <= 1 && states[i].sent[c] <= 1
    ensures c != t.root ==> states[i].ran[c] <= states[i].sent[c]
  {
    RunInv(t, parent, depth, states, labels, i);
    assert ProcessOk(t, parent, states[i].pc, states[i].slot, c);
  }

  /** Whoever has run its block has signalled all its children before, and whoever has cleared its
      slot has run its block after having been signalled, and so have its children. */
  lemma ForkBeforeWork(t: Tree, parent: seq<nat>, depth: seq<nat>, states: seq<State>, labels: seq<Label>, i: nat, c: nat)
    requires TreeOk(t, parent, depth) && IsRun(t, states, labels) && i < |states| && c < |t.signals| && c != t.root
    ensures var (s, q) := (states[i], parent[c]);
            && |s.slot| == |t.signals| && q < |t.signals|
            && (s.ran[q] > 0 ==> s.sent[c] == 1)
            && (s.sent[c] > 0 && !s.slot[c] ==> s.ran[c] == 1)
            && (q != t.root && s.sent[q] > 0 && !s.slot[q] ==> s.ran[q] == 1 && s.ran[c] == 1 && !s.slot[c])
  {
    RunInv(t, parent, depth, states, labels, i);
    assert ProcessOk(t, parent, states[i].pc, states[i].slot, c);
    assert ProcessOk(t, parent, states[i].pc, states[i].slot, parent[c]);
  }

  // Between noticing its slot and clearing it a participant reads the loop's state.
  ghost predicate Reads(l: Label) {
    !l.Notice?
  }

  /** Whoever reads the state on the root's stack does so before the root has returned. */
  lemma StateOutlivesReaders(t: Tree, parent: seq<nat>, depth: seq<nat>, states: seq<State>, labels: seq<Label>, i: nat)
    requires TreeOk(t, parent, depth) && IsRun(t, states, labels) && i < |labels| && Reads(labels[i])
    ensures !Returned(t, states[i])
  {
    RunInv(t, parent, depth, states, labels, i);
    if Returned(t, states[i]) {
      DoneBelow(t, parent, depth, states[i], labels[i].i);
      assert false;
    }
  }

  ghost predicate Bounded(depth: seq<nat>, max: nat) {
    forall c: nat :: c < |depth| ==> depth[c] <= max
  }

  // Somebody at or below an unfinished, signalled participant can move.
  lemma {:induction false} EnabledBelow(t: Tree, parent: seq<nat>, depth: seq<nat>, s: State, max: nat, c: nat)
      returns (l: Label)
    requires Inv(t, parent, depth, s) && c < |s.pc| && s.pc[c] != Done && (c == t.root || s.slot[c])
    requires Bounded(depth, max)
    ensures Enabled(t, s, l)
    decreases max - depth[c]
  {
    InvShape(t, parent, depth, s);
    assert ProcessOk(t, parent, s.pc, s.slot, c);
    match s.pc[c]
    case Idle => l := Notice(c);
    case Signalling(k) =>
      l := if k < |t.signals[c]| then Signal(c) else Execute(c);
    case Collecting(k) =>
      if k == |t.waits[c]| {
        l := Leave(c);
      } else {
        var d := t.waits[c][k];
        assert IsKid(t, parent, c, d);
        if s.slot[d] {
          assert ProcessOk(t, parent, s.pc, s.slot, d);
          l := EnabledBelow(t, parent, depth, s, max, d);
        } else {
          l := Collect(c);
        }
      }
  }

  // The depth of the deepest participant.
  ghost function MaxOf(depth: seq<nat>): (max: nat)
    ensures Bounded(depth, max)
  {
    if depth == [] then 0
    else
      var m := MaxOf(depth[1..]);
      assert forall c: nat :: 0 < c < |depth| ==> depth[c] == depth[1..][c - 1];
      if m < depth[0] then depth[0] else m
  }

  /** No deadlock: until the root has returned, some step is enabled. */
  lemma Progress(t: Tree, parent: seq<nat>, depth: seq<nat>, states: seq<State>, labels: seq<Label>, i: nat)
    requires TreeOk(t, parent, depth) && IsRun(t, states, labels) && i < |states|
    ensures Returned(t, states[i]) || exists l :: Enabled(t, states[i], l)
  {
    RunInv(t, parent, depth, states, labels, i);
    if !Returned(t, states[i]) {
      var l := EnabledBelow(t, parent, depth, states[i], MaxOf(depth), t.root);
    }
  }

  // Steps left to one participant, and to the first `n`.
  ghost function StepsLeft(pc: Pc, signals: seq<nat>, waits: seq<nat>): int {
    match pc
    case Idle => |signals| + |waits| + 3
    case Signalling(k) => |signals| - k + |waits| + 2
    case Collecting(k) => |waits| - k + 1
    case Done => 0
  }

  ghost function Left(t: Tree, pc: seq<Pc>, n: nat): int
    requires n <= |pc| == |t.signals| == |t.waits|
  {
    if n == 0 then 0 else Left(t, pc, n - 1) + StepsLeft(pc[n - 1], t.signals[n - 1], t.waits[n - 1])
  }

  lemma {:induction false} LeftUpdate(t: Tree, pc: seq<Pc>, n: nat, i: nat, x: Pc)
    requires n <= |pc| == |t.signals| == |t.waits| && i < |pc|
    ensures Left(t, pc[i := x], n) ==
            Left(t, pc, n) + if i < n
                             then StepsLeft(x, t.signals[i], t.waits[i]) - StepsLeft(pc[i], t.signals[i], t.waits[i])
                             else 0
  {
    if n > 0 {
      LeftUpdate(t, pc, n - 1, i, x);
    }
  }

  lemma {:induction false} LeftNonnegative(t: Tree, parent: seq<nat>, depth: seq<nat>, s: State, n: nat)
    requires Inv(t, parent, depth, s) && n <= |s.pc|
    ensures Left(t, s.pc, n) >= 0
    ensures (forall c: nat :: c < |s.pc| ==> s.pc[c] == Done) ==> Left(t, s.pc, n) == 0
  {
    if n > 0 {
      LeftNonnegative(t, parent, depth, s, n - 1);
      assert ProcessOk(t, parent, s.pc, s.slot, n - 1);
    }
  }

  /** Every step uses up exactly one of the steps left. */
  lemma StepCosts(t: Tree, s: State, l: Label)
    requires Enabled(t, s, l)
    ensures Left(t, Next(t, s, l).pc, |s.pc|) == Left(t, s.pc, |s.pc|) - 1
  {
    LeftUpdate(t, s.pc, |s.pc|, l.i, Next(t, s, l).pc[l.i]);
  }

  lemma {:induction false} RunLeft(t: Tree, states: seq<State>, labels: seq<Label>, i: nat)
    requires |t.signals| == |t.waits| && IsRun(t, states, labels) && i < |states|
    ensures |states[i].pc| == |t.signals| && Left(t, states[i].pc, |t.signals|) == Left(t, InitState(t).pc, |t.signals|) - i
  {
    if i > 0 {
      RunLeft(t, states, labels, i - 1);
      StepCosts(t, states[i - 1], labels[i - 1]);
    }
  }

  /** Every run ends: none is longer than the steps left at the start, and a run after which
      no step is enabled has taken exactly these and has let the root return. */
  lemma RunLength(t: Tree, parent: seq<nat>, depth: seq<nat>, states: seq<State>, labels: seq<Label>)
    requires TreeOk(t, parent, depth) && IsRun(t, states, labels)
    ensures |labels| <= Left(t, InitState(t).pc, |t.signals|)
    ensures Returned(t, states[|labels|]) <==> |labels| == Left(t, InitState(t).pc, |t.signals|)
    ensures (forall l :: !Enabled(t, states[|labels|], l)) <==> |labels| == Left(t, InitState(t).pc, |t.signals|)
  {
    var n := |labels|;
    RunInv(t, parent, depth, states, labels, n);
    RunLeft(t, states, labels, n);
    LeftNonnegative(t, parent, depth, states[n], |t.signals|);
    Progress(t, parent, depth, states, labels, n);
    if Returned(t, states[n]) {
      BarrierComplete(t, parent, depth, states, labels, n);
    }
    if l :| Enabled(t, states[n], l) {
      StepCosts(t, states[n], l);
      StepKeeps(t, parent, depth, states[n], l);
      LeftNonnegative(t, parent, depth, Next(t, states[n], l), |t.signals|);
    }
  }
}
