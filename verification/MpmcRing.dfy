/**
 The bounded multi-producer multi-consumer ring with one sequence number per cell.

 Any number of threads run `try_push` and `try_pop`. One step of the model is one atomic
 operation of one thread: a load, a compare-exchange, a data access or a store. The
 fields `claims`, `takes` and `delivered` are history: no step reads them.
 */
module MpmcRing {
  import opened Bits

  type Tid = nat

  datatype Cell<T> = Cell(sequence: nat, data: T)

  /** Where a thread stands inside `try_push` or `try_pop`. */
  datatype Pc<T> =
    | Idle
    | PushLoad(v: T)                  // about to load enqueue_pos
    | PushCheck(v: T, pos: nat)       // about to load the cell's sequence
    | PushCas(v: T, pos: nat)         // saw diff == 0, about to compare-exchange
    | PushWrite(v: T, pos: nat)       // owns the cell, about to store the data
    | PushPublish(v: T, pos: nat)     // about to store sequence pos + 1
    | PopLoad
    | PopCheck(pos: nat)
    | PopCas(pos: nat)
    | PopRead(pos: nat)               // owns the cell, about to move the data out
    | PopRelease(v: T, pos: nat)      // about to store sequence pos + Capacity

  datatype Ring<T> = Ring(
    cap: nat,
    cells: seq<Cell<T>>,
    enq: nat,
    deq: nat,
    pc: map<Tid, Pc<T>>,
    claims: seq<(Tid, T)>,            // claims[p]: who claimed position p, with what value
    takes: seq<Tid>,                  // takes[p]: who claimed position p for removal
    delivered: map<nat, T>)           // delivered[p]: value returned by the pop of position p

  datatype Action<T> =
    | StartPush(t: Tid, v: T)
    | StartPop(t: Tid)
    | Advance(t: Tid, spurious: bool) // next atomic operation; a weak exchange may fail spuriously

  predicate ValidCapacity(cap: nat) {
    cap >= 2 && PowerOfTwo(cap)
  }

  /** `pos & mask_`. */
  function Slot(pos: nat, cap: nat): (i: nat)
    requires ValidCapacity(cap)
    ensures i == pos % cap && i < cap
  {
    MaskIsMod(pos, cap);
    BitAnd(pos, cap - 1)
  }

  function Init<T>(cap: nat, fill: T): Ring<T>
    requires ValidCapacity(cap)
  {
    Ring(cap, seq(cap, i requires 0 <= i < cap => Cell(i, fill)), 0, 0, map[], [], [], map[])
  }

  function At<T>(s: Ring<T>, t: Tid): Pc<T> {
    if t in s.pc then s.pc[t] else Idle
  }

  predicate Shape<T>(s: Ring<T>) {
    && ValidCapacity(s.cap)
    && |s.cells| == s.cap
  }

  function Goto<T>(s: Ring<T>, t: Tid, c: Pc<T>): Ring<T> {
    s.(pc := s.pc[t := c])
  }

  function CheckPush<T>(s: Ring<T>, t: Tid, v: T, pos: nat): Ring<T>
    requires Shape(s)
  {
    var sequence := s.cells[Slot(pos, s.cap)].sequence;
    if sequence == pos then Goto(s, t, PushCas(v, pos))
    else if sequence < pos then Goto(s, t, Idle)          // return false
    else Goto(s, t, PushLoad(v))
  }

  function CasPush<T>(s: Ring<T>, t: Tid, v: T, pos: nat, spurious: bool): Ring<T> {
    if s.enq == pos && !spurious then
      Goto(s, t, PushWrite(v, pos)).(enq := pos + 1, claims := s.claims + [(t, v)])
    else
      Goto(s, t, PushCheck(v, s.enq))                     // the failed exchange reloads pos
  }

  function WritePush<T>(s: Ring<T>, t: Tid, v: T, pos: nat): Ring<T>
    requires Shape(s)
  {
    var i := Slot(pos, s.cap);
    Goto(s, t, PushPublish(v, pos)).(cells := s.cells[i := s.cells[i].(data := v)])
  }

  function PublishPush<T>(s: Ring<T>, t: Tid, pos: nat): Ring<T>
    requires Shape(s)
  {
    var i := Slot(pos, s.cap);
    Goto(s, t, Idle).(cells := s.cells[i := s.cells[i].(sequence := pos + 1)])
  }

  function CheckPop<T>(s: Ring<T>, t: Tid, pos: nat): Ring<T>
    requires Shape(s)
  {
    var sequence := s.cells[Slot(pos, s.cap)].sequence;
    if sequence == pos + 1 then Goto(s, t, PopCas(pos))
    else if sequence < pos + 1 then Goto(s, t, Idle)      // return false
    else Goto(s, t, PopLoad)
  }

  function CasPop<T>(s: Ring<T>, t: Tid, pos: nat, spurious: bool): Ring<T> {
    if s.deq == pos && !spurious then
      Goto(s, t, PopRead(pos)).(deq := pos + 1, takes := s.takes + [t])
    else
      Goto(s, t, PopCheck(s.deq))
  }

  function ReadPop<T>(s: Ring<T>, t: Tid, pos: nat): Ring<T>
    requires Shape(s)
  {
    Goto(s, t, PopRelease(s.cells[Slot(pos, s.cap)].data, pos))
  }

  function ReleasePop<T>(s: Ring<T>, t: Tid, v: T, pos: nat): Ring<T>
    requires Shape(s)
  {
    var i := Slot(pos, s.cap);
    Goto(s, t, Idle).(
      cells := s.cells[i := s.cells[i].(sequence := pos + s.cap)],
      delivered := s.delivered[pos := v])
  }

  /** One step. An action its thread cannot take leaves the state as it is. */
  function Step<T>(s: Ring<T>, a: Action<T>): (r: Ring<T>)
    requires Shape(s)
    ensures Shape(r) && r.cap == s.cap
  {
    match a
    case StartPush(t, v) => if At(s, t).Idle? then Goto(s, t, PushLoad(v)) else s
    case StartPop(t) => if At(s, t).Idle? then Goto(s, t, PopLoad) else s
    case Advance(t, spurious) =>
      match At(s, t)
      case Idle => s
      case PushLoad(v) => Goto(s, t, PushCheck(v, s.enq))
      case PushCheck(v, pos) => CheckPush(s, t, v, pos)
      case PushCas(v, pos) => CasPush(s, t, v, pos, spurious)
      case PushWrite(v, pos) => WritePush(s, t, v, pos)
      case PushPublish(v, pos) => PublishPush(s, t, pos)
      case PopLoad => Goto(s, t, PopCheck(s.deq))
      case PopCheck(pos) => CheckPop(s, t, pos)
      case PopCas(pos) => CasPop(s, t, pos, spurious)
      case PopRead(pos) => ReadPop(s, t, pos)
      case PopRelease(v, pos) => ReleasePop(s, t, v, pos)
  }

  function Run<T>(s: Ring<T>, acts: seq<Action<T>>): (r: Ring<T>)
    requires Shape(s)
    ensures Shape(r) && r.cap == s.cap
    decreases |acts|
  {
    if acts == [] then s else Step(Run(s, acts[..|acts| - 1]), acts[|acts| - 1])
  }

  // ----- the invariant

  /** The position a cell is at: its sequence when free or being filled, one less when full. */
  function Gen<T>(s: Ring<T>, i: nat): int
    requires Shape(s) && i < s.cap
  {
    if s.cells[i].sequence % s.cap == i then s.cells[i].sequence else s.cells[i].sequence - 1
  }

  predicate PushHolds<T>(s: Ring<T>, t: Tid, p: nat) {
    var c := At(s, t);
    (c.PushWrite? || c.PushPublish?) && c.pos == p
  }

  predicate PopHolds<T>(s: Ring<T>, t: Tid, p: nat) {
    var c := At(s, t);
    (c.PopRead? || c.PopRelease?) && c.pos == p
  }

  ghost predicate CellOk<T>(s: Ring<T>, i: nat)
    requires Shape(s) && i < s.cap && |s.claims| == s.enq && |s.takes| == s.deq
  {
    var p := Gen(s, i);
    var c := s.cells[i];
    && 0 <= p < s.deq + s.cap
    && p % s.cap == i
    && s.enq <= p + s.cap
    && (c.sequence == p ==> s.deq <= p && (p < s.enq ==> PushHolds(s, s.claims[p].0, p)))
    && (c.sequence != p ==> p < s.enq && c.data == s.claims[p].1 &&
                            (p < s.deq ==> PopHolds(s, s.takes[p], p)))
  }

  ghost predicate ThreadOk<T>(s: Ring<T>, t: Tid)
    requires Shape(s) && |s.claims| == s.enq && |s.takes| == s.deq && s.deq <= s.enq
  {
    match At(s, t)
    case PushCheck(_, pos) => pos <= s.enq
    case PushCas(_, pos) => pos <= s.cells[pos % s.cap].sequence
    case PushWrite(v, pos) =>
      pos < s.enq && s.claims[pos] == (t, v) && s.cells[pos % s.cap].sequence == pos
    case PushPublish(v, pos) =>
      && pos < s.enq && s.claims[pos] == (t, v)
      && s.cells[pos % s.cap] == Cell(pos, v)
    case PopCheck(pos) => pos <= s.deq
    case PopCas(pos) => pos + 1 <= s.cells[pos % s.cap].sequence
    case PopRead(pos) =>
      pos < s.deq && s.takes[pos] == t && s.cells[pos % s.cap].sequence == pos + 1
    case PopRelease(v, pos) =>
      && pos < s.deq && s.takes[pos] == t && v == s.claims[pos].1
      && s.cells[pos % s.cap].sequence == pos + 1
    case _ => true
  }

  /** Every position removed so far was delivered, or its remover is still at work; never both. */
  ghost predicate TakenOk<T>(s: Ring<T>, p: nat)
    requires |s.claims| == s.enq && |s.takes| == s.deq && s.deq <= s.enq && p < s.deq
  {
    if p in s.delivered then s.delivered[p] == s.claims[p].1 && !PopHolds(s, s.takes[p], p)
    else PopHolds(s, s.takes[p], p)
  }

  ghost predicate Inv<T>(s: Ring<T>) {
    && Shape(s)
    && |s.claims| == s.enq
    && |s.takes| == s.deq
    && s.deq <= s.enq
    && (forall i: nat | i < s.cap :: CellOk(s, i))
    && (forall t: Tid :: ThreadOk(s, t))
    && (forall p: nat | p < s.deq :: TakenOk(s, p))
    && (forall p: nat | p in s.delivered :: p < s.deq)
  }

  lemma InitInv<T>(cap: nat, fill: T)
    requires ValidCapacity(cap)
    ensures Inv(Init(cap, fill))
  {
    var s := Init(cap, fill);
    forall i: nat | i < cap ensures CellOk(s, i) {
      ModUnique(i, cap, 0, i);
    }
  }

  // ----- every step keeps it

  /** Steps that only move one thread between program points where it owns nothing. */
  lemma GotoKeepsInv<T>(s: Ring<T>, t: Tid, c: Pc<T>)
    requires Inv(s)
    requires forall p :: !PushHolds(s, t, p) && !PopHolds(s, t, p)
    requires !(c.PushWrite? || c.PushPublish? || c.PopRead? || c.PopRelease?)
    requires ThreadOk(Goto(s, t, c), t)
    ensures Inv(Goto(s, t, c))
  {
    var r := Goto(s, t, c);
    forall i: nat | i < s.cap ensures CellOk(r, i) {
      assert CellOk(s, i);
    }
    forall u: Tid ensures ThreadOk(r, u) {
      assert ThreadOk(s, u);
    }
    forall p: nat | p < r.deq ensures TakenOk(r, p) {
      assert TakenOk(s, p);
    }
  }

  /** A cell checked at `pos` is still free at `pos` when the exchange finds `enq == pos`. */
  lemma StillFree<T>(s: Ring<T>, t: Tid, v: T, pos: nat)
    requires Inv(s) && At(s, t) == PushCas(v, pos) && s.enq == pos
    ensures s.cells[pos % s.cap].sequence == pos
    ensures s.deq <= pos < s.deq + s.cap
  {
    var i := pos % s.cap;
    assert ThreadOk(s, t) && CellOk(s, i);
    var p := Gen(s, i);
    if pos < p {
      SameSlotApart(pos, p, s.cap);
    }
  }

  /** A cell checked at `pos` is still full with `pos` when the exchange finds `deq == pos`. */
  lemma StillFull<T>(s: Ring<T>, t: Tid, pos: nat)
    requires Inv(s) && At(s, t) == PopCas(pos) && s.deq == pos
    ensures s.cells[pos % s.cap].sequence == pos + 1
    ensures pos < s.enq
  {
    var i := pos % s.cap;
    assert ThreadOk(s, t) && CellOk(s, i);
    var p := Gen(s, i);
    if pos < p {
      SameSlotApart(pos, p, s.cap);
    }
  }

  lemma CasPushKeepsInv<T>(s: Ring<T>, t: Tid, v: T, pos: nat)
    requires Inv(s) && At(s, t) == PushCas(v, pos) && s.enq == pos
    ensures Inv(CasPush(s, t, v, pos, false))
  {
    var r := CasPush(s, t, v, pos, false);
    StillFree(s, t, v, pos);
    forall i: nat | i < r.cap ensures CellOk(r, i) {
      assert CellOk(s, i);
      var p := Gen(s, i);
      if p + s.cap == pos {
        SameSlotNextLap(p, s.cap);
      }
    }
    forall u: Tid ensures ThreadOk(r, u) {
      assert ThreadOk(s, u);
    }
    forall p: nat | p < r.deq ensures TakenOk(r, p) {
      assert TakenOk(s, p);
    }
  }

  lemma CasPopKeepsInv<T>(s: Ring<T>, t: Tid, pos: nat)
    requires Inv(s) && At(s, t) == PopCas(pos) && s.deq == pos
    ensures Inv(CasPop(s, t, pos, false))
  {
    var r := CasPop(s, t, pos, false);
    StillFull(s, t, pos);
    forall i: nat | i < r.cap ensures CellOk(r, i) {
      assert CellOk(s, i);
      var p := Gen(s, i);
    }
    forall u: Tid ensures ThreadOk(r, u) {
      assert ThreadOk(s, u);
    }
    forall p: nat | p < r.deq ensures TakenOk(r, p) {
      if p < s.deq { assert TakenOk(s, p); }
    }
  }

  lemma WritePushKeepsInv<T>(s: Ring<T>, t: Tid, v: T, pos: nat)
    requires Inv(s) && At(s, t) == PushWrite(v, pos)
    ensures Inv(WritePush(s, t, v, pos))
  {
    var r := WritePush(s, t, v, pos);
    assert ThreadOk(s, t);
    forall i: nat | i < r.cap ensures CellOk(r, i) {
      assert CellOk(s, i);
    }
    forall u: Tid ensures ThreadOk(r, u) {
      assert ThreadOk(s, u);
    }
    forall p: nat | p < r.deq ensures TakenOk(r, p) {
      assert TakenOk(s, p);
    }
  }

  lemma PublishPushKeepsInv<T>(s: Ring<T>, t: Tid, v: T, pos: nat)
    requires Inv(s) && At(s, t) == PushPublish(v, pos)
    ensures Inv(PublishPush(s, t, pos))
  {
    var r := PublishPush(s, t, pos);
    assert ThreadOk(s, t);
    NextSlotDiffers(pos, s.cap);
    forall i: nat | i < r.cap ensures CellOk(r, i) {
      assert CellOk(s, i);
    }
    forall u: Tid ensures ThreadOk(r, u) {
      assert ThreadOk(s, u);
      var c := At(s, u);
      if c.PopRead? || c.PopRelease? { NextSlotDiffers(c.pos, s.cap); }
    }
    forall p: nat | p < r.deq ensures TakenOk(r, p) {
      assert TakenOk(s, p);
    }
  }

  lemma ReadPopKeepsInv<T>(s: Ring<T>, t: Tid, pos: nat)
    requires Inv(s) && At(s, t) == PopRead(pos)
    ensures Inv(ReadPop(s, t, pos))
  {
    var r := ReadPop(s, t, pos);
    assert ThreadOk(s, t);
    NextSlotDiffers(pos, s.cap);
    forall i: nat | i < r.cap ensures CellOk(r, i) {
      assert CellOk(s, i);
    }
    forall u: Tid ensures ThreadOk(r, u) {
      assert ThreadOk(s, u);
      assert CellOk(s, pos % s.cap);
    }
    forall p: nat | p < r.deq ensures TakenOk(r, p) {
      assert TakenOk(s, p);
    }
  }

  lemma ReleasePopCell<T>(s: Ring<T>, t: Tid, v: T, pos: nat, i: nat)
    requires Inv(s) && At(s, t) == PopRelease(v, pos) && i < s.cap
    ensures CellOk(ReleasePop(s, t, v, pos), i)
  {
    assert ThreadOk(s, t) && CellOk(s, i);
    NextSlotDiffers(pos, s.cap);
    SameSlotNextLap(pos, s.cap);
  }

  lemma ReleasePopThread<T>(s: Ring<T>, t: Tid, v: T, pos: nat, u: Tid)
    requires Inv(s) && At(s, t) == PopRelease(v, pos)
    ensures ThreadOk(ReleasePop(s, t, v, pos), u)
  {
    assert ThreadOk(s, t) && ThreadOk(s, u);
    NextSlotDiffers(pos, s.cap);
  }

  lemma ReleasePopKeepsInv<T>(s: Ring<T>, t: Tid, v: T, pos: nat)
    requires Inv(s) && At(s, t) == PopRelease(v, pos)
    ensures Inv(ReleasePop(s, t, v, pos))
    ensures pos !in s.delivered
  {
    var r := ReleasePop(s, t, v, pos);
    assert ThreadOk(s, t) && TakenOk(s, pos);
    forall i: nat | i < r.cap ensures CellOk(r, i) {
      ReleasePopCell(s, t, v, pos, i);
    }
    forall u: Tid ensures ThreadOk(r, u) {
      ReleasePopThread(s, t, v, pos, u);
    }
    forall p: nat | p < r.deq ensures TakenOk(r, p) {
      assert TakenOk(s, p);
    }
  }

  lemma PushStepKeepsInv<T>(s: Ring<T>, t: Tid, spurious: bool)
    requires Inv(s)
    requires var c := At(s, t); c.PushLoad? || c.PushCheck? || c.PushCas? || c.PushWrite? || c.PushPublish?
    ensures Inv(Step(s, Advance(t, spurious)))
  {
    assert ThreadOk(s, t);
    match At(s, t)
    case PushLoad(v) => GotoKeepsInv(s, t, PushCheck(v, s.enq));
    case PushCheck(v, pos) => GotoKeepsInv(s, t, At(CheckPush(s, t, v, pos), t));
    case PushCas(v, pos) =>
      if s.enq == pos && !spurious { CasPushKeepsInv(s, t, v, pos); }
      else { GotoKeepsInv(s, t, PushCheck(v, s.enq)); }
    case PushWrite(v, pos) => WritePushKeepsInv(s, t, v, pos);
    case PushPublish(v, pos) => PublishPushKeepsInv(s, t, v, pos);
  }

  lemma PopStepKeepsInv<T>(s: Ring<T>, t: Tid, spurious: bool)
    requires Inv(s)
    requires var c := At(s, t); c.PopLoad? || c.PopCheck? || c.PopCas? || c.PopRead? || c.PopRelease?
    ensures Inv(Step(s, Advance(t, spurious)))
  {
    assert ThreadOk(s, t);
    match At(s, t)
    case PopLoad => GotoKeepsInv(s, t, PopCheck(s.deq));
    case PopCheck(pos) => GotoKeepsInv(s, t, At(CheckPop(s, t, pos), t));
    case PopCas(pos) =>
      if s.deq == pos && !spurious { CasPopKeepsInv(s, t, pos); }
      else { GotoKeepsInv(s, t, PopCheck(s.deq)); }
    case PopRead(pos) => ReadPopKeepsInv(s, t, pos);
    case PopRelease(v, pos) => ReleasePopKeepsInv(s, t, v, pos);
  }

  lemma StepKeepsInv<T>(s: Ring<T>, a: Action<T>)
    requires Inv(s)
    ensures Inv(Step(s, a))
  {
    var c := At(s, a.t);
    match a
    case StartPush(t, v) =>
      if c.Idle? { GotoKeepsInv(s, t, PushLoad(v)); }
    case StartPop(t) =>
      if c.Idle? { GotoKeepsInv(s, t, PopLoad); }
    case Advance(t, spurious) =>
      if c.PopLoad? || c.PopCheck? || c.PopCas? || c.PopRead? || c.PopRelease? {
        PopStepKeepsInv(s, t, spurious);
      } else if !c.Idle? {
        PushStepKeepsInv(s, t, spurious);
      }
  }

  lemma {:induction false} RunKeepsInv<T>(s: Ring<T>, acts: seq<Action<T>>)
    requires Inv(s)
    ensures Inv(Run(s, acts))
    decreases |acts|
  {
    if acts != [] {
      RunKeepsInv(s, acts[..|acts| - 1]);
      StepKeepsInv(Run(s, acts[..|acts| - 1]), acts[|acts| - 1]);
    }
  }

  lemma ReachableInv<T>(cap: nat, fill: T, acts: seq<Action<T>>)
    requires ValidCapacity(cap)
    ensures Inv(Run(Init(cap, fill), acts))
  {
    InitInv(cap, fill);
    RunKeepsInv(Init(cap, fill), acts);
  }

  // ----- what holds in every interleaving

  /** Removals never pass insertions, and insertions are never more than Capacity ahead. */
  lemma PositionsBounded<T>(cap: nat, fill: T, acts: seq<Action<T>>)
    requires ValidCapacity(cap)
    ensures var s := Run(Init(cap, fill), acts); s.deq <= s.enq <= s.deq + cap
  {
    ReachableInv(cap, fill, acts);
    var s := Run(Init(cap, fill), acts);
    var i := s.deq % cap;
    assert CellOk(s, i);
    if s.deq < Gen(s, i) { SameSlotApart(s.deq, Gen(s, i), cap); }
  }

  /** A thread is about to touch the data of cell `i` without atomics. */
  predicate TouchesData<T>(s: Ring<T>, t: Tid, i: nat)
    requires Shape(s)
  {
    var c := At(s, t);
    (c.PushWrite? || c.PopRead?) && c.pos % s.cap == i
  }

  /** No tearing: two threads are never both about to access the data of one cell. */
  lemma DataAccessExclusive<T>(cap: nat, fill: T, acts: seq<Action<T>>, t: Tid, u: Tid, i: nat)
    requires ValidCapacity(cap)
    requires TouchesData(Run(Init(cap, fill), acts), t, i)
    requires TouchesData(Run(Init(cap, fill), acts), u, i)
    ensures t == u
  {
    var s := Run(Init(cap, fill), acts);
    ReachableInv(cap, fill, acts);
    assert ThreadOk(s, t) && ThreadOk(s, u);
    NextSlotDiffers(At(s, t).pos, cap);
    NextSlotDiffers(At(s, u).pos, cap);
  }

  /** The history only grows: nobody else is ever recorded for a position already claimed. */
  lemma StepExtendsHistory<T>(s: Ring<T>, a: Action<T>)
    requires Shape(s)
    ensures s.claims <= Step(s, a).claims
    ensures s.takes <= Step(s, a).takes
  {
    match At(s, a.t)
    case PushCas(_, _) =>
    case PopCas(_) =>
    case _ =>
  }

  lemma OtherStays<T>(s: Ring<T>, a: Action<T>, t: Tid)
    requires Shape(s) && a.t != t
    ensures At(Step(s, a), t) == At(s, t)
  {
    var r := Step(s, a);
    if a.Advance? { AdvanceMovesOwn(s, a.t, a.spurious); }
    assert r.pc == s.pc || r.pc == s.pc[a.t := At(r, a.t)];
  }

  lemma AdvanceMovesOwn<T>(s: Ring<T>, t: Tid, spurious: bool)
    requires Shape(s)
    ensures var r := Step(s, Advance(t, spurious)); r.pc == s.pc || r.pc == s.pc[t := At(r, t)]
  {
    match At(s, t)
    case Idle =>
    case PushLoad(_) =>
    case PushCheck(_, _) =>
    case PushCas(_, _) =>
    case PushWrite(_, _) =>
    case PushPublish(_, _) =>
    case PopLoad =>
    case PopCheck(_) =>
    case PopCas(_) =>
    case PopRead(_) =>
    case PopRelease(_, _) =>
  }

  /** One producer and one consumer per position in the whole run: whoever holds `p` is the one
      recorded for it, and no step changes the record. */
  lemma ClaimsUnique<T>(cap: nat, fill: T, acts: seq<Action<T>>, a: Action<T>, t: Tid, u: Tid, p: nat)
    requires ValidCapacity(cap)
    ensures var s := Run(Init(cap, fill), acts);
      && (PushHolds(s, t, p) ==> p < |s.claims| && s.claims[p].0 == t)
      && (PopHolds(s, t, p) ==> p < |s.takes| && s.takes[p] == t)
      && !(PushHolds(s, t, p) && PopHolds(s, u, p))
      && s.claims <= Step(s, a).claims && s.takes <= Step(s, a).takes
  {
    var s := Run(Init(cap, fill), acts);
    ReachableInv(cap, fill, acts);
    assert ThreadOk(s, t) && ThreadOk(s, u);
    StepExtendsHistory(s, a);
  }

  lemma PreviousLapDelivered<T>(s: Ring<T>, t: Tid)
    requires Inv(s) && At(s, t).PushWrite? && At(s, t).pos >= s.cap
    ensures At(s, t).pos - s.cap in s.delivered
  {
    var pos := At(s, t).pos;
    var q := pos - s.cap;
    SameSlotNextLap(q, s.cap);
    assert ThreadOk(s, t) && CellOk(s, pos % s.cap);
    assert TakenOk(s, q) && ThreadOk(s, s.takes[q]);
  }

  /** A producer stores into a cell only after the value of the lap before was delivered. */
  lemma NeverOverwritten<T>(cap: nat, fill: T, acts: seq<Action<T>>, t: Tid)
    requires ValidCapacity(cap)
    ensures var s := Run(Init(cap, fill), acts);
      At(s, t).PushWrite? && At(s, t).pos >= cap ==> At(s, t).pos - cap in s.delivered
  {
    var s := Run(Init(cap, fill), acts);
    ReachableInv(cap, fill, acts);
    if At(s, t).PushWrite? && At(s, t).pos >= cap {
      PreviousLapDelivered(s, t);
    }
  }

  /** Action `a` completes the removal of position `p`. */
  predicate Delivers<T>(s: Ring<T>, a: Action<T>, p: nat) {
    a.Advance? && At(s, a.t).PopRelease? && At(s, a.t).pos == p
  }

  /** How many actions of a run complete the removal of position `p`. */
  function Deliveries<T>(s: Ring<T>, acts: seq<Action<T>>, p: nat): nat
    requires Shape(s)
    decreases |acts|
  {
    if acts == [] then 0
    else
      var before := acts[..|acts| - 1];
      Deliveries(s, before, p) + if Delivers(Run(s, before), acts[|acts| - 1], p) then 1 else 0
  }

  lemma DeliveredIsFree<T>(s: Ring<T>, t: Tid, p: nat)
    requires Inv(s) && p in s.delivered
    ensures !PopHolds(s, t, p)
  {
    assert TakenOk(s, p) && ThreadOk(s, t);
  }

  lemma StepDelivers<T>(s: Ring<T>, a: Action<T>, p: nat)
    requires Inv(s)
    ensures p in Step(s, a).delivered <==> p in s.delivered || Delivers(s, a, p)
    ensures p in s.delivered ==>
      !Delivers(s, a, p) && Step(s, a).delivered[p] == s.delivered[p]
  {
    if p in s.delivered { DeliveredIsFree(s, a.t, p); }
    match At(s, a.t)
    case PopRelease(_, _) =>
    case _ =>
  }

  /** No duplication: in every run the number of removals of a position is one if the position
      is recorded as delivered and zero if not, and so never two. */
  lemma {:induction false} DeliveredOnce<T>(cap: nat, fill: T, acts: seq<Action<T>>, p: nat)
    requires ValidCapacity(cap)
    ensures var s := Init(cap, fill);
      Deliveries(s, acts, p) == if p in Run(s, acts).delivered then 1 else 0
    decreases |acts|
  {
    if acts != [] {
      var before := acts[..|acts| - 1];
      DeliveredOnce(cap, fill, before, p);
      ReachableInv(cap, fill, before);
      StepDelivers(Run(Init(cap, fill), before), acts[|acts| - 1], p);
    }
  }

  /** What is popped at a position is what was pushed at that position, and it is popped once:
      nobody holds a delivered position, and no step delivers it again or changes the record. */
  lemma PoppedIsPushed<T>(cap: nat, fill: T, acts: seq<Action<T>>, a: Action<T>, p: nat)
    requires ValidCapacity(cap)
    ensures var s := Run(Init(cap, fill), acts);
      p in s.delivered ==>
        && p < |s.claims| && s.delivered[p] == s.claims[p].1
        && (forall t: Tid :: !PopHolds(s, t, p))
        && !Delivers(s, a, p)
        && p in Step(s, a).delivered && Step(s, a).delivered[p] == s.delivered[p]
  {
    var s := Run(Init(cap, fill), acts);
    ReachableInv(cap, fill, acts);
    if p in s.delivered {
      assert TakenOk(s, p);
      forall t: Tid ensures !PopHolds(s, t, p) {
        DeliveredIsFree(s, t, p);
      }
      StepDelivers(s, a, p);
    }
  }

  ghost predicate Quiescent<T>(s: Ring<T>) {
    forall t: Tid :: At(s, t).Idle?
  }

  lemma IdleTaken<T>(s: Ring<T>, p: nat)
    requires Inv(s) && Quiescent(s) && p < s.deq
    ensures p in s.delivered && s.delivered[p] == s.claims[p].1
  {
    assert TakenOk(s, p);
  }

  lemma IdleStored<T>(s: Ring<T>, p: nat)
    requires Inv(s) && Quiescent(s) && s.deq <= p < s.enq
    ensures s.cells[p % s.cap] == Cell(p + 1, s.claims[p].1)
  {
    var i := p % s.cap;
    assert CellOk(s, i);
    var g := Gen(s, i);
    if g < p { SameSlotApart(g, p, s.cap); }
    if p < g { SameSlotApart(p, g, s.cap); }
  }

  /** Conservation: with no call in progress the deliveries are exactly the first `deq`
      pushes, and the cells hold exactly the others, in position order. */
  lemma QuiescentIsQueue<T>(cap: nat, fill: T, acts: seq<Action<T>>)
    requires ValidCapacity(cap)
    requires Quiescent(Run(Init(cap, fill), acts))
    ensures var s := Run(Init(cap, fill), acts);
      && |s.claims| == s.enq && s.deq <= s.enq
      && s.delivered == (map p: nat | p < s.deq :: s.claims[p].1)
      && forall p | s.deq <= p < s.enq :: s.cells[p % cap] == Cell(p + 1, s.claims[p].1)
  {
    var s := Run(Init(cap, fill), acts);
    ReachableInv(cap, fill, acts);
    forall p: nat | p < s.deq ensures p in s.delivered && s.delivered[p] == s.claims[p].1 {
      IdleTaken(s, p);
    }
    forall p | s.deq <= p < s.enq ensures s.cells[p % cap] == Cell(p + 1, s.claims[p].1) {
      IdleStored(s, p);
    }
  }

  /** A push about to check fails exactly when the value one lap below is still undelivered, a
      pop exactly when its position is not yet published. */
  predicate FailureExplained<T>(s: Ring<T>, t: Tid)
    requires Shape(s)
  {
    var fails := At(Step(s, Advance(t, false)), t).Idle?;
    match At(s, t)
    case PushCheck(_, pos) => fails <==> pos >= s.cap && pos - s.cap !in s.delivered
    case PopCheck(pos) =>
      fails <==> pos == s.enq || (pos < |s.claims| == s.enq && PushHolds(s, s.claims[pos].0, pos))
    case _ => true
  }

  /** What a failed attempt means, in every interleaving. */
  lemma FalseMeansPositionUnavailable<T>(cap: nat, fill: T, acts: seq<Action<T>>, t: Tid)
    requires ValidCapacity(cap)
    ensures FailureExplained(Run(Init(cap, fill), acts), t)
  {
    ReachableInv(cap, fill, acts);
    CheckExplained(Run(Init(cap, fill), acts), t);
  }

  lemma CheckExplained<T>(s: Ring<T>, t: Tid)
    requires Inv(s)
    ensures FailureExplained(s, t)
  {
    match At(s, t)
    case PushCheck(v, pos) => PushCheckFails(s, t, v, pos);
    case PopCheck(pos) => PopCheckFails(s, t, pos);
    case _ =>
  }

  lemma PushCheckFails<T>(s: Ring<T>, t: Tid, v: T, pos: nat)
    requires Inv(s) && At(s, t) == PushCheck(v, pos)
    ensures At(CheckPush(s, t, v, pos), t).Idle? <==> pos >= s.cap && pos - s.cap !in s.delivered
  {
    assert ThreadOk(s, t);
    PushFailsWhen(s, pos);
  }

  lemma PopCheckFails<T>(s: Ring<T>, t: Tid, pos: nat)
    requires Inv(s) && At(s, t) == PopCheck(pos)
    ensures At(CheckPop(s, t, pos), t).Idle? <==>
      pos == s.enq || (pos < |s.claims| == s.enq && PushHolds(s, s.claims[pos].0, pos))
  {
    assert ThreadOk(s, t);
    PopFailsWhen(s, pos);
  }

  lemma PushFailsWhen<T>(s: Ring<T>, pos: nat)
    requires Inv(s) && pos <= s.enq
    ensures s.cells[pos % s.cap].sequence < pos <==>
            pos >= s.cap && pos - s.cap !in s.delivered
  {
    var i := pos % s.cap;
    assert CellOk(s, i);
    var g := Gen(s, i);
    if g < pos {
      SameSlotApart(g, pos, s.cap);
      assert g == pos - s.cap;
      if g < s.deq { assert TakenOk(s, g); }
    } else if pos >= s.cap {
      var q := pos - s.cap;
      SameSlotNextLap(q, s.cap);
      if pos < g { SameSlotApart(pos, g, s.cap); }
      assert q < s.deq;
      assert TakenOk(s, q) && ThreadOk(s, s.takes[q]);
    }
  }

  lemma PopFailsWhen<T>(s: Ring<T>, pos: nat)
    requires Inv(s) && pos <= s.deq
    ensures s.cells[pos % s.cap].sequence < pos + 1 <==>
            pos == s.enq || (pos < s.enq && PushHolds(s, s.claims[pos].0, pos))
  {
    var i := pos % s.cap;
    assert CellOk(s, i);
    var g := Gen(s, i);
    if g < pos {
      SameSlotApart(g, pos, s.cap);
    } else if pos < g {
      SameSlotApart(pos, g, s.cap);
    }
    if pos < s.enq && PushHolds(s, s.claims[pos].0, pos) {
      assert ThreadOk(s, s.claims[pos].0);
    }
  }

  lemma {:induction false} RunAppend<T>(s: Ring<T>, a: seq<Action<T>>, b: seq<Action<T>>)
    requires Shape(s)
    ensures Run(s, a + b) == Run(Run(s, a), b)
    decreases |b|
  {
    if b == [] {
      assert a + b == a;
    } else {
      assert (a + b)[..|a + b| - 1] == a + b[..|b| - 1];
      RunAppend(s, a, b[..|b| - 1]);
    }
  }

  lemma RunTwo<T>(s: Ring<T>, a: Action<T>, b: Action<T>)
    requires Shape(s)
    ensures Run(s, [a, b]) == Step(Step(s, a), b)
  {
    assert [a, b][..1] == [a] && [a][..0] == [];
    assert Run(s, [a]) == Step(s, a);
  }

  /** Left alone, a producer that finds its cell free claims the next position. */
  lemma SoloClaim<T>(s: Ring<T>, t: Tid, v: T) returns (acts: seq<Action<T>>)
    requires Shape(s) && At(s, t).Idle? && s.cells[s.enq % s.cap].sequence == s.enq
    ensures Run(s, acts) == s.(
      enq := s.enq + 1, claims := s.claims + [(t, v)], pc := s.pc[t := PushWrite(v, s.enq)])
  {
    var go: Action<T> := Advance(t, false);
    acts := [StartPush(t, v), go] + [go, go];
    RunTwo(s, StartPush(t, v), go);
    var s2 := Run(s, [StartPush(t, v), go]);
    assert s2.pc == s.pc[t := PushCheck(v, s.enq)];
    RunTwo(s2, go, go);
    RunAppend(s, [StartPush(t, v), go], [go, go]);
    assert Run(s, acts).pc == s.pc[t := PushWrite(v, s.enq)];
  }

  /** Left alone, a producer that holds a position publishes its value there. */
  lemma SoloPublish<T>(s: Ring<T>, t: Tid, v: T, pos: nat) returns (acts: seq<Action<T>>)
    requires Shape(s) && At(s, t) == PushWrite(v, pos)
    ensures Run(s, acts) == s.(
      cells := s.cells[pos % s.cap := Cell(pos + 1, v)], pc := s.pc[t := Idle])
  {
    var go: Action<T> := Advance(t, false);
    acts := [go, go];
    RunTwo(s, go, go);
    assert Run(s, acts).pc == s.pc[t := Idle];
    assert Run(s, acts).cells == s.cells[pos % s.cap := Cell(pos + 1, v)];
  }

  lemma SoloPush<T>(s: Ring<T>, t: Tid, v: T) returns (acts: seq<Action<T>>)
    requires Shape(s) && At(s, t).Idle? && s.cells[s.enq % s.cap].sequence == s.enq
    ensures var r := Run(s, acts);
      && r.deq == s.deq && r.cells == s.cells[s.enq % s.cap := Cell(s.enq + 1, v)]
      && forall w | w != t :: At(r, w) == At(s, w)
  {
    var a := SoloClaim(s, t, v);
    var s1 := Run(s, a);
    var b := SoloPublish(s1, t, v, s.enq);
    assert Run(s1, b).cells == s.cells[s.enq % s.cap := Cell(s.enq + 1, v)];
    acts := a + b;
    RunAppend(s, a, b);
  }

  /** Thread `t` claims a position and stalls; thread `u` completes a push at the next one. */
  lemma StalledThenPushed<T>(s: Ring<T>, t: Tid, u: Tid, x: T, y: T)
    returns (acts: seq<Action<T>>)
    requires Shape(s) && At(s, t).Idle? && At(s, u).Idle? && t != u
    requires s.cells[s.enq % s.cap].sequence == s.enq
    requires s.cells[(s.enq + 1) % s.cap].sequence == s.enq + 1
    ensures Run(s, acts).deq == s.deq
    ensures Run(s, acts).cells == s.cells[(s.enq + 1) % s.cap := Cell(s.enq + 2, y)]
    ensures forall w | w != t && w != u :: At(Run(s, acts), w) == At(s, w)
  {
    var a := SoloClaim(s, t, x);
    var s1 := Run(s, a);
    var b := SoloPush(s1, u, y);
    acts := a + b;
    RunAppend(s, a, b);
  }

  /** The same from an empty ring: the front position is then unpublished, the next one full. */
  lemma StalledFront<T>(s: Ring<T>, t: Tid, u: Tid, x: T, y: T) returns (acts: seq<Action<T>>)
    requires Shape(s) && At(s, t).Idle? && At(s, u).Idle? && t != u && s.enq == s.deq
    requires s.cells[s.enq % s.cap].sequence == s.enq
    requires s.cells[(s.enq + 1) % s.cap].sequence == s.enq + 1
    ensures var r := Run(s, acts);
      && r.deq == s.deq
      && r.cells[s.deq % s.cap].sequence == s.deq
      && r.cells[(s.deq + 1) % s.cap] == Cell(s.deq + 2, y)
      && forall w | w != t && w != u :: At(r, w) == At(s, w)
  {
    NextSlotDiffers(s.enq, s.cap);
    acts := StalledThenPushed(s, t, u, x, y);
  }

  /** A pop whose position is not published loads the position and then fails. */
  lemma SoloPopFails<T>(s: Ring<T>, w: Tid) returns (acts: seq<Action<T>>)
    requires Shape(s) && At(s, w).Idle? && s.cells[s.deq % s.cap].sequence <= s.deq
    ensures At(Run(s, acts), w) == PopCheck(s.deq)
    ensures Run(s, acts).cells == s.cells && Run(s, acts).deq == s.deq
    ensures At(Step(Run(s, acts), Advance(w, false)), w).Idle?
  {
    acts := [StartPop(w), Advance(w, false)];
    RunTwo(s, StartPop(w), Advance(w, false));
  }

  lemma PopFailsBehindStall<T>(s: Ring<T>, t: Tid, u: Tid, w: Tid, x: T, y: T)
    returns (acts: seq<Action<T>>)
    requires Shape(s) && At(s, t).Idle? && At(s, u).Idle? && At(s, w).Idle?
    requires t != u && u != w && t != w && s.enq == s.deq
    requires s.cells[s.enq % s.cap].sequence == s.enq
    requires s.cells[(s.enq + 1) % s.cap].sequence == s.enq + 1
    ensures At(Run(s, acts), w) == PopCheck(s.deq)
    ensures At(Step(Run(s, acts), Advance(w, false)), w).Idle?
    ensures Run(s, acts).deq == s.deq
    ensures Run(s, acts).cells[(s.deq + 1) % s.cap] == Cell(s.deq + 2, y)
  {
    var a := StalledFront(s, t, u, x, y);
    var d := SoloPopFails(Run(s, a), w);
    acts := a + d;
    RunAppend(s, a, d);
  }

  /** A failed pop does not mean an empty queue. From every empty ring: thread `t` claims a
      position and stalls, thread `u` completes a push behind it, and the pop of thread `w`
      fails although the value of `u` is stored. */
  lemma FalseIsNotEmpty<T>(s: Ring<T>, t: Tid, u: Tid, w: Tid, x: T, y: T)
    returns (acts: seq<Action<T>>)
    requires Inv(s) && Quiescent(s) && s.enq == s.deq
    requires t != u && u != w && t != w
    ensures At(Run(s, acts), w) == PopCheck(s.deq)
    ensures At(Step(Run(s, acts), Advance(w, false)), w).Idle?
    ensures Run(s, acts).cells[(s.deq + 1) % s.cap] == Cell(s.deq + 2, y)
  {
    EmptyCellFree(s, s.enq);
    EmptyCellFree(s, s.enq + 1);
    acts := PopFailsBehindStall(s, t, u, w, x, y);
  }

  lemma EmptyCellFree<T>(s: Ring<T>, p: nat)
    requires Inv(s) && Quiescent(s) && s.enq == s.deq <= p < s.deq + s.cap
    ensures s.cells[p % s.cap].sequence == p
  {
    assert CellOk(s, p % s.cap);
    var g := Gen(s, p % s.cap);
    if g < p { SameSlotApart(g, p, s.cap); }
    if p < g { SameSlotApart(p, g, s.cap); }
  }
}
