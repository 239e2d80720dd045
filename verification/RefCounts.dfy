/**
 The two-counter protocol of `ref_count_base` (include/gpcl/detail/ref_count_base.hpp) as
 `shared_ptr` and `weak_ptr` drive it, under sequential consistency.

 A state holds the control blocks, the smart pointers that exist, each owned by a thread,
 and where every thread is inside `get`, `put`, `weak_get`, `weak_put` or `lock`.  Each
 action is one atomic access, one destruction, or one step that touches no shared word.
 */
module RefCounts {
  import opened Basics

  type Tid = nat
  type Hid = nat
  type Bid = nat

  datatype Kind = Strong | Weak

  /** A smart pointer: `s_` is null or a control block. */
  datatype Handle = Handle(kind: Kind, block: Option<Bid>, owner: Tid)

  /** How far the managed object is gone; a thread is named while it has to act. */
  datatype Life = Alive | Dying(t: Tid) | Dead

  /** The same for the control block itself. */
  datatype Memory = Kept | Leaving(t: Tid) | Gone

  /**
   The counters, how often the object was destroyed and the block deleted, and who is
   doing it.  The last two fields are bookkeeping of the model.
   */
  datatype Block = Block(use: int, weak: int, destroyed: nat, deleted: nat, life: Life, memory: Memory)

  datatype Pc =
    | Idle
    | Getting(src: Hid, b: Bid)             // get(): about to add to use_count_
    | Putting(h: Hid, b: Bid)               // put(): about to subtract from use_count_
    | Destroying(b: Bid)                    // put(): saw 1, about to destroy the object
    | Releasing(b: Bid)                     // put(): about to subtract from weak_count_
    | Deleting(b: Bid)                      // about to delete the control block
    | WeakGetting(src: Hid, b: Bid)         // weak_get(): about to add to weak_count_
    | WeakPutting(h: Hid, b: Bid)           // weak_put(): about to subtract from weak_count_
    | Locking(w: Hid, b: Bid, oldVal: int)  // lock(): use_count_ was read

  datatype State = State(blocks: map<Bid, Block>, handles: map<Hid, Handle>, pcs: map<Tid, Pc>)

  datatype Action =
    | Make(b: Bid, h: Hid)       // a new object with its control block and first shared_ptr
    | Null(kind: Kind, h: Hid)   // a smart pointer that owns nothing
    | StartGet(src: Hid)         // copy or alias constructor of shared_ptr
    | AddUse(h: Hid)
    | StartPut(h: Hid)           // destructor of shared_ptr
    | SubUse
    | DestroyObject
    | SubImplicit
    | DeleteBlock
    | StartWeakGet(src: Hid)     // weak_ptr from a weak_ptr or a shared_ptr
    | AddWeak(h: Hid)
    | StartWeakPut(h: Hid)       // destructor of weak_ptr
    | SubWeak
    | StartLock(w: Hid)
    | TryLock(h: Hid, spurious: bool)
    | DropNull(h: Hid)           // destructor of a smart pointer that owns nothing
    | MoveTo(h: Hid, to: Hid)    // move constructor
    | Swap(h: Hid, k: Hid)
    | Hand(h: Hid, to: Tid)      // passed to another thread

  // ----- one step -----

  predicate Owns(s: State, t: Tid, h: Hid) {
    h in s.handles && s.handles[h].owner == t
  }

  predicate OwnsKind(s: State, t: Tid, h: Hid, kind: Kind) {
    Owns(s, t, h) && s.handles[h].kind == kind && s.handles[h].block.Some?
  }

  /** A thread may use only smart pointers it holds, and new names must be new. */
  predicate Enabled(s: State, t: Tid, a: Action) {
    t in s.pcs &&
    var pc := s.pcs[t];
    match a
    case Make(b, h) => pc.Idle? && b !in s.blocks && h !in s.handles
    case Null(_, h) => pc.Idle? && h !in s.handles
    case StartGet(src) => pc.Idle? && OwnsKind(s, t, src, Strong)
    case AddUse(h) => pc.Getting? && h !in s.handles
    case StartPut(h) => pc.Idle? && OwnsKind(s, t, h, Strong)
    case SubUse => pc.Putting?
    case DestroyObject => pc.Destroying?
    case SubImplicit => pc.Releasing?
    case DeleteBlock => pc.Deleting?
    case StartWeakGet(src) => pc.Idle? && Owns(s, t, src) && s.handles[src].block.Some?
    case AddWeak(h) => pc.WeakGetting? && h !in s.handles
    case StartWeakPut(h) => pc.Idle? && OwnsKind(s, t, h, Weak)
    case SubWeak => pc.WeakPutting?
    case StartLock(w) => pc.Idle? && OwnsKind(s, t, w, Weak)
    case TryLock(h, _) => pc.Locking? && h !in s.handles
    case DropNull(h) => pc.Idle? && Owns(s, t, h) && s.handles[h].block.None?
    case MoveTo(h, to) => pc.Idle? && Owns(s, t, h) && to !in s.handles
    case Swap(h, k) => pc.Idle? && Owns(s, t, h) && Owns(s, t, k) && s.handles[h].kind == s.handles[k].kind
    case Hand(h, to) => pc.Idle? && Owns(s, t, h) && to in s.pcs
  }

  /** The control block the thread's next access goes to. */
  function Target(pc: Pc): Option<Bid> {
    match pc
    case Idle => None
    case _ => Some(pc.b)
  }

  /** The access succeeds in taking a strong reference. */
  predicate Locks(k: Block, pc: Pc, a: Action) {
    a.TryLock? && pc.Locking? && 0 < pc.oldVal == k.use && !a.spurious
  }

  /** What the acting thread's access does to the control block it goes to. */
  function BlockAfter(k: Block, t: Tid, pc: Pc, a: Action): Block {
    match a
    case AddUse(_) => k.(use := k.use + 1)
    case SubUse => if k.use == 1 then k.(use := 0, life := Dying(t)) else k.(use := k.use - 1)
    case DestroyObject => k.(destroyed := k.destroyed + 1)
    case SubImplicit =>
      if k.weak == 1 then k.(weak := 0, life := Dead, memory := Leaving(t))
      else k.(weak := k.weak - 1, life := Dead)
    case DeleteBlock => k.(deleted := k.deleted + 1, memory := Gone)
    case AddWeak(_) => k.(weak := k.weak + 1)
    case SubWeak => if k.weak == 1 then k.(weak := 0, memory := Leaving(t)) else k.(weak := k.weak - 1)
    case TryLock(_, _) => if Locks(k, pc, a) then k.(use := k.use + 1) else k
    case _ => k
  }

  /** Where the acting thread goes; `k` is the block it has accessed. */
  function PcAfter(k: Block, pc: Pc, a: Action): Pc
    requires a.SubUse? || a.DestroyObject? || a.SubImplicit? || a.SubWeak? ==> !pc.Idle?
  {
    match a
    case SubUse => if k.use == 1 then Destroying(pc.b) else Idle
    case DestroyObject => Releasing(pc.b)
    case SubImplicit => if k.weak == 1 then Deleting(pc.b) else Idle
    case SubWeak => if k.weak == 1 then Deleting(pc.b) else Idle
    case TryLock(_, _) =>
      if pc.Locking? && 0 < pc.oldVal && !Locks(k, pc, a) then pc.(oldVal := k.use) else Idle
    case _ => Idle
  }

  /** The smart pointers after the step. */
  function HandlesAfter(hs: map<Hid, Handle>, k: Block, t: Tid, pc: Pc, a: Action): map<Hid, Handle>
    requires a.AddUse? || a.AddWeak? || a.TryLock? ==> !pc.Idle?
    requires a.SubUse? ==> pc.Putting?
    requires a.SubWeak? ==> pc.WeakPutting?
    requires a.MoveTo? || a.Swap? || a.Hand? ==> a.h in hs
    requires a.Swap? ==> a.k in hs
  {
    match a
    case Make(b, h) => hs[h := Handle(Strong, Some(b), t)]
    case Null(kind, h) => hs[h := Handle(kind, None, t)]
    case AddUse(h) => hs[h := Handle(Strong, Some(pc.b), t)]
    case AddWeak(h) => hs[h := Handle(Weak, Some(pc.b), t)]
    case TryLock(h, _) => if Locks(k, pc, a) then hs[h := Handle(Strong, Some(pc.b), t)] else hs
    case SubUse => hs - {pc.h}
    case SubWeak => hs - {pc.h}
    case DropNull(h) => hs - {h}
    case MoveTo(h, to) => hs[to := hs[h]][h := hs[h].(block := None)]
    case Swap(h, j) => hs[h := hs[h].(block := hs[j].block)][j := hs[j].(block := hs[h].block)]
    case Hand(h, to) => hs[h := hs[h].(owner := to)]
    case _ => hs
  }

  const NEW := Block(1, 1, 0, 0, Alive, Kept)

  /** The block that the step concerns: the new one, the handle's, or the target of the access. */
  function Concerned(s: State, t: Tid, a: Action): Option<Bid>
    requires Enabled(s, t, a)
  {
    match a
    case Make(b, _) => Some(b)
    case StartGet(h) => s.handles[h].block
    case StartPut(h) => s.handles[h].block
    case StartWeakGet(h) => s.handles[h].block
    case StartWeakPut(h) => s.handles[h].block
    case StartLock(w) => s.handles[w].block
    case _ => Target(s.pcs[t])
  }

  /** The block that the step goes to exists; in every reachable state it does. */
  predicate Defined(s: State, t: Tid, a: Action)
    requires Enabled(s, t, a)
  {
    a.Make? || Concerned(s, t, a).None? || Concerned(s, t, a).value in s.blocks
  }

  function Next(s: State, t: Tid, a: Action): State
    requires Enabled(s, t, a) && Defined(s, t, a)
  {
    var pc, c := s.pcs[t], Concerned(s, t, a);
    var k := if a.Make? || c.None? then NEW else s.blocks[c.value];
    var pc' := match a
      case StartGet(h) => Getting(h, c.value)
      case StartPut(h) => Putting(h, c.value)
      case StartWeakGet(h) => WeakGetting(h, c.value)
      case StartWeakPut(h) => WeakPutting(h, c.value)
      case StartLock(w) => Locking(w, c.value, k.use)
      case _ => PcAfter(k, pc, a);
    State(if c.None? then s.blocks else s.blocks[c.value := BlockAfter(k, t, pc, a)],
          HandlesAfter(s.handles, k, t, pc, a), s.pcs[t := pc'])
  }

  // ----- the invariant -----

  /** The smart pointers of one kind that refer to a control block. */
  ghost function Refs(hs: map<Hid, Handle>, b: Bid, kind: Kind): set<Hid> {
    set h | h in hs && RefersTo(hs[h], b, kind)
  }

  ghost predicate RefersTo(k: Handle, b: Bid, kind: Kind) { k.kind == kind && k.block == Some(b) }

  ghost predicate Holds(hs: map<Hid, Handle>, t: Tid, h: Hid, b: Bid) {
    h in hs && hs[h].owner == t && hs[h].block == Some(b)
  }

  /** A busy thread holds the smart pointer it works on, or the duty it has taken over. */
  ghost predicate PcOk(pc: Pc, t: Tid, hs: map<Hid, Handle>, blocks: map<Bid, Block>) {
    match pc
    case Idle => true
    case Getting(h, b) => Holds(hs, t, h, b) && hs[h].kind == Strong
    case Putting(h, b) => Holds(hs, t, h, b) && hs[h].kind == Strong
    case WeakGetting(h, b) => Holds(hs, t, h, b)
    case WeakPutting(h, b) => Holds(hs, t, h, b) && hs[h].kind == Weak
    case Locking(h, b, _) => Holds(hs, t, h, b) && hs[h].kind == Weak
    case Destroying(b) => b in blocks && blocks[b].life == Dying(t) && blocks[b].destroyed == 0
    case Releasing(b) => b in blocks && blocks[b].life == Dying(t) && blocks[b].destroyed == 1
    case Deleting(b) => b in blocks && blocks[b].memory == Leaving(t)
  }

  ghost function DyingPc(k: Block, b: Bid): Pc { if k.destroyed == 0 then Destroying(b) else Releasing(b) }

  /** A control block against the numbers of smart pointers that refer to it. */
  ghost predicate BlockOk(k: Block, b: Bid, strong: nat, weak: nat, pcs: map<Tid, Pc>) {
    // the counts are the numbers of smart pointers; the strong ones share one weak count
    && k.use == strong
    && k.weak == weak + (if k.life.Dead? then 0 else 1)
    // the object lives as long as it is used, and someone takes care of a dying one
    && (k.life.Alive? <==> k.use > 0)
    && (k.life.Alive? ==> k.destroyed == 0)
    && (k.life.Dead? ==> k.destroyed == 1)
    && (k.life.Dying? ==> k.life.t in pcs && pcs[k.life.t] == DyingPc(k, b))
    // the same for the control block
    && (k.memory.Kept? <==> k.weak > 0)
    && k.deleted == (if k.memory.Gone? then 1 else 0)
    && (k.memory.Leaving? ==> k.memory.t in pcs && pcs[k.memory.t] == Deleting(b))
  }

  ghost predicate Inv(s: State) {
    && (forall h :: h in s.handles && s.handles[h].block.Some? ==> s.handles[h].block.value in s.blocks)
    && (forall t :: t in s.pcs ==> PcOk(s.pcs[t], t, s.handles, s.blocks))
    && (forall b :: b in s.blocks ==>
          BlockOk(s.blocks[b], b, |Refs(s.handles, b, Strong)|, |Refs(s.handles, b, Weak)|, s.pcs))
  }

  lemma HandleKeepsBlock(s: State, h: Hid)
    requires Inv(s) && h in s.handles && s.handles[h].block.Some?
    ensures var b := s.handles[h].block.value;
            && b in s.blocks && s.blocks[b].weak > 0 && s.blocks[b].memory.Kept?
            && |Refs(s.handles, b, s.handles[h].kind)| > 0
            && (s.handles[h].kind.Strong? ==> s.blocks[b].use > 0 && s.blocks[b].life.Alive?)
  {
    assert h in Refs(s.handles, s.handles[h].block.value, s.handles[h].kind);
  }

  /** Every access goes to a block that has not been deleted, and the assertions of the code hold. */
  lemma AccessIsSafe(s: State, t: Tid)
    requires Inv(s) && t in s.pcs && Target(s.pcs[t]).Some?
    ensures var pc := s.pcs[t];
            && pc.b in s.blocks && s.blocks[pc.b].deleted == 0
            && (pc.Getting? || pc.Putting? ==> s.blocks[pc.b].use > 0)
            && (pc.WeakGetting? || pc.WeakPutting? || pc.Locking? || pc.Releasing? ==> s.blocks[pc.b].weak > 0)
            && (pc.WeakPutting? && s.blocks[pc.b].weak == 1 ==> s.blocks[pc.b].use == 0)
            && (pc.Deleting? ==> s.blocks[pc.b].use == 0)
  {
    var pc := s.pcs[t];
    assert PcOk(pc, t, s.handles, s.blocks);
    match pc
    case Idle =>
    case Getting(h, b) => HandleKeepsBlock(s, h);
    case Putting(h, b) => HandleKeepsBlock(s, h);
    case WeakGetting(h, b) => HandleKeepsBlock(s, h);
    case WeakPutting(h, b) => HandleKeepsBlock(s, h);
    case Locking(h, b, _) => HandleKeepsBlock(s, h);
    case _ =>
  }

  // ----- how the numbers of references change -----

  lemma AddRef(hs: map<Hid, Handle>, h: Hid, k: Handle, b: Bid, kind: Kind)
    requires h !in hs
    ensures |Refs(hs[h := k], b, kind)| == |Refs(hs, b, kind)| + One(RefersTo(k, b, kind))
  {
    assert Refs(hs[h := k], b, kind) == Refs(hs, b, kind) + if RefersTo(k, b, kind) then {h} else {};
  }

  lemma DropRef(hs: map<Hid, Handle>, h: Hid, b: Bid, kind: Kind)
    requires h in hs
    ensures |Refs(hs - {h}, b, kind)| == |Refs(hs, b, kind)| - One(RefersTo(hs[h], b, kind))
  {
    assert Refs(hs - {h}, b, kind) == Refs(hs, b, kind) - {h};
  }

  lemma SetRef(hs: map<Hid, Handle>, h: Hid, k: Handle, b: Bid, kind: Kind)
    requires h in hs
    ensures |Refs(hs[h := k], b, kind)|
         == |Refs(hs, b, kind)| - One(RefersTo(hs[h], b, kind)) + One(RefersTo(k, b, kind))
  {
    DropRef(hs, h, b, kind);
    AddRef(hs - {h}, h, k, b, kind);
    assert (hs - {h})[h := k] == hs[h := k];
  }

  /** How many references of a kind to block `b` a step adds; `k` is the accessed block. */
  ghost function Change(k: Block, pc: Pc, a: Action, b: Bid, kind: Kind): int {
    match a
    case Make(b0, _) => One(b == b0 && kind.Strong?)
    case AddUse(_) => One(Target(pc) == Some(b) && kind.Strong?)
    case AddWeak(_) => One(Target(pc) == Some(b) && kind.Weak?)
    case TryLock(_, _) => One(Target(pc) == Some(b) && kind.Strong? && Locks(k, pc, a))
    case SubUse => -One(Target(pc) == Some(b) && kind.Strong?)
    case SubWeak => -One(Target(pc) == Some(b) && kind.Weak?)
    case _ => 0
  }

  lemma CountsAfter(hs: map<Hid, Handle>, k: Block, t: Tid, pc: Pc, a: Action, b: Bid, kind: Kind)
    requires a.AddUse? || a.AddWeak? || a.TryLock? ==> !pc.Idle?
    requires a.Make? || a.Null? || a.AddUse? || a.AddWeak? || a.TryLock? ==> a.h !in hs
    requires a.SubUse? ==> pc.Putting? && Holds(hs, t, pc.h, pc.b) && hs[pc.h].kind == Strong
    requires a.SubWeak? ==> pc.WeakPutting? && Holds(hs, t, pc.h, pc.b) && hs[pc.h].kind == Weak
    requires a.MoveTo? || a.Swap? || a.Hand? || a.DropNull? ==> a.h in hs
    requires a.DropNull? ==> hs[a.h].block == None
    requires a.MoveTo? ==> a.to !in hs
    requires a.Swap? ==> a.k in hs && hs[a.h].kind == hs[a.k].kind
    ensures |Refs(HandlesAfter(hs, k, t, pc, a), b, kind)| == |Refs(hs, b, kind)| + Change(k, pc, a, b, kind)
  {
    match a
    case Make(b0, h) => AddRef(hs, h, Handle(Strong, Some(b0), t), b, kind);
    case Null(kind0, h) => AddRef(hs, h, Handle(kind0, None, t), b, kind);
    case AddUse(h) => AddRef(hs, h, Handle(Strong, Some(pc.b), t), b, kind);
    case AddWeak(h) => AddRef(hs, h, Handle(Weak, Some(pc.b), t), b, kind);
    case TryLock(h, _) => AddRef(hs, h, Handle(Strong, Some(pc.b), t), b, kind);
    case SubUse => DropRef(hs, pc.h, b, kind);
    case SubWeak => DropRef(hs, pc.h, b, kind);
    case DropNull(h) => DropRef(hs, h, b, kind);
    case MoveTo(h, to) =>
      AddRef(hs, to, hs[h], b, kind);
      SetRef(hs[to := hs[h]], h, hs[h].(block := None), b, kind);
    case Swap(h, j) =>
      SetRef(hs, h, hs[h].(block := hs[j].block), b, kind);
      SetRef(hs[h := hs[h].(block := hs[j].block)], j, hs[j].(block := hs[h].block), b, kind);
    case Hand(h, to) => SetRef(hs, h, hs[h].(owner := to), b, kind);
    case _ =>
  }

  // ----- every step keeps the invariant -----

  /** A busy thread accesses the block its program counter names, an idle one changes no existing block. */
  lemma StepShape(s: State, t: Tid, a: Action)
    requires Enabled(s, t, a) && Defined(s, t, a)
    ensures var s', pc := Next(s, t, a), s.pcs[t];
            && t in s'.pcs && s'.pcs == s.pcs[t := s'.pcs[t]]
            && (pc.Idle? ==> s'.blocks == if a.Make? then s.blocks[a.b := NEW] else s.blocks)
            && (!pc.Idle? ==>
                 && pc.b in s.blocks && s'.blocks == s.blocks[pc.b := BlockAfter(s.blocks[pc.b], t, pc, a)]
                 && s'.pcs[t] == PcAfter(s.blocks[pc.b], pc, a)
                 && (a.AddUse? || a.SubUse? || a.DestroyObject? || a.SubImplicit? || a.DeleteBlock? || a.AddWeak?
                     || a.SubWeak? || a.TryLock?))
  {
    hide HandlesAfter;
    if s.pcs[t].Idle? && Concerned(s, t, a).Some? && !a.Make? {
      var c := Concerned(s, t, a).value;
      assert s.blocks[c := s.blocks[c]] == s.blocks;
    }
  }

  /** The numbers of references after a step. */
  lemma StepCounts(s: State, t: Tid, a: Action, b: Bid, kind: Kind)
    requires Enabled(s, t, a) && Defined(s, t, a) && PcOk(s.pcs[t], t, s.handles, s.blocks)
    ensures var k := if s.pcs[t].Idle? then NEW else s.blocks[s.pcs[t].b];
            |Refs(Next(s, t, a).handles, b, kind)| == |Refs(s.handles, b, kind)| + Change(k, s.pcs[t], a, b, kind)
  {
    var c := Concerned(s, t, a);
    var k := if a.Make? || c.None? then NEW else s.blocks[c.value];
    CountsAfter(s.handles, k, t, s.pcs[t], a, b, kind);
    hide Refs, HandlesAfter, BlockAfter, PcAfter;
  }

  /** The step is one its program counter allows, with what the counter stands for. */
  ghost predicate Justified(k: Block, b: Bid, strong: nat, weak: nat, t: Tid, pc: Pc, a: Action) {
    && (a.AddUse? ==> pc.Getting? && strong > 0)
    && (a.SubUse? ==> pc.Putting? && strong > 0)
    && (a.DestroyObject? ==> pc == Destroying(b) && k.life == Dying(t) && k.destroyed == 0)
    && (a.SubImplicit? ==> pc == Releasing(b) && k.life == Dying(t) && k.destroyed == 1)
    && (a.DeleteBlock? ==> pc == Deleting(b) && k.memory == Leaving(t))
    && (a.AddWeak? ==> pc.WeakGetting? && k.weak > 0)
    && (a.SubWeak? ==> pc.WeakPutting? && weak > 0)
    && (a.TryLock? ==> pc.Locking?)
  }

  /** The block that is accessed stays in order. */
  lemma BlockStep(k: Block, b: Bid, strong: nat, weak: nat, pcs: map<Tid, Pc>, t: Tid, a: Action)
    requires BlockOk(k, b, strong, weak, pcs) && t in pcs && Target(pcs[t]) == Some(b)
    requires Justified(k, b, strong, weak, t, pcs[t], a)
    requires a.AddUse? || a.SubUse? || a.DestroyObject? || a.SubImplicit? || a.DeleteBlock? || a.AddWeak?
             || a.SubWeak? || a.TryLock?
    ensures strong + Change(k, pcs[t], a, b, Strong) >= 0 && weak + Change(k, pcs[t], a, b, Weak) >= 0
    ensures BlockOk(BlockAfter(k, t, pcs[t], a), b,
                    strong + Change(k, pcs[t], a, b, Strong), weak + Change(k, pcs[t], a, b, Weak),
                    pcs[t := PcAfter(k, pcs[t], a)])
  {
  }

  /** A block is not affected by a thread that accesses another one. */
  lemma OtherBlock(k: Block, b: Bid, strong: nat, weak: nat, pcs: map<Tid, Pc>, t: Tid, pc: Pc)
    requires BlockOk(k, b, strong, weak, pcs) && t in pcs && Target(pcs[t]) != Some(b)
    ensures BlockOk(k, b, strong, weak, pcs[t := pc])
  {
  }

  lemma BlocksAfterStep(s: State, t: Tid, a: Action, b: Bid)
    requires Inv(s) && Enabled(s, t, a) && Defined(s, t, a) && b in s.blocks
    ensures var s' := Next(s, t, a);
            b in s'.blocks &&
            BlockOk(s'.blocks[b], b, |Refs(s'.handles, b, Strong)|, |Refs(s'.handles, b, Weak)|, s'.pcs)
  {
    hide Inv, BlockOk, Next, BlockAfter, PcAfter, Refs, PcOk, Justified;
    var strong, weak := |Refs(s.handles, b, Strong)|, |Refs(s.handles, b, Weak)|;
    InvOf(s, t);
    InvAt(s, b);
    StepShape(s, t, a);
    StepCounts(s, t, a, b, Strong);
    StepCounts(s, t, a, b, Weak);
    if Target(s.pcs[t]) == Some(b) {
      JustifiedStep(s, t, a);
      BlockStep(s.blocks[b], b, strong, weak, s.pcs, t, a);
    } else {
      OtherBlock(s.blocks[b], b, strong, weak, s.pcs, t, Next(s, t, a).pcs[t]);
    }
  }

  lemma JustifiedStep(s: State, t: Tid, a: Action)
    requires Inv(s) && Enabled(s, t, a) && Target(s.pcs[t]).Some?
    ensures var pc := s.pcs[t];
            pc.b in s.blocks &&
            Justified(s.blocks[pc.b], pc.b, |Refs(s.handles, pc.b, Strong)|, |Refs(s.handles, pc.b, Weak)|, t, pc, a)
  {
    var pc := s.pcs[t];
    AccessIsSafe(s, t);
    assert PcOk(pc, t, s.handles, s.blocks);
    if pc.WeakPutting? { HandleKeepsBlock(s, pc.h); }
  }

  lemma NewBlock(s: State, t: Tid, a: Action)
    requires Inv(s) && Enabled(s, t, a) && a.Make?
    ensures var s' := Next(s, t, a);
            BlockOk(s'.blocks[a.b], a.b, |Refs(s'.handles, a.b, Strong)|, |Refs(s'.handles, a.b, Weak)|, s'.pcs)
  {
    CountsAfter(s.handles, NEW, t, s.pcs[t], a, a.b, Strong);
    CountsAfter(s.handles, NEW, t, s.pcs[t], a, a.b, Weak);
    assert Refs(s.handles, a.b, Strong) == {} && Refs(s.handles, a.b, Weak) == {};
  }

  /** The acting thread ends with what its new program counter stands for. */
  lemma OwnPcAfterStep(s: State, t: Tid, a: Action)
    requires Inv(s) && Enabled(s, t, a)
    requires Defined(s, t, a)
    ensures var s' := Next(s, t, a); PcOk(s'.pcs[t], t, s'.handles, s'.blocks)
  {
    assert PcOk(s.pcs[t], t, s.handles, s.blocks);
    if s.pcs[t].Idle? {
      PcAfterStart(s, t, a);
    } else if a.TryLock? {
      PcAfterLock(s, t, a);
    } else {
      JustifiedStep(s, t, a);
      StepShape(s, t, a);
      hide Inv, Refs, Next, HandlesAfter;
    }
  }

  lemma PcAfterStart(s: State, t: Tid, a: Action)
    requires Enabled(s, t, a) && Defined(s, t, a) && s.pcs[t].Idle?
    ensures var s' := Next(s, t, a); PcOk(s'.pcs[t], t, s'.handles, s'.blocks)
  {
    hide BlockAfter;
  }

  lemma PcAfterLock(s: State, t: Tid, a: Action)
    requires Enabled(s, t, a) && Defined(s, t, a) && a.TryLock? && PcOk(s.pcs[t], t, s.handles, s.blocks)
    ensures var s' := Next(s, t, a); PcOk(s'.pcs[t], t, s'.handles, s'.blocks)
  {
    hide BlockAfter;
  }

  /** A block in someone's care is not taken over by a step of another thread. */
  lemma CareIsKept(k: Block, b: Bid, strong: nat, weak: nat, pcs: map<Tid, Pc>, t: Tid, a: Action, u: Tid)
    requires BlockOk(k, b, strong, weak, pcs) && t in pcs && Justified(k, b, strong, weak, t, pcs[t], a)
    requires u != t
    ensures var k' := BlockAfter(k, t, pcs[t], a);
            && (k.life == Dying(u) ==> k'.life == Dying(u) && k'.destroyed == k.destroyed)
            && (k.memory == Leaving(u) ==> k'.memory == Leaving(u))
  {
  }

  lemma OthersKeepTheirs(s: State, t: Tid, a: Action, h: Hid)
    requires Enabled(s, t, a) && Defined(s, t, a) && PcOk(s.pcs[t], t, s.handles, s.blocks)
    requires h in s.handles && s.handles[h].owner != t
    ensures h in Next(s, t, a).handles && Next(s, t, a).handles[h] == s.handles[h]
  {
    hide BlockAfter, PcAfter;
  }

  /** No step pulls the ground from under another thread. */
  lemma OtherPcAfterStep(s: State, t: Tid, a: Action, u: Tid)
    requires Inv(s) && Enabled(s, t, a) && Defined(s, t, a) && u in s.pcs && u != t
    ensures var s' := Next(s, t, a); u in s'.pcs && PcOk(s'.pcs[u], u, s'.handles, s'.blocks)
  {
    hide Inv, Refs, BlockAfter, PcAfter, BlockOk, Justified, Next;
    var pc, pu := s.pcs[t], s.pcs[u];
    InvOf(s, t);
    InvOf(s, u);
    StepShape(s, t, a);
    if pu.Destroying? || pu.Releasing? || pu.Deleting? {
      if Target(pc) == Some(pu.b) {
        JustifiedStep(s, t, a);
        InvAt(s, pc.b);
        var strong, weak := |Refs(s.handles, pc.b, Strong)|, |Refs(s.handles, pc.b, Weak)|;
        CareIsKept(s.blocks[pc.b], pc.b, strong, weak, s.pcs, t, a, u);
      }
    } else if !pu.Idle? {
      OthersKeepTheirs(s, t, a, if pu.Getting? || pu.WeakGetting? then pu.src else if pu.Locking? then pu.w else pu.h);
    }
  }

  lemma InvOf(s: State, t: Tid)
    requires Inv(s) && t in s.pcs
    ensures PcOk(s.pcs[t], t, s.handles, s.blocks)
  {
  }

  lemma InvAt(s: State, b: Bid)
    requires Inv(s) && b in s.blocks
    ensures BlockOk(s.blocks[b], b, |Refs(s.handles, b, Strong)|, |Refs(s.handles, b, Weak)|, s.pcs)
  {
  }

  lemma ConcernedExists(s: State, t: Tid, a: Action)
    requires Inv(s) && Enabled(s, t, a)
    ensures Defined(s, t, a)
  {
    if Target(s.pcs[t]).Some? { AccessIsSafe(s, t); }
  }

  lemma StepKeepsInv(s: State, t: Tid, a: Action)
    requires Inv(s) && Enabled(s, t, a)
    ensures Defined(s, t, a)
    ensures Inv(Next(s, t, a))
  {
    ConcernedExists(s, t, a);
    var s' := Next(s, t, a);
    HandlesStayRooted(s, t, a);
    forall b | b in s'.blocks
      ensures BlockOk(s'.blocks[b], b, |Refs(s'.handles, b, Strong)|, |Refs(s'.handles, b, Weak)|, s'.pcs)
    {
      if b in s.blocks { BlocksAfterStep(s, t, a, b); } else { NewBlock(s, t, a); }
    }
    forall u | u in s'.pcs ensures PcOk(s'.pcs[u], u, s'.handles, s'.blocks) {
      if u == t { OwnPcAfterStep(s, t, a); } else { OtherPcAfterStep(s, t, a, u); }
    }
  }

  lemma HandlesStayRooted(s: State, t: Tid, a: Action)
    requires Inv(s) && Enabled(s, t, a)
    requires Defined(s, t, a)
    ensures var s' := Next(s, t, a);
            forall h :: h in s'.handles && s'.handles[h].block.Some? ==> s'.handles[h].block.value in s'.blocks
  {
    hide PcOk, BlockOk, BlockAfter, PcAfter, Refs;
  }

  // ----- runs -----

  ghost predicate Init(s: State) {
    s.blocks == map[] && s.handles == map[] && forall t :: t in s.pcs ==> s.pcs[t] == Idle
  }

  /** `trace` is a run: each state follows from the one before by a step of some thread. */
  ghost predicate IsRun(trace: seq<State>, steps: seq<(Tid, Action)>) {
    && |trace| == |steps| + 1
    && Init(trace[0])
    && forall i :: 0 <= i < |steps| ==>
         && Enabled(trace[i], steps[i].0, steps[i].1)
         && Defined(trace[i], steps[i].0, steps[i].1)
         && trace[i + 1] == Next(trace[i], steps[i].0, steps[i].1)
  }

  lemma {:induction false} RunKeepsInv(trace: seq<State>, steps: seq<(Tid, Action)>, i: nat)
    requires IsRun(trace, steps) && i < |trace|
    ensures Inv(trace[i])
  {
    if i > 0 {
      RunKeepsInv(trace, steps, i - 1);
      StepKeepsInv(trace[i - 1], steps[i - 1].0, steps[i - 1].1);
    }
  }

  /** In a reachable state every step that a thread may take finds its control block. */
  lemma StepsAreDefined(trace: seq<State>, steps: seq<(Tid, Action)>, i: nat, t: Tid, a: Action)
    requires IsRun(trace, steps) && i < |trace| && Enabled(trace[i], t, a)
    ensures Defined(trace[i], t, a)
  {
    RunKeepsInv(trace, steps, i);
    StepKeepsInv(trace[i], t, a);
  }

  /**
   Safety at every point of every run: the counts are the numbers of smart pointers, the
   object is destroyed at most once and never while a shared_ptr refers to it, and the
   control block is deleted at most once, after which no smart pointer and no thread in
   the middle of an operation refers to it.
   */
  lemma RunIsSafe(trace: seq<State>, steps: seq<(Tid, Action)>, i: nat, b: Bid)
    requires IsRun(trace, steps) && i < |trace| && b in trace[i].blocks
    ensures var s := trace[i];
            var k := s.blocks[b];
            && k.use == |Refs(s.handles, b, Strong)|
            && |Refs(s.handles, b, Weak)| <= k.weak <= |Refs(s.handles, b, Weak)| + 1
            && k.destroyed <= 1 && k.deleted <= 1
            && (k.destroyed == 1 ==> Refs(s.handles, b, Strong) == {})
            && (k.deleted == 1 ==> k.destroyed == 1 && Refs(s.handles, b, Weak) == {})
            && (k.deleted == 1 ==> forall t :: t in s.pcs ==> Target(s.pcs[t]) != Some(b))
  {
    RunKeepsInv(trace, steps, i);
    var s := trace[i];
    forall t | t in s.pcs && Target(s.pcs[t]).Some? ensures s.blocks[Target(s.pcs[t]).value].deleted == 0 {
      AccessIsSafe(s, t);
    }
  }

  /** With no operation under way the object is gone iff it has no shared_ptr, the block iff it has no pointer. */
  lemma QuiescentIsClean(trace: seq<State>, steps: seq<(Tid, Action)>, i: nat, b: Bid)
    requires IsRun(trace, steps) && i < |trace| && b in trace[i].blocks
    requires forall t :: t in trace[i].pcs ==> trace[i].pcs[t].Idle?
    ensures var s := trace[i];
            && (s.blocks[b].destroyed == 1 <==> Refs(s.handles, b, Strong) == {})
            && (s.blocks[b].deleted == 1 <==> Refs(s.handles, b, Strong) == {} && Refs(s.handles, b, Weak) == {})
  {
    RunKeepsInv(trace, steps, i);
  }

  lemma UseStaysZero(s: State, t: Tid, a: Action, b: Bid)
    requires Inv(s) && Enabled(s, t, a) && Defined(s, t, a)
    requires b in s.blocks && s.blocks[b].use == 0
    ensures b in Next(s, t, a).blocks && Next(s, t, a).blocks[b].use == 0
    ensures s.blocks[b].destroyed <= Next(s, t, a).blocks[b].destroyed
  {
    StepShape(s, t, a);
    if Target(s.pcs[t]) == Some(b) { JustifiedStep(s, t, a); }
    hide Next, Inv, PcAfter, Refs;
  }

  lemma NoUseNoRefs(s: State, b: Bid)
    requires Inv(s) && b in s.blocks && s.blocks[b].use == 0
    ensures Refs(s.handles, b, Strong) == {}
  {
  }

  /** `lock` never revives an object: once the last shared_ptr is gone, none ever appears again. */
  lemma {:induction false} NoRevival(trace: seq<State>, steps: seq<(Tid, Action)>, i: nat, j: nat, b: Bid)
    requires IsRun(trace, steps) && i <= j < |trace|
    requires b in trace[i].blocks && trace[i].blocks[b].use == 0
    ensures b in trace[j].blocks && trace[j].blocks[b].use == 0
    ensures Refs(trace[j].handles, b, Strong) == {}
    ensures trace[i].blocks[b].destroyed <= trace[j].blocks[b].destroyed
    decreases j
  {
    hide Inv, Next, Enabled, Defined, Refs, Init;
    RunKeepsInv(trace, steps, j);
    if i < j {
      NoRevival(trace, steps, i, j - 1, b);
      RunKeepsInv(trace, steps, j - 1);
      UseStaysZero(trace[j - 1], steps[j - 1].0, steps[j - 1].1, b);
    }
    NoUseNoRefs(trace[j], b);
  }

  // ----- what the operations give back -----

  /** Thread `t` takes the actions at `i` and at `j`, and no other in between. */
  ghost predicate Consecutive(steps: seq<(Tid, Action)>, i: nat, j: nat, t: Tid) {
    && i < j < |steps| && steps[i].0 == t && steps[j].0 == t
    && forall k :: i < k < j ==> steps[k].0 != t
  }

  /** A step of one thread does not move another. */
  lemma OthersStayPut(s: State, u: Tid, a: Action, t: Tid)
    requires Enabled(s, u, a) && Defined(s, u, a) && t in s.pcs && t != u
    ensures t in Next(s, u, a).pcs && Next(s, u, a).pcs[t] == s.pcs[t]
  {
    hide HandlesAfter, BlockAfter, PcAfter;
  }

  lemma {:induction false} StaysPut(trace: seq<State>, steps: seq<(Tid, Action)>, i: nat, j: nat, t: Tid)
    requires IsRun(trace, steps) && i <= j < |trace| && t in trace[i].pcs
    requires forall k :: i <= k < j ==> steps[k].0 != t
    ensures t in trace[j].pcs && trace[j].pcs[t] == trace[i].pcs[t]
    decreases j
  {
    hide Init, Enabled, Defined, Next;
    if i < j {
      StaysPut(trace, steps, i, j - 1, t);
      OthersStayPut(trace[j - 1], steps[j - 1].0, steps[j - 1].1, t);
    }
  }

  /** A copy refers to the block that its original refers to, from the start of the copying to its end. */
  lemma CopyRefersToTheSame(trace: seq<State>, steps: seq<(Tid, Action)>, i: nat, j: nat, t: Tid, src: Hid, h: Hid)
    requires IsRun(trace, steps) && Consecutive(steps, i, j, t)
    requires var a, e := steps[i].1, steps[j].1;
             (a == StartGet(src) && e == AddUse(h)) || (a == StartWeakGet(src) && e == AddWeak(h))
    ensures src in trace[i].handles && src in trace[j].handles && trace[j].handles[src] == trace[i].handles[src]
    ensures trace[j + 1].handles == trace[j].handles[
      h := Handle(if steps[j].1.AddUse? then Strong else Weak, trace[i].handles[src].block, t)]
  {
    StaysPut(trace, steps, i + 1, j, t);
    RunKeepsInv(trace, steps, j);
    HeldThroughout(trace, steps, i + 1, j, t, src);
    assert trace[i + 1] == Next(trace[i], steps[i].0, steps[i].1) && trace[j + 1] == Next(trace[j], t, steps[j].1);
    hide Inv, IsRun;
  }

  /** What a thread holds is not taken away by others. */
  lemma {:induction false} HeldThroughout(trace: seq<State>, steps: seq<(Tid, Action)>, i: nat, j: nat, t: Tid, h: Hid)
    requires IsRun(trace, steps) && i <= j < |trace| && h in trace[i].handles && trace[i].handles[h].owner == t
    requires forall k :: i <= k < j ==> steps[k].0 != t
    ensures h in trace[j].handles && trace[j].handles[h] == trace[i].handles[h]
    decreases j
  {
    hide Init, Enabled, Defined, Next, Inv, PcOk;
    if i < j {
      HeldThroughout(trace, steps, i, j - 1, t, h);
      var u, a := steps[j - 1].0, steps[j - 1].1;
      RunKeepsInv(trace, steps, j - 1);
      ActorIsOk(trace[j - 1], u, a);
      OthersKeepTheirs(trace[j - 1], u, a, h);
    }
  }

  lemma ActorIsOk(s: State, t: Tid, a: Action)
    requires Inv(s) && Enabled(s, t, a)
    ensures t in s.pcs && PcOk(s.pcs[t], t, s.handles, s.blocks)
  {
  }

  /** The use count of the block was `val` at some moment from `i` to `j`. */
  ghost predicate CountedSince(trace: seq<State>, i: nat, j: nat, b: Bid, val: int)
    requires j < |trace|
  {
    exists k :: i <= k <= j && b in trace[k].blocks && trace[k].blocks[b].use == val
  }

  /** A step of a locking thread or of another: the block stays, the value stays or is read anew. */
  lemma LockStep(s: State, u: Tid, a: Action, t: Tid)
    requires Enabled(s, u, a) && Defined(s, u, a) && t in s.pcs && s.pcs[t].Locking?
    ensures var s', pc := Next(s, u, a), s.pcs[t];
            && t in s'.pcs
            && (s'.pcs[t].Locking? ==>
                 && s'.pcs[t].b == pc.b
                 && (s'.pcs[t].oldVal == pc.oldVal || (pc.b in s.blocks && s'.pcs[t].oldVal == s.blocks[pc.b].use)))
  {
    hide HandlesAfter, BlockAfter;
  }

  lemma LockStarts(s: State, t: Tid, w: Hid)
    requires Enabled(s, t, StartLock(w)) && Defined(s, t, StartLock(w))
    ensures var s', b := Next(s, t, StartLock(w)), s.handles[w].block.value;
            t in s'.pcs && b in s.blocks && s'.pcs[t] == Locking(w, b, s.blocks[b].use)
  {
  }

  /** What `lock` has read last was the count of its block at some moment since it began. */
  lemma {:induction false} LockHasRead(trace: seq<State>, steps: seq<(Tid, Action)>, i: nat, j: nat, t: Tid, w: Hid)
    requires IsRun(trace, steps) && i < j < |trace| && steps[i] == (t, StartLock(w))
    requires forall k :: i < k <= j ==> t in trace[k].pcs && trace[k].pcs[t].Locking?
    ensures w in trace[i].handles && trace[i].handles[w].block == Some(trace[j].pcs[t].b)
    ensures CountedSince(trace, i, j, trace[j].pcs[t].b, trace[j].pcs[t].oldVal)
    decreases j
  {
    var s, u, a := trace[j - 1], steps[j - 1].0, steps[j - 1].1;
    if i + 1 == j {
      LockStarts(s, t, w);
    } else {
      LockHasRead(trace, steps, i, j - 1, t, w);
      LockStep(s, u, a, t);
      hide IsRun, Next, Enabled, Defined;
      var b, val := trace[j].pcs[t].b, trace[j].pcs[t].oldVal;
      if val == s.pcs[t].oldVal {
        var k :| i <= k <= j - 1 && b in trace[k].blocks && trace[k].blocks[b].use == val;
        assert i <= k <= j;
      }
    }
  }

  /** How `lock` ends: with a pointer, or because it has read zero. */
  lemma LockEnds(s: State, t: Tid, a: Action)
    requires Enabled(s, t, a) && Defined(s, t, a) && a.TryLock? && s.pcs[t].Locking? && Next(s, t, a).pcs[t].Idle?
    ensures var s', pc := Next(s, t, a), s.pcs[t];
            if a.h in s'.handles then s'.handles[a.h] == Handle(Strong, Some(pc.b), t) else pc.oldVal <= 0
  {
    hide BlockAfter;
  }

  /**
   `lock` succeeds on an object that lives throughout: it ends without a new shared_ptr only if
   the use count was zero at some moment since it began, and otherwise the new one is a strong
   handle of the thread to the block of the weak_ptr.
   */
  lemma LockGivesAPointer(trace: seq<State>, steps: seq<(Tid, Action)>, i: nat, j: nat, t: Tid, w: Hid, b: Bid)
    requires IsRun(trace, steps) && i < j < |steps| && steps[i] == (t, StartLock(w))
    requires w in trace[i].handles && trace[i].handles[w].block == Some(b)
    requires forall k :: i < k <= j ==> t in trace[k].pcs && trace[k].pcs[t].Locking?
    requires steps[j].0 == t && steps[j].1.TryLock? && t in trace[j + 1].pcs && trace[j + 1].pcs[t].Idle?
    ensures var h := steps[j].1.h;
            if h in trace[j + 1].handles then trace[j + 1].handles[h] == Handle(Strong, Some(b), t)
            else CountedSince(trace, i, j, b, 0)
  {
    LockHasRead(trace, steps, i, j, t, w);
    assert trace[j + 1] == Next(trace[j], t, steps[j].1);
    LockEnds(trace[j], t, steps[j].1);
    var val := trace[j].pcs[t].oldVal;
    var k :| i <= k <= j && b in trace[k].blocks && trace[k].blocks[b].use == val;
    RunKeepsInv(trace, steps, k);
    CountIsNatural(trace[k], b);
  }

  lemma CountIsNatural(s: State, b: Bid)
    requires Inv(s) && b in s.blocks
    ensures s.blocks[b].use >= 0
  {
  }

  /** `lock` tries again only if the count has changed since it was read, or the exchange failed spuriously. */
  lemma LockTriesAgain(s: State, t: Tid, a: Action)
    requires Inv(s) && Enabled(s, t, a) && Defined(s, t, a) && a.TryLock?
    ensures Next(s, t, a).pcs[t].Locking? <==>
      s.pcs[t].oldVal > 0 && (a.spurious || s.pcs[t].oldVal != s.blocks[s.pcs[t].b].use)
  {
    hide HandlesAfter, BlockAfter;
  }

  /** Undisturbed, `lock` ends at once, with a pointer if and only if there is one already. */
  lemma LockAlone(s: State, t: Tid, w: Hid, h: Hid)
    requires Inv(s) && Enabled(s, t, StartLock(w)) && Defined(s, t, StartLock(w)) && h !in s.handles
    ensures var s1 := Next(s, t, StartLock(w));
            && Enabled(s1, t, TryLock(h, false)) && Defined(s1, t, TryLock(h, false))
            && var s2, b := Next(s1, t, TryLock(h, false)), s.handles[w].block.value;
               && s2.pcs == s.pcs && b in s.blocks
               && s2.handles == (if s.blocks[b].use > 0 then s.handles[h := Handle(Strong, Some(b), t)] else s.handles)
               && s2.blocks == s.blocks[b := s.blocks[b].(use := s.blocks[b].use + One(s.blocks[b].use > 0))]
  {
    LockStarts(s, t, w);
    var s1 := Next(s, t, StartLock(w));
    var s2, b := Next(s1, t, TryLock(h, false)), s.handles[w].block.value;
    assert s1.blocks == s.blocks && s1.handles == s.handles;
    assert s2.pcs == s.pcs;
    assert s.blocks[b := s.blocks[b]] == s.blocks;
    InvAt(s, b);
  }

  /** Move and swap: no handle but the two changes, and they exchange what they refer to. */
  lemma MoveAndSwap(s: State, t: Tid, a: Action)
    requires Enabled(s, t, a) && Defined(s, t, a) && (a.MoveTo? || a.Swap?)
    ensures var s', other := Next(s, t, a), if a.MoveTo? then a.to else a.k;
            && s'.blocks == s.blocks && s'.pcs == s.pcs
            && a.h in s'.handles && other in s'.handles
            && s'.handles[other].block == s.handles[a.h].block
            && s'.handles[a.h].block == (if a.MoveTo? then None else s.handles[a.k].block)
            && s'.handles[other].kind == s'.handles[a.h].kind == s.handles[a.h].kind
            && (forall g :: g != a.h && g != other ==> (g in s'.handles <==> g in s.handles))
            && (forall g :: g in s.handles && g != a.h && g != other ==> s'.handles[g] == s.handles[g])
  {
    assert s.pcs[t := Idle] == s.pcs;
  }

  /** The steps that touch no count: a first pointer, an empty one, one passed on or dropped. */
  lemma OtherHandleSteps(s: State, t: Tid, a: Action)
    requires Enabled(s, t, a) && Defined(s, t, a) && (a.Make? || a.Null? || a.Hand? || a.DropNull?)
    ensures var s' := Next(s, t, a);
            && s'.pcs == s.pcs
            && s'.blocks == (if a.Make? then s.blocks[a.b := NEW] else s.blocks)
            && (a.Make? ==> s'.handles == s.handles[a.h := Handle(Strong, Some(a.b), t)])
            && (a.Null? ==> s'.handles == s.handles[a.h := Handle(a.kind, None, t)])
            && (a.Hand? ==> s'.handles == s.handles[a.h := Handle(s.handles[a.h].kind, s.handles[a.h].block, a.to)])
            && (a.DropNull? ==> s'.handles == s.handles - {a.h})
  {
    assert s.pcs[t := Idle] == s.pcs;
  }
}
