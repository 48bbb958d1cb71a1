/** Lock modes, what a transaction holds, and the runs of the no-wait lock manager. */
module LockModel {
  type TxnId = int

  datatype Item = TableItem(fd: int) | RecordItem(fd: int, page: int, slot: int)
  datatype LockMode = Shared | Exclusive | IntentShared | IntentExclusive | SharedIntentExclusive
  datatype TxnState = Default | Growing | Shrinking | Committed | Aborted
  datatype AbortReason = LockOnShrinking | DeadlockPrevention
  datatype Outcome = Granted | Refused(reason: AbortReason)

  /** Whether two transactions may hold these modes on one item, decided as the source decides it. */
  predicate Compatible(held: LockMode, request: LockMode)
  {
    if held.Exclusive? || request.Exclusive? then false
    else if held.SharedIntentExclusive? || request.SharedIntentExclusive? then
      held.IntentShared? || request.IntentShared?
    else if held.Shared? then request.Shared? || request.IntentShared?
    else if request.Shared? then held.Shared? || held.IntentShared?
    else true
  }

  /** The mode already held answers the request, and the queue is left alone. */
  predicate Answers(held: LockMode, request: LockMode)
  {
    || held == request
    || held.Exclusive?
    || (held.Shared? && request.IntentShared?)
    || (held.SharedIntentExclusive? && !request.Exclusive?)
  }

  // ---------- an independent reading of the modes ----------

  datatype Right = ReadSome | WriteSome | ReadAll | WriteAll

  /** What a mode lets its holder do, to parts of the item or to all of it. */
  function Rights(m: LockMode): set<Right>
  {
    match m
    case IntentShared => {ReadSome}
    case IntentExclusive => {ReadSome, WriteSome}
    case Shared => {ReadSome, ReadAll}
    case SharedIntentExclusive => {ReadSome, WriteSome, ReadAll}
    case Exclusive => {ReadSome, WriteSome, ReadAll, WriteAll}
  }

  /** Reading everything clashes with writing any part; writing everything with reading any part. */
  predicate Clash(a: set<Right>, b: set<Right>)
  {
    || (ReadAll in a && WriteSome in b) || (WriteAll in a && ReadSome in b)
    || (ReadAll in b && WriteSome in a) || (WriteAll in b && ReadSome in a)
  }

  lemma CompatibleIsNoClash(a: LockMode, b: LockMode)
    ensures Compatible(a, b) <==> !Clash(Rights(a), Rights(b))
    ensures Compatible(a, b) <==> Compatible(b, a)
  {}

  /** A mode answers the requests whose rights it has, with one exception: IS is written over IX. */
  lemma AnswersIsCovers(held: LockMode, request: LockMode)
    ensures Answers(held, request) <==>
      Rights(request) <= Rights(held) && !(held.IntentExclusive? && request.IntentShared?)
  {
    assert ReadAll in Rights(Shared) && ReadAll !in Rights(IntentExclusive) && ReadAll !in Rights(IntentShared);
    assert WriteSome in Rights(IntentExclusive) && WriteSome !in Rights(Shared) && WriteSome !in Rights(IntentShared);
    assert WriteAll in Rights(Exclusive) && WriteAll !in Rights(Shared) && WriteAll !in Rights(SharedIntentExclusive);
  }

  /** Exactly three requests make a transaction lose a right it had. */
  lemma WeakeningRequests(held: LockMode, request: LockMode)
    ensures !Answers(held, request) && !(Rights(held) <= Rights(request))
       <==> (held, request) in {(IntentExclusive, IntentShared), (IntentExclusive, Shared), (Shared, IntentExclusive)}
  {
    assert ReadAll in Rights(Shared) && ReadAll !in Rights(IntentExclusive);
    assert WriteSome in Rights(IntentExclusive) && WriteSome !in Rights(Shared) && WriteSome !in Rights(IntentShared);
  }

  // ---------- what is held, and one lock or unlock ----------

  datatype Hold = Hold(item: Item, txn: TxnId)
  type Holds = map<Hold, LockMode>

  ghost predicate Blocked(held: Holds, t: TxnId, item: Item, mode: LockMode)
  {
    exists h :: h in held && h.item == item && h.txn != t && !Compatible(held[h], mode)
  }

  ghost predicate Answered(held: Holds, t: TxnId, item: Item, mode: LockMode)
  {
    Hold(item, t) in held && Answers(held[Hold(item, t)], mode)
  }

  ghost function LockOutcome(held: Holds, state: TxnState, t: TxnId, item: Item, mode: LockMode): Outcome
  {
    if state.Shrinking? then Refused(LockOnShrinking)
    else if Answered(held, t, item, mode) || !Blocked(held, t, item, mode) then Granted
    else Refused(DeadlockPrevention)
  }

  ghost function AfterLock(held: Holds, state: TxnState, t: TxnId, item: Item, mode: LockMode): Holds
  {
    if LockOutcome(held, state, t, item, mode).Refused? || Answered(held, t, item, mode) then held
    else held[Hold(item, t) := mode]
  }

  ghost function ItemsOf(held: Holds, t: TxnId): set<Item>
  {
    set h | h in held && h.txn == t :: h.item
  }

  ghost function Released(held: Holds, t: TxnId): Holds
  {
    map h | h in held && h.txn != t :: held[h]
  }

  /** Different transactions hold compatible modes. */
  ghost predicate Harmony(held: Holds)
  {
    forall h, k :: h in held && k in held && h.item == k.item && h.txn != k.txn ==> Compatible(held[h], held[k])
  }

  lemma LockKeepsHarmony(held: Holds, state: TxnState, t: TxnId, item: Item, mode: LockMode)
    requires Harmony(held)
    ensures Harmony(AfterLock(held, state, t, item, mode))
  {
    var after := AfterLock(held, state, t, item, mode);
    forall h, k | h in after && k in after && h.item == k.item && h.txn != k.txn
      ensures Compatible(after[h], after[k])
    {
      CompatibleIsNoClash(after[h], after[k]);
    }
  }

  /** Another transaction has a right on the item that clashes with one the request asks for. */
  ghost predicate ClashesWithOther(held: Holds, t: TxnId, item: Item, mode: LockMode)
  {
    exists h :: h in held && h.item == item && h.txn != t && Clash(Rights(held[h]), Rights(mode))
  }

  /** The transaction has every right the request asks for. */
  ghost predicate Covers(held: Holds, t: TxnId, item: Item, mode: LockMode)
  {
    Hold(item, t) in held && Rights(mode) <= Rights(held[Hold(item, t)])
  }

  lemma BlockedIsClash(held: Holds, t: TxnId, item: Item, mode: LockMode)
    ensures Blocked(held, t, item, mode) <==> ClashesWithOther(held, t, item, mode)
  {
    forall h | h in held ensures Compatible(held[h], mode) <==> !Clash(Rights(held[h]), Rights(mode)) {
      CompatibleIsNoClash(held[h], mode);
    }
  }

  /** IS asked for over IX is never blocked, as nothing clashes with IX that would clash with IS. */
  lemma IntentSharedIsFree(held: Holds, t: TxnId, item: Item)
    requires Harmony(held) && Hold(item, t) in held && held[Hold(item, t)].IntentExclusive?
    ensures !Blocked(held, t, item, IntentShared)
  {
    forall h | h in held && h.item == item && h.txn != t ensures Compatible(held[h], IntentShared) {
      assert Compatible(held[h], held[Hold(item, t)]);
    }
  }

  /** What a request means: it is refused exactly if the transaction is shrinking, or asks for a right it does not have
      and another transaction's rights clash; a refusal changes nothing; a grant leaves the transaction with every
      right it asked for, and every other hold as it was. */
  lemma LockMeans(held: Holds, state: TxnState, t: TxnId, item: Item, mode: LockMode)
    requires Harmony(held)
    ensures var r, after := LockOutcome(held, state, t, item, mode), AfterLock(held, state, t, item, mode);
      && (r == Refused(LockOnShrinking) <==> state.Shrinking?)
      && (r == Refused(DeadlockPrevention) <==>
        !state.Shrinking? && ClashesWithOther(held, t, item, mode) && !Covers(held, t, item, mode))
      && (r.Refused? ==> after == held)
      && (r.Granted? ==> Covers(after, t, item, mode) && after[Hold(item, t)] in Kept(held, t, item) + {mode})
      && (forall h :: h != Hold(item, t) ==> (h in after <==> h in held) && (h in held ==> after[h] == held[h]))
  {
    BlockedIsClash(held, t, item, mode);
    if Hold(item, t) in held {
      AnswersIsCovers(held[Hold(item, t)], mode);
      if held[Hold(item, t)].IntentExclusive? {
        IntentSharedIsFree(held, t, item);
      }
    }
  }

  /** The mode the transaction has already, if any. */
  ghost function Kept(held: Holds, t: TxnId, item: Item): set<LockMode>
  {
    if Hold(item, t) in held then {held[Hold(item, t)]} else {}
  }

  // ---------- runs ----------

  /** Every transaction's phase beside everything held. */
  datatype World = World(held: Holds, states: map<TxnId, TxnState>)

  datatype Step =
    | Begin(txn: TxnId)
    | Lock(txn: TxnId, item: Item, mode: LockMode)
    | Unlock(txn: TxnId, item: Item)
    | Finish(txn: TxnId, commit: bool)

  predicate Live(w: World, t: TxnId)
  {
    t in w.states && (w.states[t].Growing? || w.states[t].Shrinking?)
  }

  /** Ids are handed out once, and a session replaces a finished transaction before its next statement. */
  predicate Enabled(w: World, s: Step)
  {
    if s.Begin? then s.txn !in w.states else Live(w, s.txn)
  }

  ghost function Next(w: World, s: Step): World
    requires Enabled(w, s)
  {
    match s
    case Begin(t) => World(w.held, w.states[t := Growing])
    case Lock(t, item, mode) => World(AfterLock(w.held, w.states[t], t, item, mode), w.states)
    case Unlock(t, item) =>
      if Hold(item, t) in w.held then World(w.held - {Hold(item, t)}, w.states[t := Shrinking]) else w
    case Finish(t, commit) => World(Released(w.held, t), w.states[t := if commit then Committed else Aborted])
  }

  /** Beginning touches no hold; unlocking gives up that hold, and ends the growing phase exactly if there was one;
      finishing gives up all of the transaction's holds and nobody else's. */
  lemma StepMeans(w: World, s: Step)
    requires Enabled(w, s) && !s.Lock?
    ensures var next := Next(w, s);
      && (forall h :: h in next.held <==>
        h in w.held && (s.Begin? || h.txn != s.txn || (s.Unlock? && h.item != s.item)))
      && (forall h :: h in next.held ==> next.held[h] == w.held[h])
      && s.txn in next.states
      && (forall u :: u != s.txn ==>
        (u in next.states <==> u in w.states) && (u in w.states ==> next.states[u] == w.states[u]))
      && (s.Begin? ==> next.states[s.txn] == Growing)
      && (s.Unlock? ==> next.states[s.txn] == if Hold(s.item, s.txn) in w.held then Shrinking else w.states[s.txn])
      && (s.Finish? ==> next.states[s.txn] == if s.commit then Committed else Aborted)
  {
    forall h: Hold | s.Unlock? && h.txn == s.txn && h.item == s.item ensures h == Hold(s.item, s.txn) {}
  }

  ghost predicate Run(w: World, steps: seq<Step>, last: World)
    decreases |steps|
  {
    if steps == [] then last == w else Enabled(w, steps[0]) && Run(Next(w, steps[0]), steps[1..], last)
  }

  ghost predicate Sound(w: World)
  {
    Harmony(w.held) && forall h :: h in w.held ==> Live(w, h.txn)
  }

  lemma {:induction false} StepIsSound(w: World, s: Step)
    requires Sound(w) && Enabled(w, s)
    ensures Sound(Next(w, s))
  {
    match s
    case Begin(_) =>
    case Lock(t, item, mode) => LockKeepsHarmony(w.held, w.states[t], t, item, mode);
    case Unlock(_, _) =>
    case Finish(_, _) =>
  }

  /** Whatever is locked, upgraded and released, in any order, the modes held on an item never clash. */
  lemma {:induction false} EveryRunIsSound(w: World, steps: seq<Step>, last: World)
    requires Sound(w) && Run(w, steps, last)
    ensures Sound(last)
    decreases |steps|
  {
    if steps != [] {
      StepIsSound(w, steps[0]);
      EveryRunIsSound(Next(w, steps[0]), steps[1..], last);
    }
  }

  predicate PastGrowing(w: World, t: TxnId)
  {
    t in w.states && (w.states[t].Shrinking? || w.states[t].Committed? || w.states[t].Aborted?)
  }

  lemma PastGrowingStays(w: World, s: Step, t: TxnId)
    requires Enabled(w, s) && PastGrowing(w, t)
    ensures PastGrowing(Next(w, s), t)
    ensures forall h :: h in Next(w, s).held && h.txn == t ==> h in w.held && Next(w, s).held[h] == w.held[h]
  {}

  /** Two phases: once a transaction has released anything it gets no new hold and no new mode, ever. */
  lemma {:induction false} NothingGrantedAfterShrinking(w: World, steps: seq<Step>, last: World, t: TxnId)
    requires PastGrowing(w, t) && Run(w, steps, last)
    ensures forall h :: h in last.held && h.txn == t ==> h in w.held && last.held[h] == w.held[h]
    decreases |steps|
  {
    if steps != [] {
      PastGrowingStays(w, steps[0], t);
      NothingGrantedAfterShrinking(Next(w, steps[0]), steps[1..], last, t);
    }
  }

  predicate SharedOrExclusive(s: Step)
  {
    s.Lock? ==> s.mode.Shared? || s.mode.Exclusive?
  }

  predicate Releases(s: Step, h: Hold)
  {
    (s.Unlock? && s.txn == h.txn && s.item == h.item) || (s.Finish? && s.txn == h.txn)
  }

  ghost predicate PlainHolds(held: Holds)
  {
    forall h :: h in held ==> held[h].Shared? || held[h].Exclusive?
  }

  /** With S and X alone a held mode only ever grows stronger until it is released. */
  lemma {:induction false} NeverWeakens(w: World, steps: seq<Step>, last: World, h: Hold)
    requires PlainHolds(w.held) && h in w.held && Run(w, steps, last)
    requires forall i :: 0 <= i < |steps| ==> SharedOrExclusive(steps[i]) && !Releases(steps[i], h)
    ensures PlainHolds(last.held)
    ensures h in last.held && Rights(w.held[h]) <= Rights(last.held[h])
    decreases |steps|
  {
    if steps != [] {
      assert SharedOrExclusive(steps[0]) && !Releases(steps[0], h);
      var next := Next(w, steps[0]);
      assert Rights(w.held[h]) <= Rights(next.held[h]);
      NeverWeakens(next, steps[1..], last, h);
    }
  }

  /** With intention modes it can: a shared lock followed by IX leaves only IX, and another may then write. */
  lemma IntentionModesCanWeaken(w: World, t: TxnId, item: Item)
    requires t in w.states && w.states[t].Growing?
    requires w.held == map[Hold(item, t) := Shared]
    ensures Next(w, Lock(t, item, IntentExclusive)).held == map[Hold(item, t) := IntentExclusive]
    ensures ReadAll !in Rights(IntentExclusive) && Compatible(IntentExclusive, IntentExclusive)
  {}
}
