/** The table of reader slots as values: which slots a writer must wait for, and
    the packed word that narrows its scan to the active ones. */
module Slots {
  import opened Positions

  datatype Option<+T> = None | Some(value: T)

  /** `owner` holds the slot's robust lock; the lock of a dead owner is free. */
  datatype Slot = Slot(owner: Option<nat>, active: bool, position: nat)

  const MAX_READERS: nat := 0xFFFF

  // ----- The packed range -----

  /** The least active slot, or the number of slots. */
  function LeastActive(slots: seq<Slot>): (m: nat)
    ensures m <= |slots|
    ensures forall i :: 0 <= i < m ==> !slots[i].active
    ensures m < |slots| ==> slots[m].active
  {
    if slots == [] || slots[0].active then 0 else 1 + LeastActive(slots[1..])
  }

  /** The greatest active slot, or zero. */
  function GreatestActive(slots: seq<Slot>): (m: nat)
    ensures m < |slots| || m == 0
    ensures forall i :: m < i < |slots| ==> !slots[i].active
    ensures m > 0 ==> m < |slots| && slots[m].active
  {
    if slots == [] then 0
    else if slots[|slots| - 1].active then |slots| - 1
    else GreatestActive(slots[..|slots| - 1])
  }

  /** Sixteen bits of minimum above sixteen bits of maximum plus one. */
  function Pack(min: nat, max: nat): nat {
    (min * 0x1_0000 + (max + 1)) % 0x1_0000_0000
  }

  function RangeMin(word: nat): nat {
    (word / 0x1_0000) % 0x1_0000
  }

  function RangeMax(word: nat): nat {
    word % 0x1_0000
  }

  lemma Unpack(min: nat, max: nat)
    requires min <= MAX_READERS && max + 1 <= MAX_READERS
    ensures RangeMin(Pack(min, max)) == min && RangeMax(Pack(min, max)) == max + 1
  {
  }

  predicate NoneActive(slots: seq<Slot>) {
    forall i :: 0 <= i < |slots| ==> !slots[i].active
  }

  /** The word is the packed range, or still zero and nothing is active. */
  predicate RangeCurrent(slots: seq<Slot>, word: nat) {
    || (0 < |slots| <= MAX_READERS && word == Pack(LeastActive(slots), GreatestActive(slots)))
    || (|slots| <= MAX_READERS && word == 0 && NoneActive(slots))
  }

  lemma Ends(slots: seq<Slot>)
    requires slots != []
    ensures var min, max := LeastActive(slots), GreatestActive(slots);
            && (NoneActive(slots) ==> min == |slots| && max == 0)
            && (!NoneActive(slots) ==> min <= max < |slots| && slots[min].active && slots[max].active)
            && (forall i :: 0 <= i < |slots| && slots[i].active ==> min <= i <= max)
  {
  }

  /** Unpacking a current word gives exactly the hull of the active slots, or an
      empty range if there are none. */
  lemma RangeExact(slots: seq<Slot>, word: nat)
    requires RangeCurrent(slots, word)
    ensures RangeMin(word) >= RangeMax(word) <==> NoneActive(slots)
    ensures forall i :: 0 <= i < |slots| && slots[i].active ==> RangeMin(word) <= i < RangeMax(word)
    ensures !NoneActive(slots) ==>
              && RangeMin(word) < RangeMax(word) <= |slots|
              && slots[RangeMin(word)].active && slots[RangeMax(word) - 1].active
  {
    assert RangeMin(0) == RangeMax(0) == 0;
    hide Pack, RangeMin, RangeMax, LeastActive, GreatestActive;
    if slots != [] {
      Ends(slots);
      if word == Pack(LeastActive(slots), GreatestActive(slots)) {
        Unpack(LeastActive(slots), GreatestActive(slots));
      }
    }
  }

  // ----- Backpressure -----

  /** Writing `n` more bytes would expire this reader, which is live so far. */
  predicate Blocks(active: bool, position: nat, freePos: nat, n: nat, cap: nat) {
    active && !Expired(position, freePos, cap) && Expired(position, freePos + n, cap)
  }

  /** With a position to skip, only readers strictly past it count. */
  predicate Considered(position: nat, skip: Option<nat>) {
    skip.None? || position > skip.value
  }

  predicate SlotBlocks(slot: Slot, freePos: nat, n: nat, cap: nat, skip: Option<nat>) {
    Blocks(slot.active, slot.position, freePos, n, cap) && Considered(slot.position, skip)
  }

  /** The position of the first slot that blocks a write of `n` bytes. */
  function Detect(slots: seq<Slot>, freePos: nat, n: nat, cap: nat, skip: Option<nat>): (bp: Option<nat>)
  {
    if slots == [] then None
    else if SlotBlocks(slots[0], freePos, n, cap, skip) then Some(slots[0].position)
    else Detect(slots[1..], freePos, n, cap, skip)
  }

  /** A position is returned iff some slot blocks, and it is the first such. */
  lemma {:induction false} DetectExact(slots: seq<Slot>, freePos: nat, n: nat, cap: nat, skip: Option<nat>)
    ensures Detect(slots, freePos, n, cap, skip) == None
            <==> forall i :: 0 <= i < |slots| ==> !SlotBlocks(slots[i], freePos, n, cap, skip)
    ensures forall i :: 0 <= i < |slots| && SlotBlocks(slots[i], freePos, n, cap, skip)
                        && (forall j :: 0 <= j < i ==> !SlotBlocks(slots[j], freePos, n, cap, skip))
              ==> Detect(slots, freePos, n, cap, skip) == Some(slots[i].position)
  {
    if slots != [] {
      DetectExact(slots[1..], freePos, n, cap, skip);
      forall i | 0 < i < |slots| ensures slots[i] == slots[1..][i - 1] {}
    }
  }

  /** With a position to skip, the scan goes as if all slots up to it were inactive. */
  lemma {:induction false} SkipExact(slots: seq<Slot>, rest: seq<Slot>, freePos: nat, n: nat, cap: nat, skip: nat)
    requires |rest| == |slots|
    requires forall i :: 0 <= i < |slots| ==>
               rest[i] == if slots[i].position <= skip then slots[i].(active := false) else slots[i]
    ensures Detect(slots, freePos, n, cap, Some(skip)) == Detect(rest, freePos, n, cap, None)
  {
    if slots != [] {
      SkipExact(slots[1..], rest[1..], freePos, n, cap, skip);
    }
  }

  /** With somebody active and everybody caught up, a write goes through iff it is
      shorter than the buffer. */
  lemma CaughtUpBlocksExactly(slots: seq<Slot>, freePos: nat, n: nat, cap: nat)
    requires cap > 0 && !NoneActive(slots)
    requires forall i :: 0 <= i < |slots| && slots[i].active ==> slots[i].position == freePos
    ensures Detect(slots, freePos, n, cap, None) == None <==> n < cap
  {
    DetectExact(slots, freePos, n, cap, None);
    var i :| 0 <= i < |slots| && slots[i].active;
    assert SlotBlocks(slots[i], freePos, n, cap, None) <==> n >= cap;
  }

  // ----- Readers that never move -----

  /** The number of slots a writer still waits for. */
  function LiveCount(slots: seq<Slot>, freePos: nat, cap: nat): nat {
    if slots == [] then 0
    else (if slots[0].active && !Expired(slots[0].position, freePos, cap) then 1 else 0)
         + LiveCount(slots[1..], freePos, cap)
  }

  function ActiveCount(slots: seq<Slot>): nat {
    if slots == [] then 0 else (if slots[0].active then 1 else 0) + ActiveCount(slots[1..])
  }

  /** They count what they say, here from slot `k` on. */
  lemma {:induction false} CountExact(slots: seq<Slot>, freePos: nat, cap: nat, k: nat, active: set<nat>,
                                      live: set<nat>)
    requires k <= |slots|
    requires forall i :: i in active <==> k <= i < |slots| && slots[i].active
    requires forall i :: i in live <==> i in active && !Expired(slots[i].position, freePos, cap)
    ensures ActiveCount(slots[k..]) == |active| && LiveCount(slots[k..], freePos, cap) == |live|
    decreases |slots| - k
  {
    if k < |slots| {
      CountExact(slots, freePos, cap, k + 1, active - {k}, live - {k});
      assert slots[k..][1..] == slots[k + 1..];
    } else {
      assert active == {} && live == {};
    }
  }

  lemma {:induction false} LiveAtMostActive(slots: seq<Slot>, freePos: nat, cap: nat)
    ensures LiveCount(slots, freePos, cap) <= ActiveCount(slots)
  {
    if slots != [] { LiveAtMostActive(slots[1..], freePos, cap); }
  }

  /** Moving the stream end kills live slots, at least one if the write was seen
      to block. */
  lemma {:induction false} BlockedWriteKills(slots: seq<Slot>, freePos: nat, n: nat, cap: nat)
    ensures LiveCount(slots, freePos + n, cap)
            + (if Detect(slots, freePos, n, cap, None).Some? then 1 else 0) <= LiveCount(slots, freePos, cap)
  {
    if slots != [] { BlockedWriteKills(slots[1..], freePos, n, cap); }
  }

  /** How often one of a run of forced writes is first seen to block, when no slot
      changes and every answer is "write anyhow". `sizes` are their byte counts. */
  function ForcedWrites(slots: seq<Slot>, freePos: nat, sizes: seq<nat>, cap: nat): nat
    decreases |sizes|
  {
    if sizes == [] then 0
    else (if Detect(slots, freePos, sizes[0], cap, None).Some? then 1 else 0)
         + ForcedWrites(slots, freePos + sizes[0], sizes[1..], cap)
  }

  /** Frozen readers cost at most one forced write each, however many writes. */
  lemma {:induction false} FrozenReadersCost(slots: seq<Slot>, freePos: nat, sizes: seq<nat>, cap: nat)
    ensures ForcedWrites(slots, freePos, sizes, cap) <= LiveCount(slots, freePos, cap) <= ActiveCount(slots)
    decreases |sizes|
  {
    LiveAtMostActive(slots, freePos, cap);
    if sizes != [] {
      BlockedWriteKills(slots, freePos, sizes[0], cap);
      FrozenReadersCost(slots, freePos + sizes[0], sizes[1..], cap);
    }
  }

  // ----- Allocation -----

  /** The robust lock of a slot can be taken: nobody holds it, or a dead process. */
  predicate Available(slot: Slot, dead: set<nat>) {
    slot.owner.None? || slot.owner.value in dead
  }

  function FirstAvailable(slots: seq<Slot>, dead: set<nat>): (m: nat)
    ensures m <= |slots|
    ensures forall i :: 0 <= i < m ==> !Available(slots[i], dead)
    ensures m < |slots| ==> Available(slots[m], dead)
  {
    if slots == [] || Available(slots[0], dead) then 0 else 1 + FirstAvailable(slots[1..], dead)
  }

  /** Slots, and which processes have died. */
  datatype World = World(slots: seq<Slot>, dead: set<nat>)

  datatype Event =
    | Alloc(process: nat)
    | Free(id: nat, process: nat)
    | Activate(id: nat, process: nat, pos: nat)
    | Deactivate(id: nat, process: nat)
    | Die(process: nat)

  /** Processes act while alive, and only on slots they were given. */
  predicate Legal(w: World, e: Event) {
    match e
    case Alloc(p) => p !in w.dead
    case Die(p) => p !in w.dead
    case _ => e.process !in w.dead && e.id < |w.slots| && w.slots[e.id].owner == Some(e.process)
  }

  function Occur(w: World, e: Event): (w': World)
    requires Legal(w, e)
    ensures |w'.slots| == |w.slots|
  {
    match e
    case Alloc(p) =>
      var m := FirstAvailable(w.slots, w.dead);
      if m < |w.slots| then w.(slots := w.slots[m := Slot(Some(p), false, w.slots[m].position)]) else w
    case Free(id, _) => w.(slots := w.slots[id := w.slots[id].(owner := None, active := false)])
    case Activate(id, _, pos) => w.(slots := w.slots[id := w.slots[id].(active := true, position := pos)])
    case Deactivate(id, _) => w.(slots := w.slots[id := w.slots[id].(active := false)])
    case Die(p) => w.(dead := w.dead + {p})
  }

  /** What a step leaves behind: a freed slot can be taken and holds up nobody, all slots
      of a process that died can be taken, and every other slot is as it was. */
  lemma OccurExactly(w: World, e: Event, i: nat)
    requires Legal(w, e) && i < |w.slots|
    ensures var was, next, dead := w.slots[i], Occur(w, e).slots[i], Occur(w, e).dead;
            && (e.Free? && e.id == i ==> Available(next, dead) && !next.active)
            && (e.Die? ==> next == was)
            && (e.Die? ==> (Available(next, dead) <==> Available(was, w.dead) || was.owner == Some(e.process)))
            && (e.Alloc? && next != was ==> Available(was, w.dead) && next.owner == Some(e.process) && !next.active)
            && (e.Activate? && e.id == i ==> next == Slot(was.owner, true, e.pos))
            && (e.Deactivate? && e.id == i ==> next == Slot(was.owner, false, was.position))
            && (!e.Alloc? && !e.Die? && e.id != i ==> next == was)
  {
  }

  predicate History(worlds: seq<World>, events: seq<Event>) {
    && |worlds| == |events| + 1
    && (forall i :: 0 <= i < |events| ==> Legal(worlds[i], events[i]) && worlds[i + 1] == Occur(worlds[i], events[i]))
  }

  /** A slot stays with its process until that process frees it or dies: no
      allocation, by anyone, ever hands out a slot with a live owner. */
  lemma {:induction false} SlotKept(worlds: seq<World>, events: seq<Event>, i: nat, j: nat, id: nat, p: nat)
    requires History(worlds, events) && i <= j < |worlds|
    requires id < |worlds[i].slots| && worlds[i].slots[id].owner == Some(p) && p !in worlds[i].dead
    requires forall k :: i <= k < j ==> events[k] != Free(id, p) && events[k] != Die(p)
    ensures id < |worlds[j].slots| && worlds[j].slots[id].owner == Some(p) && p !in worlds[j].dead
    decreases j
  {
    if i < j {
      SlotKept(worlds, events, i, j - 1, id, p);
      assert Legal(worlds[j - 1], events[j - 1]);
    }
  }

  /** Whoever the event takes a slot from. */
  predicate GivesUp(w: World, e: Event, id: nat) {
    id < |w.slots| && ((e.Free? && e.id == id) || (e.Die? && w.slots[id].owner == Some(e.process)))
  }

  /** Once freed, or its owner dead, a slot can be taken until an allocation gets it; and
      as long as it can, every allocation succeeds, with this slot or an earlier one. */
  lemma {:induction false} SlotReusable(worlds: seq<World>, events: seq<Event>, i: nat, j: nat, id: nat)
    requires History(worlds, events) && i < j < |worlds| && GivesUp(worlds[i], events[i], id)
    requires forall k :: i < k < j && events[k].Alloc? ==> FirstAvailable(worlds[k].slots, worlds[k].dead) != id
    ensures id < |worlds[j].slots| && Available(worlds[j].slots[id], worlds[j].dead)
    ensures FirstAvailable(worlds[j].slots, worlds[j].dead) <= id
    decreases j
  {
    assert Legal(worlds[j - 1], events[j - 1]);
    if i + 1 < j { SlotReusable(worlds, events, i, j - 1, id); }
  }

  /** Two allocations that both got a slot, with neither process dead or its slot
      freed in between, got different ones. */
  lemma DistinctSlots(worlds: seq<World>, events: seq<Event>, i: nat, j: nat, p: nat, q: nat)
    requires History(worlds, events) && i < j < |events|
    requires events[i] == Alloc(p) && events[j] == Alloc(q)
    requires var m := FirstAvailable(worlds[i].slots, worlds[i].dead);
             && m < |worlds[i].slots|
             && (forall k :: i < k < j ==> events[k] != Free(m, p) && events[k] != Die(p))
    ensures FirstAvailable(worlds[j].slots, worlds[j].dead) != FirstAvailable(worlds[i].slots, worlds[i].dead)
  {
    var m := FirstAvailable(worlds[i].slots, worlds[i].dead);
    assert Legal(worlds[i], events[i]);
    SlotKept(worlds, events, i + 1, j, m, p);
  }
}
