/** The shared table of reader slots, updated in place. */
module ReaderInfoTable {
  import opened Slots

  const INVALID_READER_ID: int := -1

  class ReaderInfo {
    const configMaxReaders: nat
    const infos: array<Slot>
    var readersMinMax: nat
    var expiredReaders: nat

    ghost predicate Valid()
      reads this, infos
    {
      infos.Length == configMaxReaders <= MAX_READERS && RangeCurrent(infos[..], readersMinMax)
    }

    constructor (configMaxReaders: nat)
      requires configMaxReaders <= MAX_READERS
      ensures Valid() && fresh(infos) && this.configMaxReaders == configMaxReaders
      ensures forall i :: 0 <= i < configMaxReaders ==> infos[i] == Slot(None, false, 0)
    {
      this.configMaxReaders := configMaxReaders;
      infos := new Slot[configMaxReaders](_ => Slot(None, false, 0));
      readersMinMax := 0;
      expiredReaders := 0;
    }

    /** Takes the first slot whose lock is free or was held by a dead process. */
    method Alloc(process: nat, dead: set<nat>) returns (id: int)
      requires Valid()
      modifies this`readersMinMax, infos
      ensures Valid()
      ensures id == INVALID_READER_ID <==> forall i :: 0 <= i < configMaxReaders ==> !Available(old(infos[i]), dead)
      ensures var m := FirstAvailable(old(infos[..]), dead);
              if m == configMaxReaders then id == INVALID_READER_ID && infos[..] == old(infos[..])
              else id == m && infos[..] == old(infos[..])[m := Slot(Some(process), false, old(infos[m].position))]
      ensures process !in dead ==>
                infos[..] == Occur(World(old(infos[..]), dead), Event.Alloc(process)).slots
    {
      for i := 0 to configMaxReaders
        invariant Valid() && infos[..] == old(infos[..])
        invariant forall k :: 0 <= k < i ==> !Available(infos[k], dead)
      {
        if infos[i].owner.None? || infos[i].owner.value in dead {
          infos[i] := infos[i].(owner := Some(process));
          id := i;
          SetActive(i, false);
          return;
        }
      }
      return INVALID_READER_ID;
    }

    method Free(id: int)
      requires Valid() && (id == INVALID_READER_ID || 0 <= id < configMaxReaders)
      modifies this`readersMinMax, infos
      ensures Valid()
      ensures infos[..] == if id == INVALID_READER_ID then old(infos[..])
                           else old(infos[..])[id := old(infos[id]).(owner := None, active := false)]
      ensures forall p, dead :: id >= 0 && old(infos[id]).owner == Some(p) && p !in dead ==>
                infos[..] == Occur(World(old(infos[..]), dead), Event.Free(id, p)).slots
    {
      if id == INVALID_READER_ID { return; }
      SetActive(id, false);
      infos[id] := infos[id].(owner := None);
      SameActivity(old(infos[..])[id := old(infos[id]).(active := false)], infos[..]);
    }

    method Activate(id: int, pos: nat)
      requires Valid() && (id == INVALID_READER_ID || 0 <= id < configMaxReaders)
      modifies this`readersMinMax, infos
      ensures Valid()
      ensures infos[..] == if id == INVALID_READER_ID then old(infos[..])
                           else old(infos[..])[id := old(infos[id]).(active := true, position := pos)]
      ensures forall p, dead :: id >= 0 && old(infos[id]).owner == Some(p) && p !in dead ==>
                infos[..] == Occur(World(old(infos[..]), dead), Event.Activate(id, p, pos)).slots
    {
      if id == INVALID_READER_ID { return; }
      infos[id] := infos[id].(position := pos);
      SetActive(id, true);
    }

    method Deactivate(id: int)
      requires Valid() && (id == INVALID_READER_ID || 0 <= id < configMaxReaders)
      modifies this`readersMinMax, infos
      ensures Valid()
      ensures infos[..] == if id == INVALID_READER_ID then old(infos[..])
                           else old(infos[..])[id := old(infos[id]).(active := false)]
      ensures forall p, dead :: id >= 0 && old(infos[id]).owner == Some(p) && p !in dead ==>
                infos[..] == Occur(World(old(infos[..]), dead), Event.Deactivate(id, p)).slots
    {
      if id == INVALID_READER_ID { return; }
      SetActive(id, false);
    }

    method SetActive(id: nat, active: bool)
      requires infos.Length == configMaxReaders <= MAX_READERS && id < configMaxReaders
      modifies this`readersMinMax, infos
      ensures Valid()
      ensures infos[..] == old(infos[..])[id := old(infos[id]).(active := active)]
    {
      infos[id] := infos[id].(active := active);
      UpdateActiveRange(0);
    }

    /** Rescans all slots and swaps the word in, retrying when the swap fails. */
    method UpdateActiveRange(failures: nat)
      requires 0 < infos.Length == configMaxReaders <= MAX_READERS
      modifies this`readersMinMax
      ensures Valid()
    {
      var packed := 0;
      var left := failures + 1;
      while left > 0
        invariant left <= failures + 1
        invariant left <= failures ==> packed == Pack(LeastActive(infos[..]), GreatestActive(infos[..]))
      {
        var min: nat, max: nat := configMaxReaders, 0;
        for i := 0 to configMaxReaders
          invariant min == configMaxReaders || (min < i && infos[min].active)
          invariant max == 0 || (max < i && infos[max].active)
          invariant forall k :: 0 <= k < i && infos[k].active ==> min <= k <= max
        {
          if infos[i].active {
            if i < min { min := i; }
            if i > max { max := i; }
          }
        }
        assert infos[..][..] == infos[..];
        packed := Pack(min, max);
        left := left - 1;
      }
      readersMinMax := packed;
    }

    method GetActiveRange() returns (min: nat, max: nat)
      requires Valid()
      ensures min >= max <==> NoneActive(infos[..])
      ensures forall i :: 0 <= i < configMaxReaders && infos[i].active ==> min <= i < max
      ensures min < max ==> max <= configMaxReaders && infos[min].active && infos[max - 1].active
    {
      RangeExact(infos[..], readersMinMax);
      max := RangeMax(readersMinMax);
      min := RangeMin(readersMinMax);
    }
  }

  /** The range depends on which slots are active only. */
  lemma {:induction false} SameActivity(a: seq<Slot>, b: seq<Slot>)
    requires |a| == |b| && forall i :: 0 <= i < |a| ==> a[i].active == b[i].active
    ensures LeastActive(a) == LeastActive(b) && GreatestActive(a) == GreatestActive(b)
  {
  }
}
