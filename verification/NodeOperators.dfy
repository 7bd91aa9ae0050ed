/** The slot map of node operators. */
module NodeOperators {
  import opened Wrappers
  import opened Bytes

  /** Account address of an operator and its slot index. */
  type Id = nat
  type Idx = i: nat | i < 256

  const MIN_OPERATORS: nat := 5
  const MAX_OPERATORS: nat := 256

  datatype NodeOperator = NodeOperator(id: Id, data: seq<byte>)

  type Slots = seq<Option<NodeOperator>>

  /** The operator in a slot; slots past the end are free. */
  function At(slots: Slots, idx: nat): Option<NodeOperator> {
    if idx < |slots| then slots[idx] else None
  }

  predicate HasId(slots: Slots, idx: nat, id: Id) {
    At(slots, idx).Some? && At(slots, idx).value.id == id
  }

  /** The index and the slots describe each other. */
  predicate Inverse(slots: Slots, index: map<Id, Idx>) {
    && (forall id :: id in index ==> At(slots, index[id]).Some? && At(slots, index[id]).value.id == id)
    && (forall i :: 0 <= i < |slots| && slots[i].Some? ==> slots[i].value.id in index && index[slots[i].value.id] == i)
  }

  /** Equal up to free slots at the end. */
  predicate SameSlots(a: Slots, b: Slots) {
    && (forall i :: 0 <= i < |a| ==> At(b, i) == a[i])
    && (forall i :: 0 <= i < |b| ==> At(a, i) == b[i])
  }

  /** Slots have one index. */
  lemma InverseUnique(a: Slots, b: Slots, index: map<Id, Idx>, index': map<Id, Idx>)
    requires SameSlots(a, b) && Inverse(a, index) && Inverse(b, index')
    ensures index == index'
  {
    assert index.Keys == index'.Keys;
  }

  datatype CreationError =
    | TooFewOperators(count: nat)
    | TooManyOperatorSlots(count: nat)
    | OperatorDuplicate(id: Id)

  predicate DistinctIds(slots: Slots) {
    forall i, j :: 0 <= i < j < |slots| && slots[i].Some? && slots[j].Some? ==> slots[i].value.id != slots[j].value.id
  }

  /** The slots after `set`: the vector grows to hold `idx` first. */
  function Put(slots: Slots, idx: Idx, slot: Option<NodeOperator>): (r: Slots)
    requires idx <= |slots|
  {
    if idx == |slots| then slots + [slot] else slots[idx := slot]
  }

  /** The index after `set`: the previous occupant goes, the new one is entered. */
  function Reindex(slots: Slots, index: map<Id, Idx>, idx: Idx, slot: Option<NodeOperator>): map<Id, Idx> {
    var freed := if At(slots, idx).Some? then index - {At(slots, idx).value.id} else index;
    if slot.Some? then freed[slot.value.id := idx] else freed
  }

  /** Setting a slot keeps both maps in step, unless the operator already sits elsewhere. */
  lemma PutKeepsInverse(slots: Slots, index: map<Id, Idx>, idx: Idx, slot: Option<NodeOperator>)
    requires Inverse(slots, index) && idx <= |slots|
    ensures Inverse(Put(slots, idx, slot), Reindex(slots, index, idx, slot)) <==>
            (slot.Some? && slot.value.id in index ==> index[slot.value.id] == idx)
  {
    var slots', index' := Put(slots, idx, slot), Reindex(slots, index, idx, slot);
    assert At(slots', idx) == slot;
    assert forall i: nat :: i != idx ==> At(slots', i) == At(slots, i);
    if slot.Some? && slot.value.id in index && index[slot.value.id] != idx {
      var elsewhere := index[slot.value.id];
      assert At(slots', elsewhere) == slots'[elsewhere];
      assert !Inverse(slots', index');
    } else {
      forall i | 0 <= i < |slots'| && slots'[i].Some?
        ensures slots'[i].value.id in index' && index'[slots'[i].value.id] == i
      {
        if i != idx {
          assert slots[i] == slots'[i];
        }
      }
    }
  }

  class NodeOperators {
    var slots: Slots
    var idToIdx: map<Id, Idx>

    constructor (slots: Slots, idToIdx: map<Id, Idx>)
      ensures this.slots == slots && this.idToIdx == idToIdx
    {
      this.slots := slots;
      this.idToIdx := idToIdx;
    }

    function GetByIdx(idx: Idx): Option<NodeOperator>
      reads this
    {
      At(slots, idx)
    }

    function GetIdx(id: Id): Option<Idx>
      reads this
    {
      if id in idToIdx then Some(idToIdx[id]) else None
    }

    /** Writes a slot. The vector only grows for an index right past its end; a higher one panics. */
    method Set(idx: Idx, slot: Option<NodeOperator>) returns (panicked: bool)
      modifies this
      ensures panicked <==> |old(slots)| < idx
      ensures slots == if panicked then old(slots) else Put(old(slots), idx, slot)
      ensures idToIdx == Reindex(old(slots), old(idToIdx), idx, slot)
    {
      var occupant := GetByIdx(idx);
      if occupant.Some? {
        idToIdx := idToIdx - {occupant.value.id};
      }
      if |slots| >= idx {
        Expand(idx);
      }
      if slot.Some? {
        idToIdx := idToIdx[slot.value.id := idx];
      }
      if idx >= |slots| {
        return true;
      }
      slots := slots[idx := slot];
      return false;
    }

    method Expand(idx: Idx)
      modifies this`slots
      ensures |slots| == if |old(slots)| < idx + 1 then idx + 1 else |old(slots)|
      ensures slots[..|old(slots)|] == old(slots)
      ensures forall i :: |old(slots)| <= i < |slots| ==> slots[i] == None
    {
      while |slots| < idx + 1
        invariant |old(slots)| <= |slots|
        invariant |slots| <= idx + 1 || slots == old(slots)
        invariant slots[..|old(slots)|] == old(slots)
        invariant forall i :: |old(slots)| <= i < |slots| ==> slots[i] == None
      {
        slots := slots + [None];
      }
    }

    /** Builds the map from the slots of the contract. */
    static method FromSlots(slots: Slots) returns (r: Result<NodeOperators, CreationError>)
      ensures r.Ok? <==> MIN_OPERATORS <= |slots| <= MAX_OPERATORS && DistinctIds(slots)
      ensures r.Ok? ==> fresh(r.value) && r.value.slots == slots && Inverse(slots, r.value.idToIdx)
      ensures |slots| < MIN_OPERATORS ==> r == Err(TooFewOperators(|slots|))
      ensures |slots| > MAX_OPERATORS ==> r == Err(TooManyOperatorSlots(|slots|))
      ensures r.Err? && MIN_OPERATORS <= |slots| <= MAX_OPERATORS ==>
                r.error.OperatorDuplicate? && exists i, j :: 0 <= i < j < |slots| && HasId(slots, i, r.error.id) && HasId(slots, j, r.error.id)
    {
      if |slots| < MIN_OPERATORS {
        return Err(TooFewOperators(|slots|));
      }
      if |slots| > MAX_OPERATORS {
        return Err(TooManyOperatorSlots(|slots|));
      }
      var idToIdx: map<Id, Idx> := map[];
      for i := 0 to |slots|
        invariant DistinctIds(slots[..i])
        invariant Inverse(slots[..i], idToIdx)
      {
        assert slots[..i + 1] == slots[..i] + [slots[i]];
        if slots[i].Some? {
          if slots[i].value.id in idToIdx {
            assert slots[..i][idToIdx[slots[i].value.id]] == slots[idToIdx[slots[i].value.id]];
            assert HasId(slots, idToIdx[slots[i].value.id], slots[i].value.id) && HasId(slots, i, slots[i].value.id);
            return Err(OperatorDuplicate(slots[i].value.id));
          }
          idToIdx := idToIdx[slots[i].value.id := i];
        }
      }
      assert slots[..|slots|] == slots;
      var operators := new NodeOperators(slots, idToIdx);
      return Ok(operators);
    }
  }
}
