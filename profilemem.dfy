/** The profiled Universal Machine's segmented memory: a vector of segments indexed by id,
    and a stack of ids freed by `unmap` that `map` reuses last-in first-out. */
module ProfileMem {
  import opened Words

  datatype MemError = IndexOutOfRange(index: nat) | OffsetOutOfRange(index: nat, offset: nat)

  datatype Result<T> = Ok(value: T) | Err(error: MemError)

  datatype Option<T> = None | Some(value: T)

  type Segment = seq<u32>

  /** A segment of n zero words. */
  function Zeros(n: nat): Segment
  {
    seq(n, _ => 0)
  }

  /** Each id occurs at most once in the list. */
  predicate NoDuplicates(ids: seq<u32>)
  {
    forall i, j :: 0 <= i < j < |ids| ==> ids[i] != ids[j]
  }

  class Memory {
    var memory: seq<Segment>
    var freeSegments: seq<u32>

    /** Segment 0 always exists: nothing ever shrinks the segment vector. */
    predicate Valid()
      reads this
    {
      |memory| >= 1
    }

    /** An id is in use when it indexes a segment and is not waiting on the free list. */
    predicate Mapped(id: nat)
      reads this
    {
      id < |memory| && id !in freeSegments
    }

    /** The free list only holds ids of existing segments, each once, and never id 0;
        the corrected `UnmapIfMapped` keeps this and `map` then never fails. */
    predicate FreeListValid()
      reads this
    {
      Valid() && NoDuplicates(freeSegments) &&
      forall i :: 0 <= i < |freeSegments| ==> 0 < freeSegments[i] < |memory|
    }

    /** `Memory::new()`: one empty segment (id 0) and an empty free list. */
    constructor ()
      ensures memory == [[]] && freeSegments == []
      ensures FreeListValid()
    {
      memory := [[]];
      freeSegments := [];
    }

    method Len() returns (n: nat)
      ensures n == |memory|
    {
      return |memory|;
    }

    method Push(value: Segment)
      modifies this
      ensures memory == old(memory) + [value] && freeSegments == old(freeSegments)
    {
      memory := memory + [value];
    }

    /** The segment with this id, or None when the id is past the end. */
    method Get(index: nat) returns (r: Option<Segment>)
      ensures r.None? <==> index >= |memory|
      ensures r.Some? ==> r.value == memory[index]
    {
      if index < |memory| {
        return Some(memory[index]);
      }
      return None;
    }

    /** Segment 0 becomes the program; nothing else changes. */
    method LoadProgram(program: Segment)
      requires Valid()
      modifies this
      ensures memory == old(memory)[0 := program] && freeSegments == old(freeSegments)
      ensures Valid()
    {
      memory := memory[0 := program];
    }

    method GetProgramLength() returns (n: nat)
      requires Valid()
      ensures n == |memory[0]|
    {
      return |memory[0]|;
    }

    /** Pops the most recently freed id and puts a zero segment there (the source panics
        when that id is past the end of the vector); with no freed id, appends a zero
        segment and returns its position, truncated to 32 bits as `as u32` does. */
    method Map(length: u32) returns (r: Result<u32>)
      requires Valid()
      modifies this
      ensures Valid()
      ensures old(freeSegments) == [] ==>
        r == Ok((|old(memory)|) % 0x1_0000_0000) &&
        memory == old(memory) + [Zeros(length)] && freeSegments == []
      ensures old(freeSegments) != [] ==>
        var top := old(freeSegments)[|old(freeSegments)| - 1];
        freeSegments == old(freeSegments)[..|old(freeSegments)| - 1] &&
        (r.Ok? <==> top < |old(memory)|) &&
        (r.Ok? ==> r.value == top && memory == old(memory)[top := Zeros(length)]) &&
        (r.Err? ==> r.error == IndexOutOfRange(top) && memory == old(memory))
    {
      if freeSegments != [] {
        var index := freeSegments[|freeSegments| - 1];
        freeSegments := freeSegments[..|freeSegments| - 1];
        if index >= |memory| {
          return Err(IndexOutOfRange(index));
        }
        memory := memory[index := Zeros(length)];
        return Ok(index);
      }
      Push(Zeros(length));
      var n := Len();
      return Ok((n - 1) % 0x1_0000_0000);
    }

    /** As written: pushes the id onto the free list, whatever it is. */
    method Unmap(index: u32)
      modifies this
      ensures freeSegments == old(freeSegments) + [index] && memory == old(memory)
    {
      freeSegments := freeSegments + [index];
    }

    /** Corrected: frees the id only when it is in use and is not segment 0, so that
        unmapping an unmapped id does nothing, as documented. */
    method UnmapIfMapped(index: u32)
      requires FreeListValid()
      modifies this
      ensures memory == old(memory)
      ensures old(Mapped(index)) && index != 0 ==> freeSegments == old(freeSegments) + [index]
      ensures !(old(Mapped(index)) && index != 0) ==> freeSegments == old(freeSegments)
      ensures FreeListValid() && !(index != 0 && Mapped(index))
    {
      if index < |memory| && index !in freeSegments && index != 0 {
        freeSegments := freeSegments + [index];
      }
    }

    /** The word at `offset` of a segment; out-of-range ids and offsets panic. */
    method Load(segmentIndex: u32, offset: u32) returns (r: Result<u32>)
      ensures r.Ok? <==> segmentIndex < |memory| && offset < |memory[segmentIndex]|
      ensures r.Ok? ==> r.value == memory[segmentIndex][offset]
    {
      if segmentIndex >= |memory| {
        return Err(IndexOutOfRange(segmentIndex));
      }
      if offset >= |memory[segmentIndex]| {
        return Err(OffsetOutOfRange(segmentIndex, offset));
      }
      return Ok(memory[segmentIndex][offset]);
    }

    /** Writes one word; every other word and the free list are unchanged. */
    method Store(value: u32, segmentIndex: u32, offset: u32) returns (r: Result<()>)
      modifies this
      ensures r.Ok? <==> segmentIndex < |old(memory)| && offset < |old(memory)[segmentIndex]|
      ensures r.Ok? ==> |memory| == |old(memory)|
      ensures r.Ok? ==> memory[segmentIndex] == old(memory)[segmentIndex][offset := value]
      ensures r.Ok? ==> forall k :: 0 <= k < |memory| && k != segmentIndex ==> memory[k] == old(memory)[k]
      ensures r.Err? ==> memory == old(memory)
      ensures freeSegments == old(freeSegments)
    {
      if segmentIndex >= |memory| {
        return Err(IndexOutOfRange(segmentIndex));
      }
      if offset >= |memory[segmentIndex]| {
        return Err(OffsetOutOfRange(segmentIndex, offset));
      }
      var updated: Segment := memory[segmentIndex][offset := value];
      memory := memory[segmentIndex := updated];
      return Ok(());
    }
  }

  /** With a valid free list, `map` never fails and hands out an id that was not in use;
      afterwards the free list is still valid and the new id is in use. */
  method MapFromValidFreeList(m: Memory, length: u32) returns (r: Result<u32>)
    requires m.FreeListValid() && |m.memory| < 0x1_0000_0000
    modifies m
    ensures r.Ok? && !old(m.Mapped(r.value)) && m.Mapped(r.value)
    ensures m.memory[r.value] == Zeros(length) && m.FreeListValid()
  {
    ghost var before := m.freeSegments;
    r := m.Map(length);
    if before != [] {
      var top := before[|before| - 1];
      assert top in before && top !in m.freeSegments by {
        assert before == m.freeSegments + [top];
      }
    }
  }

  /** The unmap unit test: the first new segment gets id 1, unmapping it puts 1 on the
      free list, and the next map reuses id 1 with the new length. */
  method UnmapReuseScenario() returns (first: Result<u32>, freed: seq<u32>, second: Result<u32>,
                                       segment: Option<Segment>)
    ensures first == Ok(1) && freed == [1] && second == Ok(1)
    ensures segment == Some(Zeros(50))
  {
    var m := new Memory();
    first := m.Map(10);
    m.Unmap(first.value);
    freed := m.freeSegments;
    second := m.Map(50);
    segment := m.Get(1);
  }

  /** Most recently freed first: after freeing 1 and then 2, map returns 2 and then 1. */
  method LifoScenario() returns (a: Result<u32>, b: Result<u32>)
    ensures a == Ok(2) && b == Ok(1)
  {
    var m := new Memory();
    var one := m.Map(4);
    var two := m.Map(4);
    m.Unmap(1);
    m.Unmap(2);
    a := m.Map(8);
    b := m.Map(8);
  }

  /** As written, unmapping an id that was never mapped is not a no-op: the next map
      fails on it. */
  method UnmapUnmappedScenario() returns (r: Result<u32>)
    ensures r == Err(IndexOutOfRange(5))
  {
    var m := new Memory();
    m.Unmap(5);
    r := m.Map(3);
  }

  /** As written, unmapping the same segment twice makes the next two maps return the
      same id: two live handles to one segment. */
  method DoubleUnmapScenario() returns (a: Result<u32>, b: Result<u32>)
    ensures a == Ok(1) && b == Ok(1)
  {
    var m := new Memory();
    var one := m.Map(4);
    m.Unmap(1);
    m.Unmap(1);
    a := m.Map(8);
    b := m.Map(8);
  }

  /** With the corrected unmap the same calls give two different ids. */
  method DoubleUnmapCorrectedScenario() returns (a: Result<u32>, b: Result<u32>)
    ensures a == Ok(1) && b == Ok(2)
  {
    var m := new Memory();
    var one := m.Map(4);
    assert |m.memory| == 2 && m.freeSegments == [];
    m.UnmapIfMapped(1);
    assert m.freeSegments == [1];
    m.UnmapIfMapped(1);
    assert |m.memory| == 2 && m.freeSegments == [1];
    a := m.Map(8);
    assert |m.memory| == 2 && m.freeSegments == [];
    b := m.Map(8);
  }
}
