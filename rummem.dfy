/** The Universal Machine's segmented memory as an ordered map from segment ids to
    segments.  A new segment gets id 0 if 0 is free, and otherwise some id not in use
    (the source draws random ids until it finds one; here the choice is any unused id). */
module RumMem {
  import opened Words

  /** The ways a memory operation can fail; each is a panic or an exit in the source,
      except `NoOpenIndex`, where the source's search for a free id never ends. */
  datatype MemError =
    | UnmappedSegment(id: u32)
    | OffsetOutOfRange(id: u32, offset: u32)
    | OutOfMemory
    | NoOpenIndex

  datatype Result<T> = Ok(value: T) | Err(error: MemError)

  type Segments = map<u32, seq<u32>>

  /** The number of distinct segment ids. */
  const KEY_SPACE: nat := 0x1_0000_0000

  /** A segment of n zero words. */
  function Zeros(n: nat): seq<u32>
  {
    seq(n, _ => 0)
  }

  /** An id the allocator may hand out: not in use, and 0 whenever 0 is free. */
  predicate Fresh(segments: Segments, id: u32)
  {
    id !in segments && (0 !in segments ==> id == 0)
  }

  /** The word at `offset` of segment `id`. */
  function Read(segments: Segments, id: u32, offset: u32): Result<u32>
  {
    if id !in segments then Err(UnmappedSegment(id))
    else if offset >= |segments[id]| then Err(OffsetOutOfRange(id, offset))
    else Ok(segments[id][offset])
  }

  /** The memory after writing `value` at `offset` of segment `id`. */
  function Write(segments: Segments, id: u32, offset: u32, value: u32): Result<Segments>
  {
    if id !in segments then Err(UnmappedSegment(id))
    else if offset >= |segments[id]| then Err(OffsetOutOfRange(id, offset))
    else
      var updated: seq<u32> := segments[id][offset := value];
      Ok(segments[id := updated])
  }

  /** Fewer than n ids in use leaves an id below n free. */
  lemma {:induction false} FreeIdBelow(keys: set<u32>, n: nat)
    requires n <= KEY_SPACE && |keys| < n
    ensures exists id: u32 :: id < n && id !in keys
  {
    var top: u32 := n - 1;
    if top in keys {
      var rest := keys - {top};
      assert |rest| == |keys| - 1;
      FreeIdBelow(rest, n - 1);
      var id: u32 :| id < n - 1 && id !in rest;
      assert id != top;
    }
  }

  /** A store followed by a load of the same word gives the stored value. */
  lemma ReadAfterWrite(segments: Segments, id: u32, offset: u32, value: u32)
    requires Write(segments, id, offset, value).Ok?
    ensures Read(Write(segments, id, offset, value).value, id, offset) == Ok(value)
  {
  }

  /** A store fails exactly when a load of the same word fails, with the same error. */
  lemma WriteFailsLikeRead(segments: Segments, id: u32, offset: u32, value: u32)
    ensures Write(segments, id, offset, value).Err? <==> Read(segments, id, offset).Err?
    ensures Write(segments, id, offset, value).Err? ==>
      Write(segments, id, offset, value).error == Read(segments, id, offset).error
  {
  }

  /** A store changes only the one word: every id stays mapped with the same length, and
      every other word reads as before. */
  lemma WriteFrame(segments: Segments, id: u32, offset: u32, value: u32)
    requires Write(segments, id, offset, value).Ok?
    ensures var after := Write(segments, id, offset, value).value;
      after.Keys == segments.Keys &&
      (forall k :: k in segments ==> |after[k]| == |segments[k]|) &&
      (forall k, o :: k in segments && 0 <= o < |segments[k]| && (k, o) != (id, offset) ==>
        after[k][o] == segments[k][o])
  {
  }

  class Memory {
    var segments: Segments

    /** `Memory::new()`: no segment is mapped. */
    constructor ()
      ensures segments == map[]
    {
      segments := map[];
    }

    /** Segment 0 becomes exactly `program`; every other segment is kept. */
    method LoadProgram(program: seq<u32>)
      modifies this
      ensures segments == old(segments)[0 := program]
    {
      segments := segments[0 := program];
    }

    /** The length of segment 0; the source panics when 0 is not mapped. */
    method GetProgramLength() returns (r: Result<nat>)
      ensures r.Ok? <==> 0 in segments
      ensures r.Ok? ==> r.value == |segments[0]|
      ensures r.Err? ==> r.error == UnmappedSegment(0)
    {
      if 0 !in segments {
        return Err(UnmappedSegment(0));
      }
      return Ok(|segments[0]|);
    }

    /** 0 if it is free, otherwise any id not in use. */
    method ChooseOpenIndex() returns (index: u32)
      requires |segments| < KEY_SPACE
      ensures Fresh(segments, index)
    {
      index := 0;
      if index in segments {
        FreeIdBelow(segments.Keys, KEY_SPACE);
        index :| index !in segments;
      }
    }

    /** Maps a new zero-filled segment of `length` words at a fresh id.  With u32::MAX
        ids in use the source exits with "Out of memory!"; with every id in use its
        search for a free id does not end. */
    method Map(length: u32) returns (r: Result<u32>)
      modifies this
      ensures r.Ok? <==> |old(segments)| < U32_MAX
      ensures r == Err(OutOfMemory) <==> |old(segments)| == U32_MAX
      ensures r == Err(NoOpenIndex) <==> |old(segments)| == KEY_SPACE
      ensures r.Err? ==> segments == old(segments)
      ensures r.Ok? ==> Fresh(old(segments), r.value)
      ensures r.Ok? ==> segments == old(segments)[r.value := Zeros(length)]
    {
      assert |segments| <= KEY_SPACE by {
        KeysBounded(segments.Keys);
      }
      if |segments| == U32_MAX {
        return Err(OutOfMemory);
      }
      if |segments| == KEY_SPACE {
        return Err(NoOpenIndex);
      }
      var segment := Zeros(length);
      var index := ChooseOpenIndex();
      segments := segments[index := segment];
      return Ok(index);
    }

    /** Removes segment `index`; nothing happens when it is not mapped. */
    method Unmap(index: u32)
      modifies this
      ensures segments == old(segments) - {index}
      ensures index !in old(segments) ==> segments == old(segments)
    {
      segments := segments - {index};
    }

    /** The word at `offset` of segment `segmentIndex`. */
    method Load(segmentIndex: u32, offset: u32) returns (r: Result<u32>)
      ensures r == Read(segments, segmentIndex, offset)
      ensures r.Ok? <==> segmentIndex in segments && offset < |segments[segmentIndex]|
    {
      if segmentIndex !in segments {
        return Err(UnmappedSegment(segmentIndex));
      }
      if offset >= |segments[segmentIndex]| {
        return Err(OffsetOutOfRange(segmentIndex, offset));
      }
      return Ok(segments[segmentIndex][offset]);
    }

    /** Writes `value` at `offset` of segment `segmentIndex`. */
    method Store(value: u32, segmentIndex: u32, offset: u32) returns (r: Result<()>)
      modifies this
      ensures Write(old(segments), segmentIndex, offset, value).Ok? <==> r.Ok?
      ensures r.Ok? ==> segments == Write(old(segments), segmentIndex, offset, value).value
      ensures r.Err? ==> segments == old(segments)
      ensures r.Err? ==> r.error == Write(old(segments), segmentIndex, offset, value).error
    {
      var w := Write(segments, segmentIndex, offset, value);
      if w.Err? {
        return Err(w.error);
      }
      segments := w.value;
      return Ok(());
    }
  }

  /** At most 2^32 ids exist. */
  lemma KeysBounded(keys: set<u32>)
    ensures |keys| <= KEY_SPACE
  {
    if |keys| > KEY_SPACE {
      AllBelowCount(keys, KEY_SPACE);
    }
  }

  /** A set of ids below n has at most n elements. */
  lemma {:induction false} AllBelowCount(keys: set<u32>, n: nat)
    requires n <= KEY_SPACE && forall id :: id in keys ==> id < n
    ensures |keys| <= n
  {
    if n > 0 {
      var top: u32 := n - 1;
      AllBelowCount(keys - {top}, n - 1);
    } else {
      assert keys == {};
    }
  }

  /** The map, unmap, default-value and load/store unit tests, on a fresh memory. */
  method MapUnmapScenario() returns (length: nat, allZero: bool, mappedBefore: bool,
                                     mappedAfter: bool, loaded: Result<u32>)
    ensures length == 10 && allZero && mappedBefore && !mappedAfter
    ensures loaded == Ok(59)
  {
    var memory := new Memory();
    var r := memory.Map(10);
    var index := r.value;
    length := |memory.segments[index]|;
    allZero := forall i :: 0 <= i < 10 ==> memory.segments[index][i] == 0;
    var stored := memory.Store(59, index, 3);
    loaded := memory.Load(index, 3);
    mappedBefore := index in memory.segments;
    memory.Unmap(index);
    mappedAfter := index in memory.segments;
  }
}
