/** The slices of an upload: how they are hashed from the stream, and which sections the workers send. */
module UploadSlices {
  /** The number of slices and the length of the last one. */
  function Count(size: nat, sliceSize: nat): nat
    requires sliceSize > 0
  {
    size / sliceSize + if size % sliceSize > 0 then 1 else 0
  }

  function LastSize(size: nat, sliceSize: nat): nat
    requires sliceSize > 0
  {
    if size % sliceSize > 0 then size % sliceSize else sliceSize
  }

  /** The section of the file that a worker sends for a part: its offset and its length. */
  function Section(size: nat, sliceSize: nat, part: nat): (nat, nat)
    requires sliceSize > 0
  {
    (part * sliceSize, if part + 1 == Count(size, sliceSize) then LastSize(size, sliceSize) else sliceSize)
  }

  lemma MulMonotone(a: nat, b: nat, c: nat)
    requires a <= b
    ensures a * c <= b * c
  {
    assert b * c == a * c + (b - a) * c;
  }

  lemma NextSlice(part: nat, sliceSize: nat)
    ensures (part + 1) * sliceSize == part * sliceSize + sliceSize
  {
  }

  lemma SectionFits(size: nat, sliceSize: nat, part: nat)
    requires sliceSize > 0 && part < Count(size, sliceSize)
    ensures var (offset, length) := Section(size, sliceSize, part);
            && 0 < length <= sliceSize && offset + length <= size
            && (part + 1 < Count(size, sliceSize) ==> offset + length == (part + 1) * sliceSize)
            && (part + 1 == Count(size, sliceSize) ==> offset + length == size)
  {
    var q, m := size / sliceSize, size % sliceSize;
    assert size == q * sliceSize + m;
    NextSlice(part, sliceSize);
    if part + 1 <= q {
      MulMonotone(part + 1, q, sliceSize);
    }
  }

  /** Part number part starts at that many slices and ends a slice further or with the file. */
  lemma SectionIs(size: nat, sliceSize: nat, part: nat)
    requires sliceSize > 0
    ensures part < Count(size, sliceSize) <==> part * sliceSize < size
    ensures part < Count(size, sliceSize) ==>
              var (offset, length) := Section(size, sliceSize, part);
              && offset == part * sliceSize
              && offset + length == if part * sliceSize + sliceSize < size then part * sliceSize + sliceSize else size
  {
    var q := size / sliceSize;
    assert size == q * sliceSize + size % sliceSize;
    if part < Count(size, sliceSize) {
      SectionFits(size, sliceSize, part);
      NextSlice(part, sliceSize);
      if part + 1 < Count(size, sliceSize) { SectionFits(size, sliceSize, part + 1); }
    } else {
      MulMonotone(Count(size, sliceSize), part, sliceSize);
      NextSlice(q, sliceSize);
    }
  }

  /** Position at lies in the slice-sized stretch number part exactly when part is the quotient. */
  lemma Quotient(at: nat, sliceSize: nat, part: nat)
    requires sliceSize > 0
    ensures part * sliceSize <= at < part * sliceSize + sliceSize <==> part == at / sliceSize
  {
    var here := at / sliceSize;
    assert at == here * sliceSize + at % sliceSize;
    NextSlice(here, sliceSize);
    NextSlice(part, sliceSize);
    if part < here { MulMonotone(part + 1, here, sliceSize); }
    else if part > here { MulMonotone(here + 1, part, sliceSize); }
  }

  predicate InSection(size: nat, sliceSize: nat, part: nat, at: nat)
    requires sliceSize > 0
  {
    var (offset, length) := Section(size, sliceSize, part);
    offset <= at < offset + length
  }

  /** Every byte of the file lies in the section of exactly one part. */
  lemma SectionsTile(size: nat, sliceSize: nat, at: nat)
    requires sliceSize > 0 && at < size
    ensures exists part :: 0 <= part < Count(size, sliceSize) && InSection(size, sliceSize, part, at)
    ensures forall p, q | 0 <= p < Count(size, sliceSize) && 0 <= q < Count(size, sliceSize) ::
              InSection(size, sliceSize, p, at) && InSection(size, sliceSize, q, at) ==> p == q
  {
    forall p | 0 <= p < Count(size, sliceSize) && InSection(size, sliceSize, p, at)
      ensures p == at / sliceSize
    {
      SectionFits(size, sliceSize, p);
      Quotient(at, sliceSize, p);
    }
    SectionOf(size, sliceSize, at);
  }

  lemma SectionOf(size: nat, sliceSize: nat, at: nat)
    requires sliceSize > 0 && at < size
    ensures at / sliceSize < Count(size, sliceSize) && InSection(size, sliceSize, at / sliceSize, at)
  {
    var here, q := at / sliceSize, size / sliceSize;
    Quotient(at, sliceSize, here);
    Quotient(size, sliceSize, q);
    if here >= q { MulMonotone(q, here, sliceSize); }
    if here > q { MulMonotone(q + 1, here, sliceSize); NextSlice(q, sliceSize); }
    SectionFits(size, sliceSize, here);
    NextSlice(here, sliceSize);
  }

  /** CopyWithBufferN: the next n bytes of the stream, or what is left of it. */
  function TakeN(stream: seq<bv8>, at: nat, n: nat): (chunk: seq<bv8>)
    requires at <= |stream|
    ensures stream[..at] + chunk <= stream
    ensures |chunk| == if at + n <= |stream| then n else |stream| - at
  {
    if at + n <= |stream| then stream[at..at + n] else stream[at..]
  }

  lemma Spool(stream: seq<bv8>, spooled: seq<bv8>, n: nat)
    requires spooled <= stream
    ensures spooled + TakeN(stream, |spooled|, n) <= stream
  {
    assert stream[..|spooled|] == spooled;
  }

  /** Where part number part would start; the end of the file for the part after the last. */
  function Planned(size: nat, sliceSize: nat, part: nat): nat
    requires sliceSize > 0
  {
    if part >= Count(size, sliceSize) then size else part * sliceSize
  }

  lemma PlanStep(size: nat, sliceSize: nat, part: nat)
    requires sliceSize > 0 && part < Count(size, sliceSize)
    ensures var (offset, length) := Section(size, sliceSize, part);
            && offset == Planned(size, sliceSize, part)
            && offset + length == Planned(size, sliceSize, part + 1) <= size
  {
    SectionFits(size, sliceSize, part);
  }

  /** Block number part is the section that a worker later sends for it, if the stream is long enough. */
  predicate IsBlock(stream: seq<bv8>, size: nat, sliceSize: nat, part: nat, block: seq<bv8>)
    requires sliceSize > 0
  {
    var (offset, length) := Section(size, sliceSize, part);
    offset + length <= |stream| ==> block == stream[offset..offset + length]
  }

  /** The block list describes the sections that are uploaded. */
  ghost predicate AreBlocks(stream: seq<bv8>, size: nat, sliceSize: nat, blocks: seq<seq<bv8>>)
    requires sliceSize > 0
  {
    forall p {:trigger IsBlock(stream, size, sliceSize, p, blocks[p])} ::
      0 <= p < |blocks| ==> IsBlock(stream, size, sliceSize, p, blocks[p])
  }

  /** When the stream is as long as announced, each block is its slice of it, the last one to the end. */
  lemma BlocksAre(stream: seq<bv8>, size: nat, sliceSize: nat, blocks: seq<seq<bv8>>, part: nat)
    requires sliceSize > 0 && size <= |stream| && part < |blocks| == Count(size, sliceSize)
    requires AreBlocks(stream, size, sliceSize, blocks)
    ensures var start, next := part * sliceSize, part * sliceSize + sliceSize;
            && start < size
            && blocks[part] == stream[start..if next < size then next else size]
  {
    SectionIs(size, sliceSize, part);
    assert IsBlock(stream, size, sliceSize, part, blocks[part]);
  }

  lemma AddBlock(stream: seq<bv8>, size: nat, sliceSize: nat, blocks: seq<seq<bv8>>, block: seq<bv8>)
    requires sliceSize > 0 && AreBlocks(stream, size, sliceSize, blocks)
    requires IsBlock(stream, size, sliceSize, |blocks|, block)
    ensures AreBlocks(stream, size, sliceSize, blocks + [block])
  {
    var more := blocks + [block];
    forall p | 0 <= p < |more|
      ensures IsBlock(stream, size, sliceSize, p, more[p])
    {
      if p < |blocks| { assert IsBlock(stream, size, sliceSize, p, blocks[p]); }
    }
  }

  lemma NextBlock(stream: seq<bv8>, size: nat, sliceSize: nat, part: nat, written: nat, byteSize: nat)
    requires sliceSize > 0 && part < Count(size, sliceSize) && byteSize == Section(size, sliceSize, part).1
    requires written <= |stream| && written <= Planned(size, sliceSize, part)
    requires written < Planned(size, sliceSize, part) ==> written == |stream|
    ensures var chunk := TakeN(stream, written, byteSize);
            && IsBlock(stream, size, sliceSize, part, chunk)
            && written + |chunk| <= Planned(size, sliceSize, part + 1)
            && (written + |chunk| < Planned(size, sliceSize, part + 1) ==> written + |chunk| == |stream|)
  {
    PlanStep(size, sliceSize, part);
  }

  /**
   The hashing loop of Put, which also spools the stream. When as many bytes came as were
   announced, the block list describes exactly the sections that are uploaded.
   */
  method HashSlices(stream: seq<bv8>, streamSize: nat, sliceSize: nat)
    returns (blocks: seq<seq<bv8>>, spooled: seq<bv8>, written: nat)
    requires sliceSize > 0
    ensures |blocks| == Count(streamSize, sliceSize)
    ensures spooled <= stream && written == |spooled| <= streamSize
    ensures written < streamSize ==> written == |stream|
    ensures AreBlocks(stream, streamSize, sliceSize, blocks)
  {
    var count := streamSize / sliceSize;
    var lastBlockSize := streamSize % sliceSize;
    if lastBlockSize > 0 { count := count + 1; } else { lastBlockSize := sliceSize; }
    blocks, spooled, written := [], [], 0;
    var byteSize := sliceSize;
    ghost var planned := Planned(streamSize, sliceSize, 0);
    var i := 1;
    while i <= count
      invariant count == Count(streamSize, sliceSize) && lastBlockSize == LastSize(streamSize, sliceSize)
      invariant 1 <= i <= count + 1 && |blocks| == i - 1
      invariant i <= count ==> byteSize == sliceSize
      invariant written == |spooled| && spooled <= stream
      invariant planned == Planned(streamSize, sliceSize, i - 1)
      invariant written <= planned && (written < planned ==> written == |stream|)
      invariant AreBlocks(stream, streamSize, sliceSize, blocks)
    {
      if i == count { byteSize := lastBlockSize; }
      NextBlock(stream, streamSize, sliceSize, i - 1, written, byteSize);
      var chunk := TakeN(stream, written, byteSize);
      AddBlock(stream, streamSize, sliceSize, blocks, chunk);
      Spool(stream, spooled, byteSize);
      spooled := spooled + chunk;
      blocks := blocks + [chunk];
      written := written + |chunk|;
      planned := Planned(streamSize, sliceSize, i);
      i := i + 1;
    }
  }
}
