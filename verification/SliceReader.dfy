/** A stateful reader over a file stored in slices that are fetched one at a time. */
module SliceReader {
  type byte = bv8

  datatype ChunkSize = ChunkSize(position: int, size: int)

  /** A range of slices of one size, as the server reports it. */
  class SliceSize {
    var startIndex: int
    var endIndex: int
    var size: int

    constructor (startIndex: int, endIndex: int, size: int)
      ensures this.startIndex == startIndex && this.endIndex == endIndex && this.size == size
    {
      this.startIndex, this.endIndex, this.size := startIndex, endIndex, size;
    }

    /** A range without an end is one slice. */
    ghost function Last(): int
      reads this
    {
      if endIndex == 0 then startIndex else endIndex
    }
  }

  // ---- The sizes of the chunks ----

  /** The chunks of the slices from first to last. */
  function Run(first: int, last: int, size: int): seq<ChunkSize>
    decreases last - first
  {
    if last < first then [] else [ChunkSize(first, size)] + Run(first + 1, last, size)
  }

  lemma {:induction false} RunSnoc(first: int, last: int, size: int)
    requires first <= last
    ensures Run(first, last, size) == Run(first, last - 1, size) + [ChunkSize(last, size)]
    decreases last - first
  {
    if first < last { RunSnoc(first + 1, last, size); }
  }

  lemma {:induction false} RunAt(first: int, last: int, size: int)
    ensures |Run(first, last, size)| == if last < first then 0 else last - first + 1
    ensures forall i :: 0 <= i < |Run(first, last, size)| ==> Run(first, last, size)[i] == ChunkSize(first + i, size)
    decreases last - first
  {
    if first <= last { RunAt(first + 1, last, size); }
  }

  ghost function Expanded(ranges: seq<SliceSize>): seq<ChunkSize>
    reads ranges
  {
    if ranges == [] then []
    else
      var n := |ranges| - 1;
      Expanded(ranges[..n]) + Run(ranges[n].startIndex, ranges[n].Last(), ranges[n].size)
  }

  /** The ranges follow each other without gap or overlap, from the first slice on. */
  ghost predicate Tiling(ranges: seq<SliceSize>)
    reads ranges
  {
    forall i :: 0 <= i < |ranges| ==>
      && ranges[i].startIndex == (if i == 0 then 0 else ranges[i - 1].Last() + 1)
      && ranges[i].Last() >= ranges[i].startIndex
  }

  /** Then every chunk stands at its own index. */
  lemma {:induction false} ExpandedInOrder(ranges: seq<SliceSize>)
    requires Tiling(ranges)
    ensures |Expanded(ranges)| == if ranges == [] then 0 else ranges[|ranges| - 1].Last() + 1
    ensures forall i :: 0 <= i < |Expanded(ranges)| ==> Expanded(ranges)[i].position == i
    ensures forall k :: 0 <= k < |ranges| ==> RangeSized(ranges, k, Expanded(ranges))
    decreases |ranges|
  {
    if ranges != [] {
      var n := |ranges| - 1;
      ExpandedInOrder(ranges[..n]);
      assert n > 0 ==> ranges[..n][n - 1] == ranges[n - 1];
      RunAt(ranges[n].startIndex, ranges[n].Last(), ranges[n].size);
      forall k | 0 <= k < |ranges|
        ensures RangeSized(ranges, k, Expanded(ranges))
      {
        if k < n {
          assert RangeSized(ranges[..n], k, Expanded(ranges[..n])) && ranges[..n][k] == ranges[k];
        } else {
          assert n > 0 ==> |Expanded(ranges[..n])| == ranges[n].startIndex;
        }
      }
    }
  }

  /** The chunks at the indices of a range have its size. */
  ghost predicate RangeSized(ranges: seq<SliceSize>, k: nat, chunks: seq<ChunkSize>)
    requires k < |ranges|
    reads ranges
  {
    && 0 <= ranges[k].startIndex && ranges[k].Last() < |chunks|
    && forall i :: ranges[k].startIndex <= i <= ranges[k].Last() ==> chunks[i] == ChunkSize(i, ranges[k].size)
  }

  /** Whatever the ranges, their chunks come one range after the other, in each from the first slice to the last. */
  lemma ExpandedOneMore(ranges: seq<SliceSize>, r: SliceSize)
    ensures Expanded([]) == []
    ensures var chunks, was := Expanded(ranges + [r]), |Expanded(ranges)|;
            && Expanded(ranges) <= chunks
            && |chunks| - was == (if r.Last() < r.startIndex then 0 else r.Last() - r.startIndex + 1)
            && forall i :: was <= i < |chunks| ==> chunks[i] == ChunkSize(r.startIndex + i - was, r.size)
  {
    assert (ranges + [r])[..|ranges|] == ranges;
    RunAt(r.startIndex, r.Last(), r.size);
  }

  /** The sizes of the chunks in order; doing it again gives the same, though the ranges are changed in place. */
  method GetChunkSizes(ranges: seq<SliceSize>) returns (chunks: seq<ChunkSize>)
    modifies ranges
    ensures chunks == old(Expanded(ranges)) == Expanded(ranges)
    ensures forall s :: s in ranges ==>
              s.endIndex == s.Last() == old(s.Last()) && s.startIndex == old(s.startIndex) && s.size == old(s.size)
  {
    chunks := [];
    var i := 0;
    while i < |ranges|
      invariant 0 <= i <= |ranges|
      invariant forall s :: s in ranges ==>
                  s.Last() == old(s.Last()) && s.startIndex == old(s.startIndex) && s.size == old(s.size)
      invariant forall k :: 0 <= k < i ==> ranges[k].endIndex == ranges[k].Last()
      invariant chunks == old(Expanded(ranges[..i]))
    {
      var s := ranges[i];
      if s.endIndex == 0 { s.endIndex := s.startIndex; }
      var j := s.startIndex;
      ghost var before := chunks;
      while j <= s.endIndex
        modifies {}
        invariant s.startIndex <= j && (j <= s.endIndex + 1 || j == s.startIndex)
        invariant chunks == before + Run(s.startIndex, j - 1, s.size)
      {
        RunSnoc(s.startIndex, j, s.size);
        chunks := chunks + [ChunkSize(j, s.size)];
        j := j + 1;
      }
      RunAt(s.startIndex, j - 1, s.size);
      assert ranges[..i + 1][..i] == ranges[..i];
      i := i + 1;
    }
    assert ranges[..i] == ranges;
    SameExpanded(ranges);
  }

  twostate lemma {:induction false} SameExpanded(ranges: seq<SliceSize>)
    requires forall s :: s in ranges ==>
               s.Last() == old(s.Last()) && s.startIndex == old(s.startIndex) && s.size == old(s.size)
    ensures Expanded(ranges) == old(Expanded(ranges))
    decreases |ranges|
  {
    if ranges != [] { SameExpanded(ranges[..|ranges| - 1]); }
  }

  // ---- Reading ----

  function Flat(slices: seq<seq<byte>>): seq<byte> {
    if slices == [] then [] else slices[0] + Flat(slices[1..])
  }

  /** The slices one after the other. */
  lemma {:induction false} FlatConcat(a: seq<seq<byte>>, b: seq<seq<byte>>)
    ensures Flat(a + b) == Flat(a) + Flat(b)
    ensures Flat([]) == [] && forall s :: Flat([s]) == s
  {
    if a == [] {
      assert a + b == b;
    } else {
      assert (a + b)[0] == a[0] && (a + b)[1..] == a[1..] + b;
      FlatConcat(a[1..], b);
    }
    forall s: seq<byte>
      ensures Flat([s]) == s
    {
      assert [s][1..] == [];
    }
  }

  /** What is left of s after skipping n; nothing when n is too large. */
  function Rest(s: seq<byte>, n: int): seq<byte> {
    if n <= 0 then s else if n <= |s| then s[n..] else []
  }

  lemma RestConcat(a: seq<byte>, b: seq<byte>, n: int)
    ensures n >= |a| ==> Rest(a + b, n) == Rest(b, n - |a|)
    ensures n <= |a| ==> Rest(a + b, n) == Rest(a, n) + b
  {
  }

  /** A skip that reaches over a slice goes on behind it. */
  lemma PassOver(slices: seq<seq<byte>>, i: nat, n: int)
    requires i < |slices| && n > 0
    ensures var here, behind := Flat(slices[i..]), Flat(slices[i + 1..]);
            && (n >= |slices[i]| ==> Rest(here, n) == Rest(behind, n - |slices[i]|))
            && (n > |here| <==> n - |slices[i]| > |behind|)
  {
    assert slices[i..][0] == slices[i] && slices[i..][1..] == slices[i + 1..];
    RestConcat(slices[i], Flat(slices[i + 1..]), n);
  }

  /** Two parts that are together what is left of the file from the start position on. */
  predicate AreFrom(given: seq<byte>, left: seq<byte>, file: seq<byte>, start: int) {
    given + left == Rest(file, start)
  }

  datatype ReadError = NoError | Eof | FetchFailed | IsClosed | InvalidArguments

  class OpenObject {
    const data: seq<seq<byte>>        // what fetching each slice yields
    const chunks: seq<ChunkSize>
    var id: nat
    var skip: int
    var chunk: seq<byte>
    var closed: bool
    ghost const start: int
    ghost var given: seq<byte>        // everything that Read has returned so far

    /** What Read has still to return. */
    ghost function Remaining(): seq<byte>
      requires id <= |data|
      reads this
    {
      chunk + Rest(Flat(data[id..]), skip)
    }

    /** What has been returned and what remains are the file from the start position on. */
    ghost predicate Valid()
      reads this
    {
      && |chunks| == |data| && (forall i :: 0 <= i < |data| ==> chunks[i].size == |data[i]|)
      && id <= |data| && (skip > 0 ==> chunk == [])
      && (skip > |Flat(data[id..])| <==> start > |Flat(data)|)
      && AreFrom(given, Remaining(), Flat(data), start)
    }

    constructor (data: seq<seq<byte>>, chunks: seq<ChunkSize>, skip: int)
      requires |chunks| == |data| && forall i :: 0 <= i < |data| ==> chunks[i].size == |data[i]|
      ensures Valid() && fresh(this) && this.data == data && start == skip && given == [] && !closed
    {
      this.data, this.chunks, this.skip, start := data, chunks, skip, skip;
      id, chunk, closed, given := 0, [], false, [];
      new;
      assert data[0..] == data;
    }

    method PassChunk()
      requires Valid() && id < |data| && skip > 0 && skip >= |data[id]|
      modifies this`id, this`skip
      ensures Valid() && Remaining() == old(Remaining()) && id == old(id) + 1
    {
      PassOver(data, id, skip);
      skip := skip - chunks[id].size;
      id := id + 1;
    }

    /** Pass over whole chunks while the skip reaches over them. */
    method SkipChunks() returns (ok: bool)
      requires Valid()
      modifies this`id, this`skip
      ensures Valid() && id >= old(id) && Remaining() == old(Remaining())
      ensures ok <==> start <= |Flat(data)|
      ensures ok && skip > 0 ==> id < |data| && skip < |data[id]|
      ensures id > old(id) ==> old(skip) > 0
    {
      ghost var left := Remaining();
      while skip > 0
        invariant Valid() && id >= old(id) && Remaining() == left
        invariant id > old(id) ==> old(skip) > 0
        decreases |data| - id
      {
        if id >= |chunks| {
          assert data[id..] == [];
          return false;
        }
        if skip < chunks[id].size {
          PassOver(data, id, skip);
          break;
        }
        PassChunk();
      }
      ok := true;
    }

    method GetChunk() returns (err: ReadError)
      requires Valid() && chunk == [] && (skip > 0 ==> id < |data| && skip < |data[id]|)
      modifies this`id, this`chunk, this`skip
      ensures Valid() && Remaining() == old(Remaining())
      ensures err in {NoError, Eof, FetchFailed} && (err == Eof <==> old(id) == |data|)
      ensures if err == NoError then id == old(id) + 1 && skip <= 0
              else id == old(id) && chunk == [] && skip == old(skip)
    {
      if id >= |chunks| { return Eof; }
      if * { return FetchFailed; }
      RestConcat(data[id], Flat(data[id + 1..]), skip);
      assert Flat(data[id..]) == data[id] + Flat(data[id + 1..]);
      chunk := data[id];
      id := id + 1;
      if skip > 0 {
        chunk := chunk[skip..];
        skip := 0;
      }
      err := NoError;
    }

    /** Make sure of a current chunk. */
    method Fill() returns (err: ReadError)
      requires Valid()
      modifies this`id, this`skip, this`chunk
      ensures Valid() && Remaining() == old(Remaining()) && err != IsClosed
      ensures err == InvalidArguments <==> start > |Flat(data)|
      ensures err == Eof ==> Remaining() == []
      ensures err == NoError ==> skip <= 0 && (chunk == [] ==> id > old(id))
    {
      var ok := SkipChunks();
      if !ok { return InvalidArguments; }
      err := NoError;
      if |chunk| == 0 { err := GetChunk(); }
    }

    /**
     Returns the next n bytes. A failed fetch changes nothing, so a later call takes up where it
     left off, and the end is reported only when everything has been returned.
     */
    method Read(p: array<byte>) returns (n: nat, err: ReadError)
      requires Valid()
      modifies this`id, this`skip, this`chunk, this`given, p
      ensures Valid() && n <= p.Length && given == old(given) + p[..n] && p[n..] == old(p[n..])
      ensures err != NoError ==> n == 0
      ensures err == Eof ==> given == Rest(Flat(data), start)
      ensures err == Eof ==> start <= |Flat(data)| && given == if start < 0 then Flat(data) else Flat(data)[start..]
      ensures err == IsClosed <==> closed
      ensures err == InvalidArguments <==> !closed && start > |Flat(data)|
      ensures err == NoError && p.Length > 0 ==> n > 0 || id > old(id)
      ensures err == NoError && n < p.Length ==> chunk == []
    {
      n := 0;
      if closed { return n, IsClosed; }
      err := Fill();
      if err != NoError { return; }
      n := Copy(p, chunk);
      Deliver(n);
    }

    /** The first n bytes of the chunk have been returned. */
    method Deliver(n: nat)
      requires Valid() && n <= |chunk| && skip <= 0
      modifies this`chunk, this`given
      ensures Valid() && given == old(given) + old(chunk)[..n] && chunk == old(chunk)[n..]
    {
      assert chunk[..n] + chunk[n..] == chunk;
      given := given + chunk[..n];
      chunk := chunk[n..];
    }
  }

  /** The built-in copy. */
  method Copy(p: array<byte>, s: seq<byte>) returns (n: nat)
    modifies p
    ensures n == (if p.Length < |s| then p.Length else |s|) && p[..n] == s[..n] && p[n..] == old(p[n..])
  {
    n := if p.Length < |s| then p.Length else |s|;
    forall i | 0 <= i < n { p[i] := s[i]; }
  }

  /** After any calls, what has been returned is the beginning of the file from the start position. */
  lemma GivenIsPrefix(o: OpenObject)
    requires o.Valid() && 0 <= o.start <= |Flat(o.data)|
    ensures o.given <= Flat(o.data)[o.start..]
    ensures o.Remaining() == [] ==> o.given == Flat(o.data)[o.start..]
  {
  }
}
