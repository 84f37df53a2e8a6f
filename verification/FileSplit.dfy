/** Cutting a file into the parts of a multipart upload. */
module FileSplit {
  const KB := 1024
  const GB := 1024 * 1024 * 1024
  const MAX_PARTS := 10000

  datatype FileChunk = FileChunk(number: int, offset: int, size: int)

  /** The chunks are numbered from 1 and cover the file from 0 on without gap or overlap. */
  ghost predicate Tiles(chunks: seq<FileChunk>, fileSize: int) {
    && (forall i :: 0 <= i < |chunks| ==> chunks[i].number == i + 1 && chunks[i].size > 0)
    && (chunks != [] ==> chunks[0].offset == 0)
    && (forall i :: 0 <= i < |chunks| - 1 ==> chunks[i + 1].offset == End(chunks[i]))
    && fileSize == if chunks == [] then 0 else End(chunks[|chunks| - 1])
  }

  function End(c: FileChunk): int { c.offset + c.size }

  predicate Covers(c: FileChunk, k: int) { c.offset <= k < End(c) }

  lemma {:induction false} EndsGrow(chunks: seq<FileChunk>, fileSize: int, i: nat, j: nat)
    requires Tiles(chunks, fileSize) && i < j < |chunks|
    ensures End(chunks[i]) <= chunks[j].offset
    decreases j
  {
    assert chunks[j - 1 + 1].offset == End(chunks[j - 1]);
    if i < j - 1 { EndsGrow(chunks, fileSize, i, j - 1); }
  }

  lemma {:induction false} FindChunk(chunks: seq<FileChunk>, fileSize: int, k: int, n: nat) returns (i: nat)
    requires Tiles(chunks, fileSize) && 0 < n <= |chunks| && 0 <= k < End(chunks[n - 1])
    ensures i < n && Covers(chunks[i], k)
    decreases n
  {
    if k >= chunks[n - 1].offset {
      i := n - 1;
    } else {
      assert chunks[n - 1].offset == End(chunks[n - 2]);
      i := FindChunk(chunks, fileSize, k, n - 1);
    }
  }

  /** So every byte of the file is in exactly one chunk. */
  lemma EachByteOnce(chunks: seq<FileChunk>, fileSize: int, k: int)
    requires Tiles(chunks, fileSize) && 0 <= k < fileSize
    ensures exists i :: 0 <= i < |chunks| && Covers(chunks[i], k)
    ensures forall i, j :: 0 <= i < j < |chunks| ==> !(Covers(chunks[i], k) && Covers(chunks[j], k))
  {
    var i := FindChunk(chunks, fileSize, k, |chunks|);
    forall i, j | 0 <= i < j < |chunks|
      ensures !(Covers(chunks[i], k) && Covers(chunks[j], k))
    {
      EndsGrow(chunks, fileSize, i, j);
    }
  }

  /** Go's division, which cuts off towards zero. */
  function Quot(a: int, b: int): int
    requires b > 0
  {
    if a >= 0 then a / b else -(-a / b)
  }

  function Rem(a: int, b: int): int
    requires b > 0
  {
    a - b * Quot(a, b)
  }

  lemma NextMultiple(i: int, q: int)
    ensures (i + 1) * q == i * q + q
  {
  }

  lemma Multiples(i: int, j: int, q: int)
    requires i <= j && q >= 0
    ensures i * q <= j * q
  {
  }

  lemma QuotRem(a: int, b: int)
    requires a >= 0 && b > 0
    ensures Quot(a, b) * b + Rem(a, b) == a && 0 <= Rem(a, b) < b && Quot(a, b) >= 0
    ensures Quot(a, b) == a / b && Rem(a, b) == a % b
  {
    assert b * Quot(a, b) == Quot(a, b) * b;
  }

  lemma QuotAtLeast(a: int, b: int, m: int)
    requires a >= 0 && b > 0 && a >= m * b
    ensures Quot(a, b) >= m
  {
    QuotRem(a, b);
    NextMultiple(m - 1, b);
    if Quot(a, b) < m { Multiples(Quot(a, b), m - 1, b); }
  }

  lemma QuotBelow(a: int, b: int)
    requires b > 0
    ensures Quot(a, b) < 10000 <==> a < 10000 * b
    ensures a <= 0 ==> Quot(a, b) <= 0 && Rem(a, b) <= 0
  {
    if a >= 0 {
      QuotRem(a, b);
      if a >= 10000 * b { QuotAtLeast(a, b, 10000); }
      if Quot(a, b) >= 10000 { Multiples(10000, Quot(a, b), b); }
    } else {
      QuotRem(-a, b);
      assert Rem(a, b) == -Rem(-a, b);
    }
  }

  /** The given number of parts, all of one size but the last, which takes up the remainder. */
  method SplitFileByPartNum(fileSize: int, chunkNum: int) returns (ok: bool, chunks: seq<FileChunk>)
    ensures ok <==> 0 < chunkNum <= 10000 && chunkNum <= fileSize
    ensures ok ==> Tiles(chunks, fileSize) && |chunks| == chunkNum
    ensures ok ==> forall i :: 0 <= i < |chunks| ==>
                     if i < |chunks| - 1 then chunks[i].size == fileSize / chunkNum
                     else chunks[i].size == fileSize / chunkNum + fileSize % chunkNum
  {
    if chunkNum <= 0 || chunkNum > MAX_PARTS { return false, []; }
    if chunkNum > fileSize { return false, []; }
    var q, r := Quot(fileSize, chunkNum), Rem(fileSize, chunkNum);
    QuotRem(fileSize, chunkNum);
    QuotAtLeast(fileSize, chunkNum, 1);
    chunks := [];
    var i := 0;
    while i < chunkNum
      invariant 0 <= i == |chunks| <= chunkNum
      invariant forall k :: 0 <= k < i ==> chunks[k].number == k + 1 && chunks[k].offset == k * q
      invariant forall k :: 0 <= k < i ==>
                  chunks[k].size == if k == chunkNum - 1 then q + r else q
    {
      var size := if i == chunkNum - 1 then q + r else q;
      chunks := chunks + [FileChunk(i + 1, i * q, size)];
      i := i + 1;
    }
    EqualParts(chunks, q, r);
    ok := true;
  }

  /** Parts at the multiples of one size, the last with r more, cover exactly so many of that size and r. */
  lemma EqualParts(chunks: seq<FileChunk>, q: int, r: int)
    requires chunks != [] && q > 0 && r >= 0
    requires forall k :: 0 <= k < |chunks| ==> chunks[k].number == k + 1 && chunks[k].offset == k * q
    requires forall k :: 0 <= k < |chunks| ==> chunks[k].size == if k == |chunks| - 1 then q + r else q
    ensures Tiles(chunks, q * |chunks| + r)
  {
    forall k | 0 <= k < |chunks| - 1
      ensures chunks[k + 1].offset == End(chunks[k])
    {
      NextMultiple(k, q);
    }
    NextMultiple(|chunks| - 1, q);
  }

  /** Parts of the given size, and a smaller one for the remainder. */
  method SplitFileByPartSize(fileSize: int, chunkSize: int) returns (ok: bool, chunks: seq<FileChunk>)
    ensures ok <==> chunkSize > 0 && fileSize < 10000 * chunkSize
    ensures ok && fileSize > 0 ==> Tiles(chunks, fileSize) && 0 < |chunks| <= 10000
    ensures ok && fileSize <= 0 ==> chunks == []
    ensures ok ==> forall i :: 0 <= i < |chunks| - 1 ==> chunks[i].size == chunkSize
  {
    if chunkSize <= 0 { return false, []; }
    QuotBelow(fileSize, chunkSize);
    var chunkN := Quot(fileSize, chunkSize);
    if chunkN >= MAX_PARTS { return false, []; }
    chunks := [];
    var i := 0;
    while i < chunkN
      invariant 0 <= i == |chunks| && (chunkN >= 0 ==> i <= chunkN) && (chunkN < 0 ==> i == 0)
      invariant forall k :: 0 <= k < i ==> chunks[k] == FileChunk(k + 1, k * chunkSize, chunkSize)
    {
      chunks := chunks + [FileChunk(i + 1, i * chunkSize, chunkSize)];
      i := i + 1;
    }
    ghost var full := chunks;
    var rest := Rem(fileSize, chunkSize);
    if rest > 0 { chunks := chunks + [FileChunk(|chunks| + 1, |chunks| * chunkSize, rest)]; }
    if fileSize > 0 {
      QuotRem(fileSize, chunkSize);
      forall k | 0 <= k < |chunks| - 1
        ensures chunks[k + 1].offset == End(chunks[k])
      {
        NextMultiple(k, chunkSize);
      }
      if full != [] { NextMultiple(|full| - 1, chunkSize); }
    }
    ok := true;
  }

  datatype Outcome = Chunks(chunks: seq<FileChunk>) | Failure | Panic

  /** The number of parts that a size asks for at first; none at exactly nine gigabytes. */
  function PartNum(fileSize: int, from: int): int
    requires 1 <= from <= 10
    decreases 10 - from
  {
    if from == 10 then if fileSize > 9 * GB then MAX_PARTS else 0
    else if fileSize < from * GB then from * 1000
    else PartNum(fileSize, from + 1)
  }

  lemma {:induction false} PartNumIs(fileSize: int, from: int)
    requires 1 <= from <= 10 && (from == 1 || fileSize >= (from - 1) * GB)
    ensures var n := PartNum(fileSize, from);
            && (n == 0 <==> fileSize == 9 * GB)
            && (n != 0 ==> 1000 <= n <= MAX_PARTS && (n == 1000 || fileSize >= 200 * KB * n)
                           && (n == 1000 ==> fileSize < GB))
            && (0 <= fileSize < 9 * GB ==> n == (fileSize / GB + 1) * 1000)
            && (fileSize > 9 * GB ==> n == MAX_PARTS)
    decreases 10 - from
  {
    if from < 10 && fileSize >= from * GB { PartNumIs(fileSize, from + 1); }
  }

  /**
     Every size from 1000 bytes on is cut into at most 10000 parts of at least 100 KB, the last one
     perhaps smaller; only a file of exactly nine gigabytes gets no part, and its first one is missed.
     */
  method SplitFile(fileSize: int) returns (r: Outcome)
    ensures r.Failure? <==> fileSize < 1000
    ensures r.Panic? <==> fileSize == 9663676416
    ensures r.Chunks? ==> Tiles(r.chunks, fileSize) && 0 < |r.chunks| <= 10000
    ensures r.Chunks? ==> forall i :: 0 <= i < |r.chunks| - 1 ==> r.chunks[i].size >= 102400
    ensures r.Chunks? && fileSize >= 102400000 ==>
              && |r.chunks| == (if fileSize > 9663676416 then 10000 else (fileSize / 1073741824 + 1) * 1000)
              && forall i :: 0 <= i < |r.chunks| ==> r.chunks[i].size >= 102400
    ensures r.Chunks? && fileSize < 102400000 ==> forall i :: 0 <= i < |r.chunks| - 1 ==> r.chunks[i].size == 102400
  {
    var chunks: seq<FileChunk> := [];
    var ok := true;
    var i := 1;
    ghost var n := PartNum(fileSize, 1);
    PartNumIs(fileSize, 1);
    while i < 10
      invariant 1 <= i <= 10 && chunks == [] && n == PartNum(fileSize, i)
      invariant i > 1 ==> fileSize >= (i - 1) * GB
    {
      if fileSize < i * GB {
        ok, chunks := SplitFileByPartNum(fileSize, i * 1000);
        if !ok { return Failure; }
        break;
      }
      i := i + 1;
    }
    if fileSize > 9 * GB {
      ok, chunks := SplitFileByPartNum(fileSize, MAX_PARTS);
      if !ok { return Failure; }
    }
    if chunks == [] { return Panic; }
    if fileSize >= 100 * KB * 1000 { QuotAtLeast(fileSize, n, 100 * KB); }
    if chunks[0].size < 100 * KB {
      assert fileSize < 102400000;
      ok, chunks := SplitFileByPartSize(fileSize, 100 * KB);
      if !ok { return Failure; }
    }
    r := Chunks(chunks);
  }
}
