/** A list of names cut into consecutive batches of at most a given size. */
module Batching {
  function Batches(s: seq<string>, size: nat): (b: seq<seq<string>>)
    requires size > 0
    decreases |s|
  {
    if |s| == 0 then []
    else if |s| <= size then [s]
    else [s[..size]] + Batches(s[size..], size)
  }

  function Flatten(b: seq<seq<string>>): seq<string> {
    if |b| == 0 then [] else b[0] + Flatten(b[1..])
  }

  lemma {:induction false} FlattenBatches(s: seq<string>, size: nat)
    requires size > 0
    ensures Flatten(Batches(s, size)) == s
    decreases |s|
  {
    if |s| == 0 {
    } else if |s| <= size {
      assert [s][1..] == [] && s + [] == s;
    } else {
      var head, rest := s[..size], s[size..];
      FlattenBatches(rest, size);
      assert ([head] + Batches(rest, size))[1..] == Batches(rest, size);
      assert head + rest == s;
    }
  }

  predicate AreSmall(b: seq<seq<string>>, size: nat) { forall i :: 0 <= i < |b| ==> 0 < |b[i]| <= size }

  lemma {:induction false} SmallBatches(s: seq<string>, size: nat)
    requires size > 0
    ensures AreSmall(Batches(s, size), size)
    decreases |s|
  {
    if |s| > size { SmallBatches(s[size..], size); }
  }

  /** The batches are all full but the last, which is neither empty nor larger, and together they are the list. */
  lemma BatchesAreSmall(s: seq<string>, size: nat)
    requires size > 0
    ensures var b := Batches(s, size);
            && Flatten(b) == s
            && (forall i :: 0 <= i < |b| ==> 0 < |b[i]| <= size)
            && (forall i :: 0 <= i < |b| - 1 ==> |b[i]| == size)
  {
    FlattenBatches(s, size);
    SmallBatches(s, size);
    FullBatches(s, size);
  }

  lemma {:induction false} FullBatches(s: seq<string>, size: nat)
    requires size > 0
    ensures forall i :: 0 <= i < |Batches(s, size)| - 1 ==> |Batches(s, size)[i]| == size
    decreases |s|
  {
    if |s| > size { FullBatches(s[size..], size); }
  }

  /** The batches of what is left start with its first elements. */
  lemma FirstBatch(s: seq<string>, size: nat, i: nat, end: nat)
    requires i < |s| && 0 < size && end == if i + size < |s| then i + size else |s|
    ensures Batches(s[i..], size) == [s[i..end]] + Batches(s[end..], size)
  {
    var rest := s[i..];
    if |rest| > size {
      assert rest[..size] == s[i..end] && rest[size..] == s[end..];
    } else {
      assert rest == s[i..end] && s[end..] == [];
    }
  }

  lemma {:induction false} FlattenConcat(a: seq<seq<string>>, b: seq<seq<string>>)
    ensures Flatten(a + b) == Flatten(a) + Flatten(b)
    ensures Flatten([]) == [] && forall s :: Flatten([s]) == s
  {
    forall s: seq<string>
      ensures Flatten([s]) == s
    {
      assert [s][1..] == [];
    }
    if a == [] {
      assert a + b == b;
    } else {
      assert (a + b)[1..] == a[1..] + b;
      FlattenConcat(a[1..], b);
    }
  }

  lemma {:induction false} InFlatten(b: seq<seq<string>>, i: nat, p: string)
    requires i < |b| && p in b[i]
    ensures p in Flatten(b)
  {
    if i > 0 { InFlatten(b[1..], i - 1, p); }
  }
}
