/** Asking for the addresses of a file's slices, at most 200 in one request. */
module SliceLinks {
  import opened Wrappers
  import opened Batching

  const BATCH := 200

  /** What the server answers to one request, if it does; any function. */
  type Server<!A> = seq<string> -> Option<seq<A>>

  /** The answers to some requests one after the other; nothing if one is missing. */
  function Answers<A>(batches: seq<seq<string>>, server: Server<A>): Option<seq<A>> {
    if |batches| == 0 then Some([])
    else
      match (server(batches[0]), Answers(batches[1..], server))
      case (Some(first), Some(rest)) => Some(first + rest)
      case _ => None
  }

  lemma {:induction false} AnswersConcat<A>(a: seq<seq<string>>, b: seq<seq<string>>, server: Server<A>)
    ensures Answers(a + b, server) ==
            if Answers(a, server).Some? && Answers(b, server).Some?
            then Some(Answers(a, server).value + Answers(b, server).value) else None
  {
    if |a| == 0 {
      assert a + b == b;
      if Answers(b, server).Some? { assert [] + Answers(b, server).value == Answers(b, server).value; }
    } else {
      assert (a + b)[1..] == a[1..] + b;
      AnswersConcat(a[1..], b, server);
      var first, rest, more := server(a[0]), Answers(a[1..], server), Answers(b, server);
      if first.Some? && rest.Some? && more.Some? {
        assert first.value + (rest.value + more.value) == first.value + rest.value + more.value;
      }
    }
  }

  /** One missing answer spoils them all, and one request is answered as the server does. */
  lemma {:induction false} AnswersNone<A>(batches: seq<seq<string>>, server: Server<A>)
    ensures Answers(batches, server).None? <==> exists i :: 0 <= i < |batches| && server(batches[i]).None?
    ensures forall b: seq<string> :: Answers([b], server) == server(b)
    decreases |batches|
  {
    if |batches| > 0 {
      AnswersNone(batches[1..], server);
      assert forall i :: 1 <= i < |batches| ==> batches[1..][i - 1] == batches[i];
      if Answers(batches[1..], server).None? {
        var i :| 0 <= i < |batches[1..]| && server(batches[1..][i]).None?;
        assert server(batches[i + 1]).None?;
      }
    }
    forall b: seq<string>
      ensures Answers([b], server) == server(b)
    {
      assert [b][1..] == [];
      if server(b).Some? { assert server(b).value + [] == server(b).value; }
    }
  }

  function Addresses<A>(nodes: seq<string>, address: string -> A): (a: seq<A>)
    ensures |a| == |nodes|
  {
    seq(|nodes|, i requires 0 <= i < |nodes| => address(nodes[i]))
  }

  /** When every request is answered node by node, the answers are the addresses of all nodes in order. */
  lemma {:induction false} AnswersInOrder<A>(nodes: seq<string>, server: Server<A>, address: string -> A)
    requires forall b: seq<string> :: |b| <= 200 ==> server(b) == Some(Addresses(b, address))
    ensures Answers(Batches(nodes, 200), server) == Some(Addresses(nodes, address))
    ensures forall i :: 0 <= i < |nodes| ==> Addresses(nodes, address)[i] == address(nodes[i])
    decreases |nodes|
  {
    var batches := Batches(nodes, BATCH);
    if |nodes| > BATCH {
      var head, rest := nodes[..BATCH], nodes[BATCH..];
      AnswersInOrder(rest, server, address);
      assert batches[1..] == Batches(rest, BATCH);
      assert server(head) == Some(Addresses(head, address));
      assert Addresses(nodes, address) == Addresses(head, address) + Addresses(rest, address);
    } else if |nodes| > 0 {
      assert batches[1..] == [];
      assert server(nodes) == Some(Addresses(nodes, address));
      assert Addresses(nodes, address) + [] == Addresses(nodes, address);
    }
  }

  /** Whatever the number of nodes, the requests are its batches of at most 200, one after the other. */
  method GetLink<A>(rawNodes: seq<string>, server: Server<A>) returns (fileAddrs: Option<seq<A>>)
    ensures fileAddrs == Answers(Batches(rawNodes, 200), server)
  {
    var nodesNumber := |rawNodes|;
    var nodesIndex: int := nodesNumber - 1;
    var startIndex, endIndex: int := 0, nodesIndex;
    var addrs: seq<A> := [];
    ghost var sent: seq<seq<string>> := [];
    ghost var all := Batches(rawNodes, BATCH);
    assert rawNodes[0..] == rawNodes;
    while nodesIndex >= 0
      invariant 0 <= startIndex <= nodesNumber
      invariant all == sent + Batches(rawNodes[startIndex..], BATCH) && Answers(sent, server) == Some(addrs)
      invariant if nodesIndex >= 0 then nodesIndex == nodesNumber - 1 - startIndex else startIndex == nodesNumber
      invariant startIndex > 0 ==> nodesIndex < BATCH
      decreases nodesIndex
    {
      ghost var from := startIndex;
      endIndex := if nodesIndex >= BATCH then BATCH else nodesNumber;
      while endIndex <= nodesNumber
        invariant 0 <= startIndex <= nodesNumber
        invariant all == sent + Batches(rawNodes[startIndex..], BATCH) && Answers(sent, server) == Some(addrs)
        invariant
          // full batches, from the first node on
          || (endIndex == startIndex + BATCH && nodesIndex == nodesNumber - 1 - startIndex
              && from == 0 && nodesNumber > BATCH)
          // the last nodes, and then nothing
          || (endIndex == nodesNumber && 0 <= nodesIndex == nodesNumber - 1 - startIndex < BATCH)
          || (startIndex == nodesNumber && endIndex == nodesNumber + BATCH && nodesIndex < 0)
        decreases nodesNumber - endIndex
      {
        if endIndex == 0 { endIndex := 1; }
        var batch := rawNodes[startIndex..endIndex];
        FirstBatch(rawNodes, BATCH, startIndex, endIndex);
        NextAnswer(sent, batch, Batches(rawNodes[endIndex..], BATCH), server);
        var sliceAddress := server(batch);
        if sliceAddress.None? { return None; }
        sent := sent + [batch];
        addrs := addrs + sliceAddress.value;
        startIndex := endIndex;
        nodesIndex := nodesIndex - BATCH;
        endIndex := endIndex + BATCH;
      }
    }
    assert rawNodes[startIndex..] == [] && sent + [] == sent;
    fileAddrs := Some(addrs);
  }

  lemma NextAnswer<A>(sent: seq<seq<string>>, batch: seq<string>, rest: seq<seq<string>>, server: Server<A>)
    ensures sent + ([batch] + rest) == sent + [batch] + rest
    ensures server(batch).None? ==> Answers(sent + [batch] + rest, server) == None
    ensures Answers(sent, server).Some? && server(batch).Some? ==>
              Answers(sent + [batch], server) == Some(Answers(sent, server).value + server(batch).value)
  {
    assert [batch][1..] == [];
    AnswersConcat(sent, [batch], server);
    AnswersConcat(sent + [batch], rest, server);
    if server(batch).Some? { assert server(batch).value + [] == server(batch).value; }
  }
}
