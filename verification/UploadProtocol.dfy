/**
 The resumable slice upload as a state machine. Runs on the same or on different files proceed
 concurrently; inside a run the launching loop, its workers and the caller's cancellation
 interleave freely; a cancelled run saves what is left, and a later run takes it out of the cache.
 */
module UploadProtocol {
  import opened Wrappers

  /** An entry of the block list: a part still to send, or the mark that replaces it once it is sent. */
  datatype Slot = Todo(part: nat) | Done

  /** The answer of precreate, as it is updated, saved and resumed. The token is the object's identity. */
  datatype Progress = Progress(token: nat, session: string, parts: set<nat>, blocks: seq<Slot>)

  datatype Worker = Idle | Active | Sent | Ended

  datatype Phase = Launching(next: nat) | Draining | Creating

  /** Why the group's context is cancelled; the first cause stays. */
  datatype Cause = NoCause | UserCancel | WorkerError

  datatype Run = Run(key: string, progress: Progress, phase: Phase, cause: Cause, workers: seq<Worker>)

  datatype State = State(
    runs: map<nat, Run>,
    saved: map<string, Progress>,
    uploaded: set<(string, nat)>,
    created: set<(string, set<nat>)>,
    nextToken: nat)

  datatype Action =
    | Resume(run: nat, key: string)
    | Precreate(run: nat, key: string, session: string, list: seq<nat>)
    | Cancel(run: nat)
    | Launch(run: nat)
    | Break(run: nat)
    | Send(run: nat, i: nat)
    | SendLost(run: nat, i: nat)
    | Mark(run: nat, i: nat)
    | Fail(run: nat, i: nat)
    | Finish(run: nat)
    | SaveAndStop(run: nat)
    | Stop(run: nat)
    | Create(run: nat)
    | Expire(key: string)

  function Pending(blocks: seq<Slot>): set<nat> {
    set i | 0 <= i < |blocks| && blocks[i].Todo? :: blocks[i].part
  }

  /** utils.SliceFilter keeping what is still to send. */
  function Remaining(blocks: seq<Slot>): seq<Slot> {
    if blocks == [] then []
    else if blocks[0].Todo? then [blocks[0]] + Remaining(blocks[1..])
    else Remaining(blocks[1..])
  }

  method SliceFilter(blocks: seq<Slot>) returns (left: seq<Slot>)
    ensures left == Remaining(blocks)
  {
    left := [];
    var i := 0;
    while i < |blocks|
      invariant 0 <= i <= |blocks|
      invariant left + Remaining(blocks[i..]) == Remaining(blocks)
    {
      assert blocks[i..][1..] == blocks[i + 1..];
      if blocks[i].Todo? { left := left + [blocks[i]]; }
      i := i + 1;
    }
  }

  /** The cache of saved progresses, shared by all drivers; an entry may also expire. */
  class UploadStateCache {
    var saved: map<string, Progress>

    method SaveUploadProgress(key: string, state: Progress)
      modifies this
      ensures saved == old(saved)[key := state]
    {
      saved := saved[key := state];
    }

    /** Get and delete in one step, so that two runs never get the same progress. */
    method GetUploadProgress(key: string) returns (state: Option<Progress>)
      modifies this
      ensures state == (if key in old(saved) then Some(old(saved)[key]) else None)
      ensures saved == old(saved) - {key}
    {
      if key !in saved { return None; }
      state := Some(saved[key]);
      saved := saved - {key};
    }
  }

  function Begin(key: string, p: Progress): Run {
    Run(key, p, Launching(0), NoCause, seq(|p.blocks|, i => Idle))
  }

  function Todos(list: seq<nat>): seq<Slot> {
    seq(|list|, i requires 0 <= i < |list| => Todo(list[i]))
  }

  predicate Quiet(r: Run) {
    forall i :: 0 <= i < |r.workers| ==> r.workers[i].Idle? || r.workers[i].Ended?
  }

  predicate Working(s: State, run: nat, i: nat, w: Worker) {
    && run in s.runs && i < |s.runs[run].workers| && i < |s.runs[run].progress.blocks|
    && s.runs[run].workers[i] == w && s.runs[run].progress.blocks[i].Todo?
  }

  function SetRun(s: State, run: nat, r: Run): State { s.(runs := s.runs[run := r]) }

  function DropRun(s: State, run: nat): State { s.(runs := s.runs - {run}) }

  function Blame(c: Cause, new': Cause): Cause { if c.NoCause? then new' else c }

  function Resumed(s: State, run: nat, key: string): State
    requires key in s.saved
  {
    SetRun(s, run, Begin(key, s.saved[key])).(saved := s.saved - {key})
  }

  function Fresh(token: nat, session: string, list: seq<nat>): Progress {
    Progress(token, session, (set part | part in list), Todos(list))
  }

  function Precreated(s: State, run: nat, key: string, session: string, list: seq<nat>): State {
    SetRun(s, run, Begin(key, Fresh(s.nextToken, session, list))).(nextToken := s.nextToken + 1)
  }

  /** One step of the system. */
  predicate Next(s: State, a: Action, s': State) {
    match a
    case Resume(run, key) =>     // get and delete
      && run !in s.runs && key in s.saved && s' == Resumed(s, run, key)
    case Precreate(run, key, session, list) =>   // another run may save under the key meanwhile
      && run !in s.runs && s' == Precreated(s, run, key, session, list)
    case Cancel(run) =>
      && run in s.runs
      && s' == SetRun(s, run, s.runs[run].(cause := Blame(s.runs[run].cause, UserCancel)))
    case Launch(run) =>
      && run in s.runs && s.runs[run].phase.Launching?
      && var r, n := s.runs[run], s.runs[run].phase.next;
      && n < |r.workers|
      && s' == SetRun(s, run, r.(workers := r.workers[n := Active], phase := Launching(n + 1)))
    case Break(run) =>           // the loop ends, or stops because the context is cancelled
      && run in s.runs && s.runs[run].phase.Launching?
      && (s.runs[run].phase.next == |s.runs[run].workers| || !s.runs[run].cause.NoCause?)
      && s' == SetRun(s, run, s.runs[run].(phase := Draining))
    case Send(run, i) =>
      && Working(s, run, i, Active)
      && var r := s.runs[run];
      && s' == SetRun(s, run, r.(workers := r.workers[i := Sent]))
               .(uploaded := s.uploaded + {(r.progress.session, r.progress.blocks[i].part)})
    case SendLost(run, i) =>     // the slice arrives but its answer does not
      && Working(s, run, i, Active)
      && var r := s.runs[run];
      && s' == s.(uploaded := s.uploaded + {(r.progress.session, r.progress.blocks[i].part)})
    case Mark(run, i) =>
      && Working(s, run, i, Sent)
      && var r := s.runs[run];
      && s' == SetRun(s, run, r.(workers := r.workers[i := Ended],
                                 progress := r.progress.(blocks := r.progress.blocks[i := Done])))
    case Fail(run, i) =>
      && Working(s, run, i, Active)
      && var r := s.runs[run];
      && s' == SetRun(s, run, r.(workers := r.workers[i := Ended], cause := Blame(r.cause, WorkerError)))
    case Finish(run) =>          // Wait returns nil
      && run in s.runs && s.runs[run].phase == Draining && Quiet(s.runs[run]) && s.runs[run].cause.NoCause?
      && s' == SetRun(s, run, s.runs[run].(phase := Creating))
    case SaveAndStop(run) =>     // Wait returns an error that is a cancellation
      && run in s.runs && s.runs[run].phase == Draining && Quiet(s.runs[run]) && !s.runs[run].cause.NoCause?
      && var r := s.runs[run];
      && s' == DropRun(s, run).(saved := s.saved[r.key := r.progress.(blocks := Remaining(r.progress.blocks))])
    case Stop(run) =>            // Wait or create returns some other error
      && run in s.runs
      && (s.runs[run].phase == Creating
          || (s.runs[run].phase == Draining && Quiet(s.runs[run]) && !s.runs[run].cause.NoCause?))
      && s' == DropRun(s, run)
    case Create(run) =>
      && run in s.runs && s.runs[run].phase == Creating
      && var r := s.runs[run];
      && s' == DropRun(s, run).(created := s.created + {(r.progress.session, r.progress.parts)})
    case Expire(key) =>
      s' == s.(saved := s.saved - {key})
  }

  predicate Init(s: State) {
    s == State(map[], map[], {}, {}, 0)
  }

  // ---- What always holds ----

  /** Sent slices and listed slices together are all the slices of the upload, and nothing else is listed. */
  predicate Covers(uploaded: set<(string, nat)>, p: Progress) {
    && (forall part :: part in p.parts ==> (p.session, part) in uploaded || part in Pending(p.blocks))
    && Pending(p.blocks) <= p.parts
  }

  predicate AllTodo(blocks: seq<Slot>) {
    forall i :: 0 <= i < |blocks| ==> blocks[i].Todo?
  }

  predicate WorkerOk(uploaded: set<(string, nat)>, r: Run, i: nat)
    requires i < |r.workers| == |r.progress.blocks|
  {
    var w, b := r.workers[i], r.progress.blocks[i];
    && (w.Idle? || w.Active? || w.Sent? ==> b.Todo?)
    && (w.Sent? ==> (r.progress.session, b.part) in uploaded)
    && (w.Ended? && r.cause.NoCause? ==> b.Done?)
    && (r.phase.Launching? ==> (w.Idle? <==> i >= r.phase.next))
    && (w.Idle? && !r.phase.Launching? ==> !r.cause.NoCause?)
  }

  predicate RunOk(uploaded: set<(string, nat)>, r: Run) {
    && |r.workers| == |r.progress.blocks|
    && (r.phase.Launching? ==> r.phase.next <= |r.workers|)
    && (forall i :: 0 <= i < |r.workers| ==> WorkerOk(uploaded, r, i))
    && (r.phase.Creating? ==> forall i :: 0 <= i < |r.workers| ==> r.progress.blocks[i].Done?)
    && Covers(uploaded, r.progress)
  }

  /** No two holders, live or saved, hold the same progress. */
  predicate Owned(s: State) {
    && (forall a, b :: a in s.runs && b in s.runs && a != b ==> s.runs[a].progress.token != s.runs[b].progress.token)
    && (forall k, l :: k in s.saved && l in s.saved && k != l ==> s.saved[k].token != s.saved[l].token)
    && (forall a, k :: a in s.runs && k in s.saved ==> s.runs[a].progress.token != s.saved[k].token)
    && (forall a :: a in s.runs ==> s.runs[a].progress.token < s.nextToken)
    && (forall k :: k in s.saved ==> s.saved[k].token < s.nextToken)
  }

  /** A file was created only after every slice had been uploaded. */
  predicate CreatedComplete(s: State) {
    forall c, part :: c in s.created && part in c.1 ==> (c.0, part) in s.uploaded
  }

  predicate Inv(s: State) {
    && (forall a :: a in s.runs ==> RunOk(s.uploaded, s.runs[a]))
    && (forall k :: k in s.saved ==> Covers(s.uploaded, s.saved[k]) && AllTodo(s.saved[k].blocks))
    && Owned(s)
    && CreatedComplete(s)
  }

  /** What is still to send stays in its place among what is still to send, each as often as it was listed. */
  lemma {:induction false} RemainingConcat(a: seq<Slot>, b: seq<Slot>)
    ensures Remaining(a + b) == Remaining(a) + Remaining(b)
    ensures Remaining([Done]) == [] && forall part: nat :: Remaining([Todo(part)]) == [Todo(part)]
  {
    if a == [] {
      assert a + b == b;
    } else {
      assert (a + b)[0] == a[0] && (a + b)[1..] == a[1..] + b;
      RemainingConcat(a[1..], b);
    }
    forall part: nat
      ensures Remaining([Todo(part)]) == [Todo(part)]
    {
      assert [Todo(part)][1..] == [];
    }
    assert [Done][1..] == [];
  }

  lemma {:induction false} RemainingPending(blocks: seq<Slot>)
    ensures Pending(Remaining(blocks)) == Pending(blocks) && AllTodo(Remaining(blocks))
  {
    if blocks != [] {
      RemainingPending(blocks[1..]);
      var rest, r := blocks[1..], Remaining(blocks[1..]);
      assert forall i :: 0 <= i < |rest| ==> rest[i] == blocks[i + 1];
      assert Pending(blocks) == Pending(rest) + if blocks[0].Todo? then {blocks[0].part} else {};
      if blocks[0].Todo? {
        var rs := Remaining(blocks);
        assert forall i :: 0 <= i < |r| ==> rs[i + 1] == r[i];
        assert rs[0] == blocks[0];
        assert Pending(rs) == Pending(r) + {blocks[0].part};
      }
    }
  }

  lemma MoreUploaded(u: set<(string, nat)>, v: set<(string, nat)>, r: Run)
    requires u <= v && RunOk(u, r)
    ensures RunOk(v, r)
  {
    forall i | 0 <= i < |r.workers|
      ensures WorkerOk(v, r, i)
    {
      assert WorkerOk(u, r, i);
    }
  }

  /** Changing one run keeps all the others. */
  lemma OneRun(s: State, s': State, run: nat)
    requires Inv(s) && run in s'.runs && s.uploaded <= s'.uploaded
    requires s' == s.(runs := s'.runs, uploaded := s'.uploaded) && s'.runs == s.runs[run := s'.runs[run]]
    requires run in s.runs && s'.runs[run].progress.token == s.runs[run].progress.token
    requires RunOk(s'.uploaded, s'.runs[run])
    ensures Inv(s')
  {
    forall a | a in s'.runs
      ensures RunOk(s'.uploaded, s'.runs[a])
    {
      if a != run { MoreUploaded(s.uploaded, s'.uploaded, s.runs[a]); }
    }
  }

  /** Sending a slice and marking it moves it from the list to the uploaded ones. */
  lemma MarkKeepsRun(u: set<(string, nat)>, r: Run, i: nat)
    requires RunOk(u, r) && i < |r.workers| && r.workers[i].Sent?
    ensures RunOk(u, r.(workers := r.workers[i := Ended],
                        progress := r.progress.(blocks := r.progress.blocks[i := Done])))
  {
    var p := r.progress.(blocks := r.progress.blocks[i := Done]);
    var r' := r.(workers := r.workers[i := Ended], progress := p);
    assert WorkerOk(u, r, i);
    forall part | part in p.parts
      ensures (p.session, part) in u || part in Pending(p.blocks)
    {
      if (p.session, part) !in u {
        assert part in Pending(r.progress.blocks);
        var j :| 0 <= j < |r.progress.blocks| && r.progress.blocks[j] == Todo(part);
        assert p.blocks[j] == Todo(part);
      }
    }
    forall j | 0 <= j < |r'.workers|
      ensures WorkerOk(u, r', j)
    {
      assert WorkerOk(u, r, j);
    }
  }

  lemma BeginOk(u: set<(string, nat)>, key: string, p: Progress)
    requires Covers(u, p) && AllTodo(p.blocks)
    ensures RunOk(u, Begin(key, p))
  {
  }

  lemma RunStep(s: State, a: Action, s': State)
    requires Inv(s) && Next(s, a, s')
    requires a.Cancel? || a.Launch? || a.Break? || a.Send? || a.SendLost? || a.Mark? || a.Fail? || a.Finish?
    ensures Inv(s')
  {
    var r := s.runs[a.run];
    var r' := s'.runs[a.run];
    assert RunOk(s.uploaded, r);
    if a.Mark? {
      MarkKeepsRun(s.uploaded, r, a.i);
    } else {
      forall j | 0 <= j < |r'.workers|
        ensures WorkerOk(s'.uploaded, r', j)
      {
        assert WorkerOk(s.uploaded, r, j);
      }
      if a.Finish? {
        forall j | 0 <= j < |r.workers|
          ensures r.progress.blocks[j].Done?
        {
          assert WorkerOk(s.uploaded, r, j);
        }
      }
    }
    assert s'.runs == s.runs[a.run := r'];
    OneRun(s, s', a.run);
  }

  lemma FreshCovers(u: set<(string, nat)>, token: nat, session: string, list: seq<nat>)
    ensures Covers(u, Fresh(token, session, list)) && AllTodo(Fresh(token, session, list).blocks)
  {
    var p := Fresh(token, session, list);
    forall part | part in p.parts
      ensures part in Pending(p.blocks)
    {
      var i :| 0 <= i < |list| && list[i] == part;
      assert p.blocks[i] == Todo(part);
    }
  }

  /** A new run with a progress that nobody else holds. */
  lemma NewRun(s: State, s': State, run: nat, r: Run)
    requires Inv(s) && run !in s.runs && RunOk(s.uploaded, r)
    requires s' == s.(runs := s.runs[run := r], saved := s'.saved, nextToken := s'.nextToken)
    requires forall k :: k in s'.saved ==> k in s.saved && s'.saved[k] == s.saved[k]
    requires forall k :: k in s'.saved ==> s'.saved[k].token != r.progress.token
    requires forall a :: a in s.runs ==> s.runs[a].progress.token != r.progress.token
    requires r.progress.token < s'.nextToken && s.nextToken <= s'.nextToken
    ensures Inv(s')
  {
  }

  lemma StartStep(s: State, a: Action, s': State)
    requires Inv(s) && Next(s, a, s') && (a.Resume? || a.Precreate?)
    ensures Inv(s')
  {
    match a
    case Resume(run, key) =>
      BeginOk(s.uploaded, key, s.saved[key]);
      NewRun(s, s', run, Begin(key, s.saved[key]));
    case Precreate(run, key, session, list) =>
      var p := Fresh(s.nextToken, session, list);
      FreshCovers(s.uploaded, s.nextToken, session, list);
      BeginOk(s.uploaded, key, p);
      NewRun(s, s', run, Begin(key, p));
  }

  lemma SaveStep(s: State, a: Action, s': State)
    requires Inv(s) && Next(s, a, s') && a.SaveAndStop?
    ensures Inv(s')
  {
    RemainingPending(s.runs[a.run].progress.blocks);
  }

  lemma EndStep(s: State, a: Action, s': State)
    requires Inv(s) && Next(s, a, s') && (a.Stop? || a.Create? || a.Expire?)
    ensures Inv(s')
  {
    if a.Create? {
      var p := s.runs[a.run].progress;
      assert RunOk(s.uploaded, s.runs[a.run]);
      assert Pending(p.blocks) == {};
    }
  }

  lemma StepKeepsInv(s: State, a: Action, s': State)
    requires Inv(s) && Next(s, a, s')
    ensures Inv(s')
  {
    if a.Resume? || a.Precreate? { StartStep(s, a, s'); }
    else if a.SaveAndStop? { SaveStep(s, a, s'); }
    else if a.Stop? || a.Create? || a.Expire? { EndStep(s, a, s'); }
    else { RunStep(s, a, s'); }
  }

  ghost predicate Behavior(states: seq<State>, actions: seq<Action>) {
    && |states| == |actions| + 1 && Init(states[0])
    && forall i :: 0 <= i < |actions| ==> Next(states[i], actions[i], states[i + 1])
  }

  /** Over every interleaving, at every point of it. */
  lemma {:induction false} AlwaysInv(states: seq<State>, actions: seq<Action>)
    requires Behavior(states, actions)
    ensures forall i :: 0 <= i < |states| ==> Inv(states[i])
  {
    if actions != [] {
      var n := |actions| - 1;
      AlwaysInv(states[..n + 1], actions[..n]);
      assert states[..n + 1][n] == states[n];
      StepKeepsInv(states[n], actions[n], states[n + 1]);
      assert forall i :: 0 <= i <= n ==> states[i] == states[..n + 1][i];
    }
  }

  /** create is issued only once every slice of the file has been uploaded. */
  lemma CreateComesLast(states: seq<State>, actions: seq<Action>, i: nat)
    requires Behavior(states, actions) && i < |actions| && actions[i].Create?
    ensures actions[i].run in states[i].runs
    ensures var p := states[i].runs[actions[i].run].progress;
            forall part :: part in p.parts ==> (p.session, part) in states[i].uploaded
  {
    AlwaysInv(states, actions);
    var s := states[i];
    assert Next(s, actions[i], states[i + 1]);
    var r := s.runs[actions[i].run];
    assert RunOk(s.uploaded, r);
    assert Pending(r.progress.blocks) == {};
  }

  /** What a cancelled run saves is resumed by at most one later run, and misses no slice. */
  lemma SavedIsExclusive(states: seq<State>, actions: seq<Action>, i: nat, run: nat, key: string)
    requires Behavior(states, actions) && i < |actions| && actions[i] == Resume(run, key)
    ensures key in states[i].saved && run in states[i + 1].runs
    ensures var p, s := states[i].saved[key], states[i + 1];
            && Covers(s.uploaded, p) && s.runs[run].progress == p
            && key !in s.saved
            && (forall other :: other in s.runs && other != run ==> s.runs[other].progress.token != p.token)
            && (forall k :: k in s.saved ==> s.saved[k].token != p.token)
  {
    AlwaysInv(states, actions);
    assert Next(states[i], actions[i], states[i + 1]);
    assert Inv(states[i]) && Inv(states[i + 1]);
  }

  // ---- From precreate to create ----

  /** The j-th action was the precreate that this progress comes from, with just its list of parts. */
  ghost predicate MadeAt(actions: seq<Action>, j: nat, p: Progress)
    requires j < |actions|
  {
    && actions[j].Precreate? && actions[j].session == p.session
    && forall part :: part in p.parts <==> part in actions[j].list
  }

  ghost predicate Made(actions: seq<Action>, n: nat, p: Progress)
    requires n <= |actions|
  {
    exists j: nat :: j < n && MadeAt(actions, j, p)
  }

  ghost predicate AllMade(s: State, actions: seq<Action>, n: nat)
    requires n <= |actions|
  {
    && (forall a :: a in s.runs ==> Made(actions, n, s.runs[a].progress))
    && (forall k :: k in s.saved ==> Made(actions, n, s.saved[k]))
  }

  lemma StillMade(actions: seq<Action>, n: nat, p: Progress, q: Progress)
    requires n < |actions| && Made(actions, n, p) && p.session == q.session && p.parts == q.parts
    ensures Made(actions, n + 1, q)
  {
    var j: nat :| j < n && MadeAt(actions, j, p);
    assert MadeAt(actions, j, q);
  }

  lemma MadeStep(s: State, s': State, actions: seq<Action>, n: nat)
    requires n < |actions| && AllMade(s, actions, n) && Next(s, actions[n], s')
    ensures AllMade(s', actions, n + 1)
  {
    forall a | a in s'.runs
      ensures Made(actions, n + 1, s'.runs[a].progress)
    {
      if a in s.runs {
        StillMade(actions, n, s.runs[a].progress, s'.runs[a].progress);
      } else if actions[n].Resume? {
        StillMade(actions, n, s.saved[actions[n].key], s'.runs[a].progress);
      } else {
        assert MadeAt(actions, n, s'.runs[a].progress);
      }
    }
    forall k | k in s'.saved
      ensures Made(actions, n + 1, s'.saved[k])
    {
      if actions[n].SaveAndStop? && s.runs[actions[n].run].key == k {
        StillMade(actions, n, s.runs[actions[n].run].progress, s'.saved[k]);
      } else {
        StillMade(actions, n, s.saved[k], s'.saved[k]);
      }
    }
  }

  /** Every progress, live or saved, comes from an earlier precreate. */
  lemma {:induction false} AlwaysMade(states: seq<State>, actions: seq<Action>, i: nat)
    requires Behavior(states, actions) && i < |states|
    ensures AllMade(states[i], actions, i)
  {
    if i > 0 {
      AlwaysMade(states, actions, i - 1);
      assert Next(states[i - 1], actions[i - 1], states[i - 1 + 1]);
      MadeStep(states[i - 1], states[i], actions, i - 1);
    }
  }

  /**
   A create comes after a precreate in the same session, and each part of the list that the
   precreate was answered with has been uploaded in that session.
   */
  lemma CreateCompletesList(states: seq<State>, actions: seq<Action>, i: nat)
    returns (j: nat, parts: set<nat>)
    requires Behavior(states, actions) && i < |actions| && actions[i].Create?
    ensures j < i && actions[j].Precreate?
    ensures forall part :: part in actions[j].list ==> (actions[j].session, part) in states[i].uploaded
    ensures states[i + 1].created == states[i].created + {(actions[j].session, parts)}
    ensures forall part :: part in parts <==> part in actions[j].list
  {
    AlwaysMade(states, actions, i);
    CreateComesLast(states, actions, i);
    assert Next(states[i], actions[i], states[i + 1]);
    var p := states[i].runs[actions[i].run].progress;
    j :| j < i && MadeAt(actions, j, p);
    parts := p.parts;
  }

  /** In a step with this action, a worker sends a part in a session. */
  ghost predicate Sends(s: State, a: Action, session: string, part: nat) {
    && (a.Send? || a.SendLost?)
    && a.run in s.runs && s.runs[a.run].progress.session == session
    && a.i < |s.runs[a.run].progress.blocks| && s.runs[a.run].progress.blocks[a.i] == Todo(part)
  }

  /** Nothing counts as uploaded that no worker has sent. */
  lemma {:induction false} UploadedWasSent(states: seq<State>, actions: seq<Action>, i: nat, session: string, part: nat)
    requires Behavior(states, actions) && i < |states| && (session, part) in states[i].uploaded
    ensures exists j: nat :: j < i && Sends(states[j], actions[j], session, part)
  {
    if i > 0 {
      assert Next(states[i - 1], actions[i - 1], states[i - 1 + 1]);
      if (session, part) in states[i - 1].uploaded {
        UploadedWasSent(states, actions, i - 1, session, part);
      } else {
        assert Sends(states[i - 1], actions[i - 1], session, part);
      }
    }
  }

  lemma Then(states: seq<State>, actions: seq<Action>, a: Action, s: State)
    returns (more: seq<State>, acts: seq<Action>)
    requires Behavior(states, actions) && Next(states[|states| - 1], a, s)
    ensures Behavior(more, acts) && more[|more| - 1] == s
  {
    more, acts := states + [s], actions + [a];
  }

  /** The state in which only this run is under way. */
  function Alone(r: Run, uploaded: set<(string, nat)>): State { State(map[0 := r], map[], uploaded, {}, 1) }

  lemma LaunchOne(r: Run) returns (t: Run)
    requires r.phase == Launching(0) && r.cause == NoCause && r.workers == [Idle]
    ensures t == r.(phase := Draining, workers := [Active])
    ensures var u := r.(phase := Launching(1), workers := [Active]);
            Next(Alone(r, {}), Launch(0), Alone(u, {})) && Next(Alone(u, {}), Break(0), Alone(t, {}))
  {
    var u := r.(phase := Launching(1), workers := [Active]);
    t := r.(phase := Draining, workers := [Active]);
    assert r.workers[0 := Active] == [Active];
    assert SetRun(Alone(r, {}), 0, u) == Alone(u, {}) && SetRun(Alone(u, {}), 0, t) == Alone(t, {});
  }

  lemma SendOne(r: Run, part: nat) returns (t: Run)
    requires r.phase == Draining && r.workers == [Active] && r.progress.blocks == [Todo(part)]
    ensures t == r.(workers := [Ended], progress := r.progress.(blocks := [Done]))
    ensures var u, sent := r.(workers := [Sent]), {(r.progress.session, part)};
            Next(Alone(r, {}), Send(0, 0), Alone(u, sent)) && Next(Alone(u, sent), Mark(0, 0), Alone(t, sent))
  {
    var u, sent := r.(workers := [Sent]), {(r.progress.session, part)};
    t := r.(workers := [Ended], progress := r.progress.(blocks := [Done]));
    assert r.workers[0 := Sent] == [Sent] && u.workers[0 := Ended] == [Ended] && u.progress.blocks[0 := Done] == [Done];
    assert {} + sent == sent;
    assert SetRun(Alone(r, {}), 0, u) == Alone(u, {}) && SetRun(Alone(u, sent), 0, t) == Alone(t, sent);
  }

  lemma CreateOne(r: Run, sent: set<(string, nat)>)
    requires r.phase == Draining && r.cause == NoCause && r.workers == [Ended]
    ensures var u := r.(phase := Creating);
            && Next(Alone(r, sent), Finish(0), Alone(u, sent))
            && Next(Alone(u, sent), Create(0), State(map[], map[], sent, {(r.progress.session, r.progress.parts)}, 1))
  {
    var u := r.(phase := Creating);
    assert SetRun(Alone(r, sent), 0, u) == Alone(u, sent);
    assert Alone(u, sent).runs - {0} == map[];
  }

  /** The machine is not idle: the upload of one slice runs from precreate to create. */
  lemma OneSliceRun(key: string, session: string, part: nat) returns (states: seq<State>, actions: seq<Action>)
    ensures Behavior(states, actions)
    ensures states[|states| - 1] == State(map[], map[], {(session, part)}, {(session, {part})}, 1)
  {
    var s0 := State(map[], map[], {}, {}, 0);
    var r := Begin(key, Fresh(0, session, [part]));
    assert r.progress.parts == {part} && r.progress.blocks == [Todo(part)] && r.workers == [Idle];
    var sent := {(session, part)};
    var t := LaunchOne(r);
    var v := SendOne(t, part);
    CreateOne(v, sent);
    states, actions := Then([s0], [], Precreate(0, key, session, [part]), Alone(r, {}));
    states, actions := Then(states, actions, Launch(0), Alone(r.(phase := Launching(1), workers := [Active]), {}));
    states, actions := Then(states, actions, Break(0), Alone(t, {}));
    states, actions := Then(states, actions, Send(0, 0), Alone(t.(workers := [Sent]), sent));
    states, actions := Then(states, actions, Mark(0, 0), Alone(v, sent));
    states, actions := Then(states, actions, Finish(0), Alone(v.(phase := Creating), sent));
    states, actions := Then(states, actions, Create(0), State(map[], map[], sent, {(session, {part})}, 1));
  }

  // ---- The two ends of a run, as the driver makes them ----

  /** A run takes the progress out of the cache or, if there is none, has a new one made. */
  method StartRun(cache: UploadStateCache, key: string, token: nat, session: string, list: seq<nat>,
                  ghost run: nat, ghost s: State)
    returns (r: Run, ghost s': State)
    requires run !in s.runs && s.saved == cache.saved && token == s.nextToken
    modifies cache
    ensures cache.saved == old(cache.saved) - {key} == s'.saved && s'.runs == s.runs[run := r]
    ensures key in old(cache.saved) ==> r.progress == old(cache.saved)[key]
    ensures key !in old(cache.saved) ==>
              && r.progress.session == session && |r.progress.blocks| == |list|
              && forall k :: 0 <= k < |list| ==> r.progress.blocks[k] == Todo(list[k])
    ensures r.key == key && r.phase == Launching(0) && r.cause == NoCause
    ensures |r.workers| == |r.progress.blocks| && forall k :: 0 <= k < |r.workers| ==> r.workers[k] == Idle
    ensures Next(s, if key in s.saved then Resume(run, key) else Precreate(run, key, session, list), s')
    ensures Inv(s) ==> Inv(s')
  {
    ghost var a := if key in s.saved then Resume(run, key) else Precreate(run, key, session, list);
    s' := if key in s.saved then Resumed(s, run, key) else Precreated(s, run, key, session, list);
    var found := cache.GetUploadProgress(key);
    var p := match found
      case Some(saved) => saved
      case None => Fresh(token, session, list);
    r := Begin(key, p);
    assert s.saved - {key} == if key in s.saved then s.saved - {key} else s.saved;
    if Inv(s) { StepKeepsInv(s, a, s'); }
  }

  /** A cancelled run leaves what is still to send in the cache. */
  method SaveRun(cache: UploadStateCache, r: Run, ghost run: nat, ghost s: State)
    returns (ghost s': State)
    requires run in s.runs && r == s.runs[run] && s.saved == cache.saved
    requires r.phase == Draining && Quiet(r) && !r.cause.NoCause?
    modifies cache
    ensures r.key in cache.saved && cache.saved == s'.saved && s'.runs == s.runs - {run}
    ensures var p := cache.saved[r.key];
            p == r.progress.(blocks := p.blocks) && Pending(p.blocks) == Pending(r.progress.blocks) && AllTodo(p.blocks)
    ensures Next(s, SaveAndStop(run), s') && s'.nextToken == s.nextToken
    ensures Inv(s) ==> Inv(s')
  {
    var left := SliceFilter(r.progress.blocks);
    RemainingPending(r.progress.blocks);
    cache.SaveUploadProgress(r.key, r.progress.(blocks := left));
    s' := DropRun(s, run).(saved := cache.saved);
    if Inv(s) { StepKeepsInv(s, SaveAndStop(run), s'); }
  }

  /**
   What one run saves is what the next one under the key takes: every slice still to send, none
   that was sent, and no longer in the cache.
   */
  method SaveThenStart(cache: UploadStateCache, r: Run, token: nat, session: string, list: seq<nat>,
                       ghost run: nat, ghost again: nat, ghost s: State)
    returns (r': Run, ghost s': State)
    requires run in s.runs && r == s.runs[run] && s.saved == cache.saved && token == s.nextToken
    requires r.phase == Draining && Quiet(r) && !r.cause.NoCause? && again !in s.runs
    modifies cache
    ensures r'.progress == r.progress.(blocks := r'.progress.blocks)
    ensures Pending(r'.progress.blocks) == Pending(r.progress.blocks) && AllTodo(r'.progress.blocks)
    ensures r.key !in cache.saved
    ensures Inv(s) ==> Inv(s') && s'.runs == (s.runs - {run})[again := r']
  {
    ghost var between := SaveRun(cache, r, run, s);
    r', s' := StartRun(cache, r.key, token, session, list, again, between);
  }
}
