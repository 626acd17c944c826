// The location helper's protocol (crates/arod/src/location_setup.rs): a client that sends requests and
// cancels, a helper that reads them one by one and starts a worker per request, and the workers, all
// running concurrently over two FIFO channels. Requests are numbered in the order they are sent; the
// numbers on cancels and replies are for the statements below, the program does not send them. The packages
// called for (calls) and the replies sent (emitted) are kept in the state for the same reason.
module LocationProtocol {
  import opened Bytes

  datatype Msg = Request(id: nat, package: string) | Cancel(id: nat)

  datatype Reply = Reply(id: nat, value: bool)

  // A worker has sent its reply before its thread ends.
  datatype Phase = Running | Replied | Exited

  datatype Worker = Worker(id: nat, package: string, canceled: bool, phase: Phase)

  datatype Client = Idle | Waiting(id: nat, sentCancel: bool)

  // Joining: a request was read, the previous worker is being joined.
  datatype Helper = Reading | Joining(id: nat, package: string)

  // What one call of the client returned, and which reply it read.
  datatype Outcome = Outcome(id: nat, replyId: nat, sentCancel: bool, result: bool)

  datatype State = State(
    client: Client, calls: seq<string>, toHelper: seq<Msg>, helper: Helper, workers: seq<Worker>,
    current: Option<nat>, fromHelper: seq<Reply>, emitted: seq<Reply>, outcomes: seq<Outcome>)

  const INIT: State := State(Idle, [], [], Reading, [], None, [], [], [])

  // ---------- the steps ----------

  ghost predicate Call(s: State, t: State, package: string)
  {
    && s.client.Idle?
    && var id := |s.calls|;
    t == s.(client := Waiting(id, false), calls := s.calls + [package], toHelper := s.toHelper + [Request(id, package)])
  }

  ghost predicate SendCancel(s: State, t: State)
  {
    && s.client.Waiting? && !s.client.sentCancel
    && t == s.(client := s.client.(sentCancel := true), toHelper := s.toHelper + [Cancel(s.client.id)])
  }

  // The client takes the first reply; a call that sent a cancel returns false whatever it says.
  ghost predicate Return(s: State, t: State)
  {
    && s.client.Waiting? && s.fromHelper != []
    && var reply := s.fromHelper[0];
    t == s.(client := Idle, fromHelper := s.fromHelper[1..],
            outcomes := s.outcomes + [Outcome(s.client.id, reply.id, s.client.sentCancel, reply.value && !s.client.sentCancel)])
  }

  ghost predicate ReadCancel(s: State, t: State)
  {
    && s.helper.Reading? && s.toHelper != [] && s.toHelper[0].Cancel?
    && (s.current.Some? ==> s.current.value < |s.workers|)
    && t == s.(toHelper := s.toHelper[1..],
               workers := if s.current.None? then s.workers
                          else s.workers[s.current.value := s.workers[s.current.value].(canceled := true)])
  }

  ghost predicate ReadRequest(s: State, t: State)
  {
    && s.helper.Reading? && s.toHelper != [] && s.toHelper[0].Request?
    && t == s.(toHelper := s.toHelper[1..], helper := Joining(s.toHelper[0].id, s.toHelper[0].package))
  }

  // The join returns once the previous worker's thread has ended; then the next worker starts.
  ghost predicate Spawn(s: State, t: State)
  {
    && s.helper.Joining?
    && (s.current.Some? ==> s.current.value < |s.workers| && s.workers[s.current.value].phase == Exited)
    && t == s.(helper := Reading, current := Some(|s.workers|),
               workers := s.workers + [Worker(s.helper.id, s.helper.package, false, Running)])
  }

  ghost predicate SendReply(s: State, t: State, w: nat, value: bool)
  {
    && w < |s.workers| && s.workers[w].phase == Running
    && t == s.(workers := s.workers[w := s.workers[w].(phase := Replied)],
               fromHelper := s.fromHelper + [Reply(s.workers[w].id, value)],
               emitted := s.emitted + [Reply(s.workers[w].id, value)])
  }

  ghost predicate Exit(s: State, t: State, w: nat)
  {
    && w < |s.workers| && s.workers[w].phase == Replied
    && t == s.(workers := s.workers[w := s.workers[w].(phase := Exited)])
  }

  // A step of the client, of the helper or of a worker, in any interleaving.
  datatype Action =
    | DoCall(package: string) | DoCancel | DoReturn | DoReadCancel | DoReadRequest | DoSpawn
    | DoReply(w: nat, value: bool) | DoExit(w: nat)

  ghost predicate Does(s: State, a: Action, t: State)
  {
    match a
    case DoCall(package) => Call(s, t, package)
    case DoCancel => SendCancel(s, t)
    case DoReturn => Return(s, t)
    case DoReadCancel => ReadCancel(s, t)
    case DoReadRequest => ReadRequest(s, t)
    case DoSpawn => Spawn(s, t)
    case DoReply(w, value) => SendReply(s, t, w, value)
    case DoExit(w) => Exit(s, t, w)
  }

  // The states and steps from run[0] on.
  ghost predicate Continues(run: seq<State>, acts: seq<Action>)
  {
    |run| == |acts| + 1 && forall i :: 0 <= i < |acts| ==> Does(run[i], acts[i], run[i + 1])
  }

  ghost predicate IsRun(run: seq<State>, acts: seq<Action>)
  {
    Continues(run, acts) && run[0] == INIT
  }

  // ---------- what was done, from the actions alone ----------

  // The packages of the calls, in order.
  function CallsOf(acts: seq<Action>): (c: seq<string>)
  {
    if acts == [] then []
    else
      var n := |acts| - 1;
      CallsOf(acts[..n]) + if acts[n].DoCall? then [acts[n].package] else []
  }

  // Which worker replied what, in order.
  function RepliesOf(acts: seq<Action>): (r: seq<(nat, bool)>)
  {
    if acts == [] then []
    else
      var n := |acts| - 1;
      RepliesOf(acts[..n]) + if acts[n].DoReply? then [(acts[n].w, acts[n].value)] else []
  }

  // The calls that sent a cancel, by number.
  function CancelsOf(acts: seq<Action>): (c: set<int>)
  {
    if acts == [] then {}
    else
      var n := |acts| - 1;
      CancelsOf(acts[..n]) + if acts[n].DoCancel? then {|CallsOf(acts[..n])| - 1} else {}
  }

  // ---------- the invariant ----------

  // The last worker started has sent its reply.
  predicate LastAnswered(s: State)
  {
    s.workers != [] ==> s.workers[|s.workers| - 1].phase != Running
  }

  // At most the cancel of the last answered request is still unread.
  predicate OnlyStale(msgs: seq<Msg>, next: nat)
  {
    msgs == [] || (next > 0 && msgs == [Cancel(next - 1)])
  }

  function OwnCancel(c: Client): seq<Msg>
    requires c.Waiting?
  {
    if c.sentCancel then [Cancel(c.id)] else []
  }

  // Where the pending request is.
  predicate InChannel(s: State)
    requires s.client.Waiting? && s.client.id < |s.calls|
  {
    && s.helper.Reading? && |s.workers| == s.client.id && LastAnswered(s) && s.fromHelper == []
    && |s.emitted| == s.client.id
    && var own := [Request(s.client.id, s.calls[s.client.id])] + OwnCancel(s.client);
    (s.toHelper == own || (s.client.id > 0 && s.toHelper == [Cancel(s.client.id - 1)] + own))
  }

  predicate AtHelper(s: State)
    requires s.client.Waiting? && s.client.id < |s.calls|
  {
    && s.helper == Joining(s.client.id, s.calls[s.client.id]) && |s.workers| == s.client.id && LastAnswered(s)
    && s.fromHelper == [] && |s.emitted| == s.client.id && s.toHelper == OwnCancel(s.client)
  }

  predicate AtWorker(s: State)
    requires s.client.Waiting?
  {
    && s.helper.Reading? && |s.workers| == s.client.id + 1
    && (s.toHelper == [] || s.toHelper == OwnCancel(s.client))
    && if s.workers[s.client.id].phase == Running then s.fromHelper == [] && |s.emitted| == s.client.id
       else |s.emitted| == s.client.id + 1 && s.fromHelper == [s.emitted[s.client.id]]
  }

  // Worker i serves request i, reply i is its reply, and outcome i is what call i made of it.
  predicate Numbered(s: State)
  {
    && |s.outcomes| <= |s.emitted| <= |s.workers| <= |s.calls|
    && (forall i :: 0 <= i < |s.workers| ==> s.workers[i].id == i && s.workers[i].package == s.calls[i])
    && (forall i :: 0 <= i < |s.emitted| ==> s.emitted[i].id == i)
    && (forall i :: 0 <= i < |s.outcomes| ==> OwnResult(s.outcomes[i], i, s.emitted[i]))
  }

  predicate OwnResult(o: Outcome, i: nat, reply: Reply)
  {
    o.id == i && o.replyId == i && reply.id == i && o.result == (!o.sentCancel && reply.value)
  }

  predicate Inv(s: State)
  {
    && Numbered(s)
    && (forall i :: 0 <= i < |s.workers| - 1 ==> s.workers[i].phase == Exited)
    && s.current == (if s.workers == [] then None else Some(|s.workers| - 1))
    && match s.client
       case Idle =>
         && s.helper.Reading? && |s.workers| == |s.calls| && LastAnswered(s) && s.fromHelper == []
         && |s.emitted| == |s.calls| && |s.outcomes| == |s.calls| && OnlyStale(s.toHelper, |s.calls|)
       case Waiting(id, _) =>
         && |s.calls| == id + 1 && |s.outcomes| == id
         && (InChannel(s) || AtHelper(s) || AtWorker(s))
  }

  lemma CallKeeps(s: State, t: State, package: string)
    requires Inv(s) && Call(s, t, package)
    ensures Inv(t)
  {
    var own := [Request(t.client.id, package)] + OwnCancel(t.client);
    assert own == [Request(t.client.id, package)];
    if s.toHelper != [] {
      assert t.toHelper == [Cancel(t.client.id - 1)] + own;
    }
    assert InChannel(t);
  }

  lemma CancelKeeps(s: State, t: State)
    requires Inv(s) && SendCancel(s, t)
    ensures Inv(t)
  {
    var r := Request(s.client.id, s.calls[s.client.id]);
    assert [r] + OwnCancel(s.client) + [Cancel(s.client.id)] == [r] + OwnCancel(t.client);
    if InChannel(s) {
      assert t.toHelper == [r] + OwnCancel(t.client)
             || t.toHelper == [Cancel(t.client.id - 1)] + ([r] + OwnCancel(t.client));
      assert InChannel(t);
    } else if AtHelper(s) {
      assert t.toHelper == [] + [Cancel(s.client.id)];
      assert AtHelper(t);
    } else {
      assert t.toHelper == [] + [Cancel(s.client.id)];
      assert AtWorker(t);
    }
  }

  lemma ReturnKeeps(s: State, t: State)
    requires Inv(s) && Return(s, t)
    ensures Inv(t)
  {
    assert AtWorker(s);
    assert t.fromHelper == [];
  }

  lemma ReadCancelKeeps(s: State, t: State)
    requires Inv(s) && ReadCancel(s, t)
    ensures Inv(t)
    ensures s.current == Some(s.toHelper[0].id)
  {
    if s.client.Waiting? {
      if InChannel(s) {
        assert t.toHelper == [Request(t.client.id, t.calls[t.client.id])] + OwnCancel(t.client);
        assert InChannel(t);
      } else {
        assert AtWorker(s) && AtWorker(t);
      }
    }
  }

  lemma ReadRequestKeeps(s: State, t: State)
    requires Inv(s) && ReadRequest(s, t)
    ensures Inv(t)
  {
    assert s.client.Waiting? && InChannel(s);
    assert AtHelper(t);
  }

  lemma SpawnKeeps(s: State, t: State)
    requires Inv(s) && Spawn(s, t)
    ensures Inv(t)
  {
    assert AtHelper(s);
    assert AtWorker(t);
  }

  lemma ReplyKeeps(s: State, t: State, w: nat, value: bool)
    requires Inv(s) && SendReply(s, t, w, value)
    ensures Inv(t)
  {
    assert w == |s.workers| - 1;
    assert s.client.Waiting? && AtWorker(s);
    assert t.fromHelper == [Reply(t.client.id, value)];
    hide OwnResult, InChannel, AtHelper;
    assert forall i :: 0 <= i < |s.outcomes| ==> t.emitted[i] == s.emitted[i];
    assert AtWorker(t);
  }

  lemma ExitKeeps(s: State, t: State, w: nat)
    requires Inv(s) && Exit(s, t, w)
    ensures Inv(t)
  {
    assert w == |s.workers| - 1;
    if s.client.Waiting? {
      assert InChannel(s) ==> InChannel(t);
      assert AtHelper(s) ==> AtHelper(t);
      assert AtWorker(s) ==> AtWorker(t);
    }
  }

  lemma StepKeeps(s: State, a: Action, t: State)
    requires Inv(s) && Does(s, a, t)
    ensures Inv(t)
  {
    match a
    case DoCall(package) => CallKeeps(s, t, package);
    case DoCancel => CancelKeeps(s, t);
    case DoReturn => ReturnKeeps(s, t);
    case DoReadCancel => ReadCancelKeeps(s, t);
    case DoReadRequest => ReadRequestKeeps(s, t);
    case DoSpawn => SpawnKeeps(s, t);
    case DoReply(w, value) => ReplyKeeps(s, t, w, value);
    case DoExit(w) => ExitKeeps(s, t, w);
  }

  lemma RestContinues(run: seq<State>, acts: seq<Action>)
    requires Continues(run, acts) && acts != []
    ensures Continues(run[1..], acts[1..])
  {
    var more, rest := run[1..], acts[1..];
    forall i | 0 <= i < |rest|
      ensures Does(more[i], rest[i], more[i + 1])
    {
      assert Does(run[i + 1], acts[i + 1], run[i + 1 + 1]);
    }
  }

  lemma BeforeLast(run: seq<State>, acts: seq<Action>)
    requires Continues(run, acts) && acts != []
    ensures var n := |acts| - 1;
            && Continues(run[..n + 1], acts[..n]) && run[..n + 1][n] == run[n] && run[..n + 1][0] == run[0]
            && Does(run[n], acts[n], run[n + 1])
  {
    var n := |acts| - 1;
    forall i | 0 <= i < n
      ensures Does(run[..n + 1][i], acts[..n][i], run[..n + 1][i + 1])
    {
      assert Does(run[i], acts[i], run[i + 1]);
    }
  }

  lemma {:induction false} StaysInv(run: seq<State>, acts: seq<Action>)
    requires Continues(run, acts) && Inv(run[0])
    ensures Inv(run[|acts|])
    decreases |acts|
  {
    if acts != [] {
      var n := |acts| - 1;
      BeforeLast(run, acts);
      StaysInv(run[..n + 1], acts[..n]);
      StepKeeps(run[n], acts[n], run[n + 1]);
    }
  }

  // ---------- what every run guarantees ----------

  // What the state remembers is what was done.
  predicate CallsAndReplies(s: State, acts: seq<Action>)
  {
    && s.calls == CallsOf(acts)
    && |s.emitted| == |RepliesOf(acts)|
    && forall i :: 0 <= i < |s.emitted| ==> RepliesOf(acts)[i] == (i, s.emitted[i].value)
  }

  predicate Cancels(s: State, canceled: set<int>)
  {
    && (forall i :: 0 <= i < |s.outcomes| ==> (s.outcomes[i].sentCancel <==> i in canceled))
    && (s.client.Waiting? ==> (s.client.sentCancel <==> s.client.id in canceled))
    && (forall i :: i in canceled ==> i < |s.calls|)
  }

  // The cancel of call i is still unread or has set the flag of worker i.
  predicate OnItsWay(s: State, i: nat)
  {
    Cancel(i) in s.toHelper || (i < |s.workers| && s.workers[i].canceled)
  }

  predicate Delivered(s: State, canceled: set<int>)
  {
    && (forall i :: 0 <= i < |s.calls| ==> (i in canceled <==> OnItsWay(s, i)))
    && (forall i :: i in canceled ==> 0 <= i < |s.calls|)
  }

  lemma ReadCancelMoves(s: State, t: State, i: nat)
    requires Inv(s) && ReadCancel(s, t)
    ensures OnItsWay(t, i) == OnItsWay(s, i)
  {
    ReadCancelKeeps(s, t);
    assert s.toHelper == [s.toHelper[0]] + t.toHelper;
  }

  lemma ReadRequestMoves(s: State, t: State, i: nat)
    requires ReadRequest(s, t)
    ensures OnItsWay(t, i) == OnItsWay(s, i)
  {
    assert s.toHelper == [s.toHelper[0]] + t.toHelper;
  }

  lemma StepMoves(s: State, a: Action, t: State, i: nat)
    requires Inv(s) && Does(s, a, t)
    ensures OnItsWay(t, i) <==> OnItsWay(s, i) || (a.DoCancel? && i == |s.calls| - 1)
  {
    hide Inv;
    match a
    case DoReadCancel => ReadCancelMoves(s, t, i);
    case DoReadRequest => ReadRequestMoves(s, t, i);
    case DoCancel => StepRemembers(s, a, t);
    case _ =>
  }

  lemma NotYet(s: State)
    requires Inv(s) && s.client.Idle?
    ensures !OnItsWay(s, |s.calls|)
  {
  }

  lemma StepDelivers(s: State, a: Action, t: State, canceled: set<int>)
    requires Inv(s) && Does(s, a, t) && Delivered(s, canceled)
    ensures Delivered(t, canceled + if a.DoCancel? then {|s.calls| - 1} else {})
  {
    StepRemembers(s, a, t);
    if a.DoCall? {
      NotYet(s);
    }
    hide Inv, Does, OnItsWay;
    forall i | 0 <= i < |t.calls|
      ensures OnItsWay(t, i) <==> OnItsWay(s, i) || (a.DoCancel? && i == |s.calls| - 1)
    {
      StepMoves(s, a, t, i);
    }
  }

  // The history in the state grows by what the step does.
  lemma StepRemembers(s: State, a: Action, t: State)
    requires Inv(s) && Does(s, a, t)
    ensures t.calls == s.calls + if a.DoCall? then [a.package] else []
    ensures t.emitted == s.emitted + if a.DoReply? then [Reply(a.w, a.value)] else []
    ensures a.DoReply? ==> a.w == |s.emitted|
    ensures if a.DoReturn? then
              && s.client.Waiting? && s.client.id == |s.outcomes| && t.client.Idle?
              && |t.outcomes| == |s.outcomes| + 1 && t.outcomes[..|s.outcomes|] == s.outcomes
              && t.outcomes[|s.outcomes|].sentCancel == s.client.sentCancel
            else t.outcomes == s.outcomes
    ensures a.DoCall? ==> t.client == Waiting(|s.calls|, false)
    ensures a.DoCancel? ==> s.client.Waiting? && s.client.id == |s.outcomes| == |s.calls| - 1 && t.client == Waiting(s.client.id, true)
    ensures !a.DoCall? && !a.DoCancel? && !a.DoReturn? ==> t.client == s.client
    ensures |s.outcomes| <= |t.outcomes|
    ensures |s.outcomes| <= |s.calls|
  {
  }

  lemma {:induction false} Remembers(run: seq<State>, acts: seq<Action>)
    requires IsRun(run, acts)
    ensures var s := run[|acts|];
            Inv(s) && CallsAndReplies(s, acts) && Cancels(s, CancelsOf(acts)) && Delivered(s, CancelsOf(acts))
    decreases |acts|
  {
    if acts != [] {
      hide Inv, Does, Cancels, CallsAndReplies, CancelsOf, Delivered;
      var n := |acts| - 1;
      BeforeLast(run, acts);
      Remembers(run[..n + 1], acts[..n]);
      StepKeeps(run[n], acts[n], run[n + 1]);
      StepReplies(run[n], acts, run[n + 1]);
      StepCancels(run[n], acts[n], run[n + 1], CancelsOf(acts[..n]));
      StepDelivers(run[n], acts[n], run[n + 1], CancelsOf(acts[..n]));
      CancelsSnoc(acts);
    } else {
      assert Inv(INIT) && Delivered(INIT, {});
    }
  }

  lemma CancelsSnoc(acts: seq<Action>)
    requires acts != []
    ensures var n := |acts| - 1;
            CancelsOf(acts) == CancelsOf(acts[..n]) + if acts[n].DoCancel? then {|CallsOf(acts[..n])| - 1} else {}
  {
  }

  lemma StepReplies(s: State, acts: seq<Action>, t: State)
    requires acts != [] && Inv(s) && Does(s, acts[|acts| - 1], t) && CallsAndReplies(s, acts[..|acts| - 1])
    ensures CallsAndReplies(t, acts) && |s.calls| == |CallsOf(acts[..|acts| - 1])|
  {
    hide Inv, Does;
    StepRemembers(s, acts[|acts| - 1], t);
  }

  lemma StepCancels(s: State, a: Action, t: State, canceled: set<int>)
    requires Inv(s) && Does(s, a, t) && Cancels(s, canceled)
    ensures Cancels(t, canceled + if a.DoCancel? then {|s.calls| - 1} else {})
  {
    hide Inv, Does;
    StepRemembers(s, a, t);
    assert forall i :: 0 <= i < |s.outcomes| ==> t.outcomes[i] == t.outcomes[..|s.outcomes|][i] == s.outcomes[i];
  }

  // The workers that have not ended yet.
  function Active(s: State): set<nat>
  {
    set w | 0 <= w < |s.workers| && s.workers[w].phase != Exited
  }

  // In every run, with calls, replies and cancels as they were done: worker i serves the package of call
  // i and sends the i-th reply, call i returns the value of that reply unless it sent a cancel, and then
  // false; a cancel that was sent is unread or has set the flag of its own worker, and nothing else sets
  // one; and at most one worker is alive.
  lemma EveryRun(run: seq<State>, acts: seq<Action>)
    requires IsRun(run, acts)
    ensures var s, calls, replies, canceled := run[|acts|], CallsOf(acts), RepliesOf(acts), CancelsOf(acts);
            && |s.outcomes| <= |replies| <= |s.workers| <= |calls| <= |s.outcomes| + 1
            && (forall i :: 0 <= i < |s.workers| ==> s.workers[i].package == calls[i])
            && (forall i :: 0 <= i < |replies| ==> replies[i].0 == i)
            && (forall i :: 0 <= i < |s.outcomes| ==>
              && s.outcomes[i].id == i && s.outcomes[i].replyId == i
              && s.outcomes[i].result == (replies[i].1 && i !in canceled))
            && (forall i :: 0 <= i < |calls| ==>
              (i in canceled <==> OnItsWay(s, i)))
            && (forall v, w :: v in Active(s) && w in Active(s) ==> v == w)
  {
    Remembers(run, acts);
    var s := run[|acts|];
    assert forall w :: w in Active(s) ==> w == |s.workers| - 1;
    forall i | 0 <= i < |s.outcomes|
      ensures s.outcomes[i].result == (RepliesOf(acts)[i].1 && i !in CancelsOf(acts))
    {
      assert OwnResult(s.outcomes[i], i, s.emitted[i]);
    }
  }

  // Whenever the helper reads a cancel, the flag it sets is that of the request the cancel was sent
  // for: a cancel read after its request was answered touches no later request.
  lemma CancelIsOwn(run: seq<State>, acts: seq<Action>, t: State)
    requires IsRun(run, acts) && ReadCancel(run[|acts|], t)
    ensures var s := run[|acts|];
            && |t.workers| == |s.workers| && s.toHelper[0].id < |s.workers|
            && forall w :: 0 <= w < |s.workers| ==>
              && s.workers[w].id == w
              && t.workers[w] == if w == s.toHelper[0].id then s.workers[w].(canceled := true) else s.workers[w]
  {
    StaysInv(run, acts);
    ReadCancelKeeps(run[|acts|], t);
  }

  // ---------- progress ----------

  // Steps left until the pending request is answered and its reply read.
  function PhaseRank(p: Phase): nat
  {
    match p case Running => 2 case Replied => 1 case Exited => 0
  }

  function Rank(s: State): nat
  {
    if s.client.Idle? then 0
    else
      1 + |s.toHelper|
      + (if |s.workers| > s.client.id then 0 else if s.helper.Joining? then 3 else 5)
      + (if s.workers == [] then 0 else PhaseRank(s.workers[|s.workers| - 1].phase))
  }

  // Not a step of the client's own choosing.
  predicate Obliged(a: Action)
  {
    !a.DoCall? && !a.DoCancel?
  }

  // While a call waits, some step of helper, worker or reply is possible.
  lemma Progress(s: State)
    requires Inv(s) && s.client.Waiting?
    ensures exists a, t {:trigger Does(s, a, t)} :: Obliged(a) && Does(s, a, t)
  {
    var id := s.client.id;
    if InChannel(s) {
      if s.toHelper[0].Cancel? {
        var t := s.(toHelper := s.toHelper[1..],
                    workers := s.workers[s.current.value := s.workers[s.current.value].(canceled := true)]);
        assert Does(s, DoReadCancel, t);
      } else {
        var t := s.(toHelper := s.toHelper[1..], helper := Joining(s.toHelper[0].id, s.toHelper[0].package));
        assert Does(s, DoReadRequest, t);
      }
    } else if AtHelper(s) {
      var w := |s.workers| - 1;
      if s.workers != [] && s.workers[w].phase == Replied {
        var t := s.(workers := s.workers[w := s.workers[w].(phase := Exited)]);
        assert Does(s, DoExit(w), t);
      } else {
        var t := s.(helper := Reading, current := Some(|s.workers|),
                    workers := s.workers + [Worker(s.helper.id, s.helper.package, false, Running)]);
        assert Does(s, DoSpawn, t);
      }
    } else if s.workers[id].phase == Running {
      var t := s.(workers := s.workers[id := s.workers[id].(phase := Replied)],
                  fromHelper := s.fromHelper + [Reply(s.workers[id].id, true)], emitted := s.emitted + [Reply(s.workers[id].id, true)]);
      assert Does(s, DoReply(id, true), t);
    } else {
      var reply := s.fromHelper[0];
      var t := s.(client := Idle, fromHelper := s.fromHelper[1..],
                  outcomes := s.outcomes + [Outcome(id, reply.id, s.client.sentCancel, reply.value && !s.client.sentCancel)]);
      assert Does(s, DoReturn, t);
    }
  }

  lemma RankDrops(s: State, a: Action, t: State)
    requires Inv(s) && s.client.Waiting? && Does(s, a, t) && Obliged(a)
    ensures Rank(t) < Rank(s)
  {
    match a
    case DoReturn =>
    case DoReadCancel =>
      ReadCancelKeeps(s, t);
    case DoReadRequest =>
    case DoSpawn =>
      assert AtHelper(s);
    case DoReply(w, value) =>
      assert w == |s.workers| - 1;
    case DoExit(w) =>
      assert w == |s.workers| - 1;
  }

  // ---------- every call returns ----------

  function ObligedSteps(acts: seq<Action>): nat
  {
    if acts == [] then 0 else (if Obliged(acts[0]) then 1 else 0) + ObligedSteps(acts[1..])
  }

  // The client can lengthen a call once, by its cancel.
  function Budget(s: State): nat
  {
    Rank(s) + if s.client.Waiting? && !s.client.sentCancel then 1 else 0
  }

  lemma WaitingStep(s: State, a: Action, t: State)
    requires Inv(s) && s.client.Waiting? && Does(s, a, t)
    ensures |t.outcomes| == s.client.id + 1
            || (t.client.Waiting? && t.client.id == s.client.id
                && Budget(t) + (if Obliged(a) then 1 else 0) <= Budget(s))
  {
    if Obliged(a) {
      RankDrops(s, a, t);
    }
  }

  lemma {:induction false} OutcomesStay(run: seq<State>, acts: seq<Action>)
    requires Continues(run, acts)
    ensures |run[0].outcomes| <= |run[|acts|].outcomes|
    decreases |acts|
  {
    if acts != [] {
      assert Does(run[0], acts[0], run[0 + 1]);
      RestContinues(run, acts);
      OutcomesStay(run[1..], acts[1..]);
    }
  }

  // From any state in which a call waits: a continuation that makes as many steps of helper, worker and
  // reply as the budget, which is at most the rank plus one, has returned that call, with the value of its
  // own reply or, after a cancel, false. As such a step is always possible, every call returns under every fair scheduling.
  lemma {:induction false} EveryCallReturns(run: seq<State>, acts: seq<Action>)
    requires Continues(run, acts) && Inv(run[0]) && run[0].client.Waiting?
    requires ObligedSteps(acts) >= Budget(run[0])
    ensures var id, last := run[0].client.id, run[|acts|];
            && id < |last.outcomes| <= |last.emitted| <= |last.workers| <= |last.calls| && last.outcomes[id].id == id && last.outcomes[id].replyId == id
            && last.workers[id].package == last.calls[id] && last.emitted[id].id == id
            && last.outcomes[id].result == (last.emitted[id].value && !last.outcomes[id].sentCancel)
    decreases |acts|
  {
    var s, t := run[0], run[1];
    assert Does(run[0], acts[0], run[0 + 1]);
    StepKeeps(s, acts[0], t);
    WaitingStep(s, acts[0], t);
    RestContinues(run, acts);
    if |t.outcomes| == s.client.id + 1 {
      OutcomesStay(run[1..], acts[1..]);
      StaysInv(run, acts);
    } else {
      EveryCallReturns(run[1..], acts[1..]);
    }
  }
}
