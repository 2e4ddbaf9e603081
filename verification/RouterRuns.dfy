/** The TXID multiplexer of dnsrouter/router.go as a state machine: one backend connection,
    any number of handleQuery goroutines, the response reader and the cleanup, interleaved step by step. */
module RouterRuns {
  import opened Bits
  import opened Options

  // A client packet: its transaction id and what follows.
  datatype Query = Query(client: nat, txid: nat, body: Bytes)

  // Where a handleQuery goroutine stands. Counting and storing are two steps, as are a refused write and its undo.
  datatype Phase =
    | Looping(tries: nat)
    | Counted(tries: nat, count: nat)
    | Stored(id: nat)
    | Refused(id: nat)
    | Finished

  datatype Proc = Proc(query: Query, phase: Phase)

  // A successful LoadOrStore: the id, the goroutine, and the counter value that gave the id.
  datatype Store = Store(id: nat, pid: nat, count: nat)

  datatype Forward = Forward(pid: nat, client: nat, packet: Bytes)

  // counter never wraps: it counts the increments of nextTxID. pending maps ids to goroutines,
  // whose pendingQuery is their query. sent is what the backend was sent. sweep is the key that cleanPending saw as
  // stale and will delete.
  datatype State = State(
    counter: nat,
    pending: map<nat, nat>,
    procs: seq<Proc>,
    sweep: Option<nat>,
    stores: seq<Store>,
    sent: seq<Bytes>,
    forwards: seq<Forward>)

  datatype Step =
    | Arrive(query: Query)
    | Count(pid: nat)
    | TryStore(pid: nat)
    | Write(pid: nat, ok: bool)
    | Undo(pid: nat)
    | Reply(packet: Bytes)
    | Observe(id: nat)
    | Expire

  const IDS := 0x1_0000

  const Init := State(0, map[], [], None, [], [], [])

  function Without(m: map<nat, nat>, id: nat): map<nat, nat> {
    m - {id}
  }

  // The reply as it goes to the client: its own transaction id, the rest untouched.
  function Restored(query: Query, packet: Bytes): Bytes
    requires query.txid < IDS && |packet| >= 2
  {
    Be16(query.txid) + packet[2..]
  }

  // The query as it goes to the backend: under the id it was given, the rest untouched.
  function Rewritten(query: Query, id: nat): Bytes {
    Be16(id % IDS) + query.body
  }

  ghost predicate Enabled(s: State, step: Step) {
    match step
    case Arrive(query) => query.txid < IDS
    case Count(pid) => pid < |s.procs| && s.procs[pid].phase.Looping? && s.procs[pid].phase.tries < IDS
    case TryStore(pid) => pid < |s.procs| && s.procs[pid].phase.Counted?
    case Write(pid, _) => pid < |s.procs| && s.procs[pid].phase.Stored?
    case Undo(pid) => pid < |s.procs| && s.procs[pid].phase.Refused?
    case Reply(packet) => true
    case Observe(id) => s.sweep.None? && id in s.pending
    case Expire => s.sweep.Some?
  }

  function At(s: State, pid: nat, phase: Phase): State
    requires pid < |s.procs|
  {
    s.(procs := s.procs[pid := s.procs[pid].(phase := phase)])
  }

  ghost function Next(s: State, step: Step): State
    requires Consistent(s) && Enabled(s, step)
  {
    match step
    case Arrive(query) => s.(procs := s.procs + [Proc(query, Looping(0))])
    case Count(pid) =>
      At(s, pid, Counted(s.procs[pid].phase.tries, s.counter + 1)).(counter := s.counter + 1)
    case TryStore(pid) =>
      var phase := s.procs[pid].phase;
      var id := phase.count % IDS;
      if id in s.pending then At(s, pid, Looping(phase.tries + 1))
      else At(s, pid, Stored(id)).(pending := s.pending[id := pid], stores := s.stores + [Store(id, pid, phase.count)])
    case Write(pid, ok) =>
      var id := s.procs[pid].phase.id;
      if ok then At(s, pid, Finished).(sent := s.sent + [Rewritten(s.procs[pid].query, id)])
      else At(s, pid, Refused(id))
    case Undo(pid) => At(s, pid, Finished).(pending := Without(s.pending, s.procs[pid].phase.id))
    case Reply(packet) =>
      if |packet| < 2 || U16(packet, 0) !in s.pending then s
      else
        var id := U16(packet, 0);
        var pid := s.pending[id];
        var query := s.procs[pid].query;
        s.(pending := Without(s.pending, id),
           forwards := s.forwards + [Forward(pid, query.client, Restored(query, packet))])
    case Observe(id) => s.(sweep := Some(id))
    case Expire => s.(sweep := None, pending := Without(s.pending, s.sweep.value))
  }

  // The goroutine of the last successful store of an id.
  function LastStore(stores: seq<Store>, id: nat): Option<nat> {
    if stores == [] then None
    else
      var last := stores[|stores| - 1];
      if last.id == id then Some(last.pid) else LastStore(stores[..|stores| - 1], id)
  }

  // Every counter value is used once, and an id is the low half of the value that gave it.
  ghost predicate CountsOk(s: State) {
    && (forall p :: 0 <= p < |s.procs| && s.procs[p].phase.Counted? ==> s.procs[p].phase.count <= s.counter)
    && (forall p, q :: 0 <= p < q < |s.procs| && s.procs[p].phase.Counted? && s.procs[q].phase.Counted? ==>
          s.procs[p].phase.count != s.procs[q].phase.count)
    && (forall j :: 0 <= j < |s.stores| ==> s.stores[j].count <= s.counter && s.stores[j].id == s.stores[j].count % IDS)
    && (forall i, j :: 0 <= i < j < |s.stores| ==> s.stores[i].count != s.stores[j].count)
    && (forall j, p :: 0 <= j < |s.stores| && 0 <= p < |s.procs| && s.procs[p].phase.Counted? ==>
          s.stores[j].count != s.procs[p].phase.count)
  }

  // A goroutine stores at most once, and not before it has counted.
  ghost predicate StoresOk(s: State) {
    && (forall j :: 0 <= j < |s.stores| ==>
          && s.stores[j].pid < |s.procs|
          && !s.procs[s.stores[j].pid].phase.Looping? && !s.procs[s.stores[j].pid].phase.Counted?)
    && (forall i, j :: 0 <= i < j < |s.stores| ==> s.stores[i].pid != s.stores[j].pid)
    && (forall p :: 0 <= p < |s.procs| ==> s.procs[p].query.txid < IDS)
  }

  // A pending entry belongs to the last goroutine that stored its id.
  ghost predicate PendingOk(s: State) {
    forall id :: id in s.pending ==>
      id < IDS && s.pending[id] < |s.procs| && LastStore(s.stores, id) == Some(s.pending[id])
  }

  ghost predicate HasStore(stores: seq<Store>, pid: nat) {
    exists j :: 0 <= j < |stores| && stores[j].pid == pid
  }

  lemma HasStoreAppend(stores: seq<Store>, st: Store, pid: nat)
    requires HasStore(stores, pid)
    ensures HasStore(stores + [st], pid)
  {
    var j :| 0 <= j < |stores| && stores[j].pid == pid;
    assert (stores + [st])[j].pid == pid;
  }

  // A goroutine is forwarded at most one reply, to its client and under its transaction id, and is pending no more.
  ghost predicate ForwardsOk(s: State) {
    && (forall i, j :: 0 <= i < j < |s.forwards| ==> s.forwards[i].pid != s.forwards[j].pid)
    && (forall i :: 0 <= i < |s.forwards| ==>
          var f := s.forwards[i];
          && f.pid < |s.procs| && f.client == s.procs[f.pid].query.client
          && |f.packet| >= 2 && U16(f.packet, 0) == s.procs[f.pid].query.txid
          && HasStore(s.stores, f.pid)
          && !s.procs[f.pid].phase.Looping? && !s.procs[f.pid].phase.Counted?)
    && (forall i, id :: 0 <= i < |s.forwards| && id in s.pending ==> s.forwards[i].pid != s.pending[id])
  }

  ghost predicate Consistent(s: State) {
    CountsOk(s) && StoresOk(s) && PendingOk(s) && ForwardsOk(s)
  }

  lemma {:induction false} LastStoreIn(stores: seq<Store>, id: nat)
    ensures LastStore(stores, id).Some? ==>
      exists j :: 0 <= j < |stores| && stores[j].id == id && stores[j].pid == LastStore(stores, id).value
  {
    if stores != [] {
      var n := |stores| - 1;
      LastStoreIn(stores[..n], id);
      if stores[n].id == id {
        assert stores[n].pid == LastStore(stores, id).value;
      } else if LastStore(stores, id).Some? {
        var j :| 0 <= j < n && stores[..n][j].id == id && stores[..n][j].pid == LastStore(stores[..n], id).value;
        assert stores[j] == stores[..n][j];
      }
    }
  }

  lemma LastStoreAppend(stores: seq<Store>, st: Store, id: nat)
    ensures LastStore(stores + [st], id) == if st.id == id then Some(st.pid) else LastStore(stores, id)
  {
    assert (stores + [st])[..|stores|] == stores;
  }

  // Each goroutine is pending under one id at most.
  lemma PendingInjective(s: State, a: nat, b: nat)
    requires Consistent(s) && a in s.pending && b in s.pending && s.pending[a] == s.pending[b]
    ensures a == b
  {
    LastStoreIn(s.stores, a);
    LastStoreIn(s.stores, b);
    var i :| 0 <= i < |s.stores| && s.stores[i].id == a && s.stores[i].pid == s.pending[a];
    var j :| 0 <= j < |s.stores| && s.stores[j].id == b && s.stores[j].pid == s.pending[b];
    assert i == j;
  }

  lemma PhaseConsistent(s: State, pid: nat, phase: Phase)
    requires Consistent(s) && pid < |s.procs| && !s.procs[pid].phase.Looping?
    requires phase.Looping? ==> s.procs[pid].phase.Counted?
    requires !phase.Counted?
    ensures Consistent(At(s, pid, phase))
  {
  }

  lemma CountConsistent(s: State, pid: nat)
    requires Consistent(s) && Enabled(s, Count(pid))
    ensures Consistent(Next(s, Count(pid)))
  {
  }

  lemma StoreConsistent(s: State, pid: nat)
    requires Consistent(s) && Enabled(s, TryStore(pid)) && s.procs[pid].phase.count % IDS !in s.pending
    ensures Consistent(Next(s, TryStore(pid)))
  {
    var phase := s.procs[pid].phase;
    var st := Store(phase.count % IDS, pid, phase.count);
    var s' := Next(s, TryStore(pid));
    forall id | id in s'.pending
      ensures LastStore(s'.stores, id) == Some(s'.pending[id])
    {
      LastStoreAppend(s.stores, st, id);
    }
    forall id | id in s.pending
      ensures s.pending[id] != pid
    {
      LastStoreIn(s.stores, id);
    }
    forall i | 0 <= i < |s.forwards|
      ensures HasStore(s'.stores, s.forwards[i].pid)
    {
      HasStoreAppend(s.stores, st, s.forwards[i].pid);
    }
    hide HasStore, LastStore;
  }

  lemma RemovalConsistent(s: State, id: nat)
    requires Consistent(s)
    ensures Consistent(s.(pending := Without(s.pending, id)))
  {
  }

  lemma ForwardConsistent(s: State, packet: Bytes)
    requires Consistent(s) && |packet| >= 2 && U16(packet, 0) in s.pending
    ensures Consistent(Next(s, Reply(packet)))
  {
    var id := U16(packet, 0);
    var query := s.procs[s.pending[id]].query;
    var f := Forward(s.pending[id], query.client, Restored(query, packet));
    RestoredId(query, packet);
    hide Restored, U16, CountsOk, StoresOk, PendingOk, ForwardsOk;
    OtherViews(s, Without(s.pending, id), s.forwards + [f]);
    ForwardAdded(s, id, f);
  }

  // Removing entries and forwarding leave three of the views as they are.
  lemma OtherViews(s: State, pending: map<nat, nat>, forwards: seq<Forward>)
    requires Consistent(s) && forall id :: id in pending ==> id in s.pending && pending[id] == s.pending[id]
    ensures var s' := s.(pending := pending, forwards := forwards); CountsOk(s') && StoresOk(s') && PendingOk(s')
  {
    hide ForwardsOk, LastStore;
  }

  lemma ForwardAdded(s: State, id: nat, f: Forward)
    requires Consistent(s) && id in s.pending && f.pid == s.pending[id] && f.client == s.procs[f.pid].query.client
    requires |f.packet| >= 2 && U16(f.packet, 0) == s.procs[f.pid].query.txid
    ensures ForwardsOk(s.(pending := Without(s.pending, id), forwards := s.forwards + [f]))
  {
    LastStoreIn(s.stores, id);
    assert HasStore(s.stores, f.pid);
    forall b | b in s.pending && b != id
      ensures s.pending[b] != f.pid
    {
      if s.pending[b] == f.pid {
        PendingInjective(s, id, b);
      }
    }
    assert !s.procs[f.pid].phase.Looping? && !s.procs[f.pid].phase.Counted?;
    hide HasStore, LastStore, U16, CountsOk, PendingOk, StoresOk;
  }

  lemma RestoredId(query: Query, packet: Bytes)
    requires query.txid < IDS && |packet| >= 2
    ensures var r := Restored(query, packet);
      |r| == |packet| && U16(r, 0) == query.txid && r[2..] == packet[2..]
  {
    assert Restored(query, packet)[..2] == Be16(query.txid);
  }

  lemma ArriveConsistent(s: State, query: Query)
    requires Consistent(s) && query.txid < IDS
    ensures Consistent(Next(s, Arrive(query)))
  {
  }

  // Every step keeps the four views in agreement.
  lemma StepConsistent(s: State, step: Step)
    requires Consistent(s) && Enabled(s, step)
    ensures Consistent(Next(s, step))
  {
    hide CountsOk, StoresOk, PendingOk, ForwardsOk;
    match step
    case Arrive(query) => ArriveConsistent(s, query);
    case Count(pid) => CountConsistent(s, pid);
    case TryStore(pid) =>
      var phase := s.procs[pid].phase;
      if phase.count % IDS in s.pending {
        PhaseConsistent(s, pid, Looping(phase.tries + 1));
      } else {
        StoreConsistent(s, pid);
      }
    case Write(pid, ok) =>
      var id := s.procs[pid].phase.id;
      PhaseConsistent(s, pid, if ok then Finished else Refused(id));
      if ok {
        SentConsistent(At(s, pid, Finished), s.sent + [Rewritten(s.procs[pid].query, id)]);
      }
    case Undo(pid) =>
      PhaseConsistent(s, pid, Finished);
      RemovalConsistent(At(s, pid, Finished), s.procs[pid].phase.id);
    case Reply(packet) =>
      if |packet| >= 2 && U16(packet, 0) in s.pending {
        ForwardConsistent(s, packet);
      }
    case Observe(id) => SweepConsistent(s, Some(id));
    case Expire =>
      SweepConsistent(s, None);
      RemovalConsistent(s.(sweep := None), s.sweep.value);
  }

  lemma SweepConsistent(s: State, sweep: Option<nat>)
    requires Consistent(s)
    ensures Consistent(s.(sweep := sweep))
  {
  }

  lemma SentConsistent(s: State, sent: seq<Bytes>)
    requires Consistent(s)
    ensures Consistent(s.(sent := sent))
  {
  }

  // The state after a run; a step that is not enabled does not happen.
  ghost function Run(s: State, steps: seq<Step>): (r: State)
    requires Consistent(s)
    ensures Consistent(r)
    decreases |steps|
  {
    if steps == [] then s
    else if Enabled(s, steps[0]) then
      StepConsistent(s, steps[0]);
      Run(Next(s, steps[0]), steps[1..])
    else Run(s, steps[1..])
  }

  lemma InitConsistent()
    ensures Consistent(Init)
  {
  }

  ghost function Reached(steps: seq<Step>): (s: State)
    ensures Consistent(s)
  {
    InitConsistent();
    Run(Init, steps)
  }

  lemma {:induction false} RunAppend(s: State, steps: seq<Step>, step: Step)
    requires Consistent(s)
    ensures var s' := Run(s, steps);
      Run(s, steps + [step]) == if Enabled(s', step) then Next(s', step) else s'
    decreases |steps|
  {
    hide Consistent, Enabled, Next;
    if steps == [] {
      assert [step][1..] == [];
      StepKeeps(s, step);
    } else {
      assert (steps + [step])[1..] == steps[1..] + [step];
      StepKeeps(s, steps[0]);
      RunAppend(if Enabled(s, steps[0]) then Next(s, steps[0]) else s, steps[1..], step);
    }
  }

  lemma StepKeeps(s: State, step: Step)
    requires Consistent(s)
    ensures Enabled(s, step) ==> Consistent(Next(s, step))
  {
    if Enabled(s, step) {
      StepConsistent(s, step);
    }
  }

  lemma OwnerStep(s: State, step: Step, id: nat)
    requires Consistent(s) && Enabled(s, step) && id in s.pending && id in Next(s, step).pending
    ensures Next(s, step).pending[id] == s.pending[id]
  {
    hide Consistent;
  }

  // While an id stays live, whatever runs, it keeps belonging to the same query.
  lemma {:induction false} OwnerStays(steps: seq<Step>, more: seq<Step>, id: nat)
    requires forall k :: 0 <= k <= |more| ==> id in Reached(steps + more[..k]).pending
    ensures id in Reached(steps).pending && id in Reached(steps + more).pending
    ensures Reached(steps + more).pending[id] == Reached(steps).pending[id]
    decreases |more|
  {
    hide Run, Next, Enabled, Consistent;
    assert steps + more[..0] == steps && more[..|more|] == more;
    if more == [] {
      assert steps + more == steps;
    } else {
      var n := |more| - 1;
      var front, last := more[..n], more[n];
      assert id in Reached(steps + more[..0]).pending;
      forall k | 0 <= k <= |front|
        ensures id in Reached(steps + front[..k]).pending
      {
        assert front[..k] == more[..k];
      }
      OwnerStays(steps, front, id);
      InitConsistent();
      RunAppend(Init, steps + front, last);
      assert (steps + front) + [last] == steps + more;
      if Enabled(Reached(steps + front), last) {
        OwnerStep(Reached(steps + front), last, id);
      }
    }
  }

  // What a goroutine gets from a counter increment: a value nobody else ever gets.
  lemma CountEffect(s: State, pid: nat)
    requires Consistent(s) && Enabled(s, Count(pid))
    ensures var s' := Next(s, Count(pid));
      && s'.procs[pid].phase == Counted(s.procs[pid].phase.tries, s'.counter) && s'.counter == s.counter + 1
      && s'.pending == s.pending && s'.stores == s.stores && s'.forwards == s.forwards && s'.sent == s.sent
      && (forall p :: 0 <= p < |s.procs| && p != pid ==> s'.procs[p] == s.procs[p])
  {
    hide Consistent;
  }

  // A free id becomes live for the goroutine; a taken one leaves everything as it is and the goroutine counts again,
  // as long as it has tries left.
  lemma StoreEffect(s: State, pid: nat)
    requires Consistent(s) && Enabled(s, TryStore(pid))
    ensures var s', phase := Next(s, TryStore(pid)), s.procs[pid].phase;
      var id := phase.count % IDS;
      && s'.counter == s.counter && s'.forwards == s.forwards && s'.sent == s.sent && |s'.procs| == |s.procs|
      && (forall p :: 0 <= p < |s.procs| ==> s'.procs[p].query == s.procs[p].query)
      && (forall p :: 0 <= p < |s.procs| && p != pid ==> s'.procs[p] == s.procs[p])
      && (id !in s.pending ==>
            && id in s'.pending && s'.pending[id] == pid && s'.pending - {id} == s.pending
            && LastStore(s'.stores, id) == Some(pid) && Enabled(s', Write(pid, true)) && s'.procs[pid].phase.id == id)
      && (id in s.pending ==>
            && s'.pending == s.pending && s'.stores == s.stores
            && s'.procs[pid].phase == Looping(phase.tries + 1)
            && (Enabled(s', Count(pid)) <==> phase.tries + 1 < 65536))
  {
    hide Consistent;
    var phase := s.procs[pid].phase;
    LastStoreAppend(s.stores, Store(phase.count % IDS, pid, phase.count), phase.count % IDS);
  }

  // A refused write frees the id again, and so does an expiry; no other id is touched.
  lemma RemovalEffect(s: State, step: Step)
    requires Consistent(s) && Enabled(s, step) && (step.Undo? || step.Expire?)
    ensures var id := if step.Undo? then s.procs[step.pid].phase.id else s.sweep.value;
      var s' := Next(s, step);
      && id !in s'.pending && s'.forwards == s.forwards && s'.stores == s.stores && s'.sent == s.sent
      && (forall other :: other != id ==> (other in s'.pending <==> other in s.pending))
      && (forall other :: other in s'.pending ==> s'.pending[other] == s.pending[other])
      && (if step.Undo? then s'.procs[step.pid].phase == Finished else s'.sweep == None)
  {
    hide Consistent;
  }

  // A write is over, or stands before its undo; the cleanup remembers the id it saw until it removes it.
  lemma WaitEffect(s: State, step: Step)
    requires Consistent(s) && Enabled(s, step) && (step.Write? || step.Observe?)
    ensures var s' := Next(s, step);
      && s'.pending == s.pending && s'.forwards == s.forwards && s'.stores == s.stores && s'.counter == s.counter
      && (forall p :: 0 <= p < |s.procs| ==> s'.procs[p].query == s.procs[p].query)
      && match step
         case Write(pid, ok) =>
           if ok then
             && s'.procs[pid].phase == Finished
             && s'.sent == s.sent + [Rewritten(s.procs[pid].query, s.procs[pid].phase.id)]
           else
             Enabled(s', Undo(pid)) && s'.procs[pid].phase.id == s.procs[pid].phase.id && s'.sent == s.sent
         case _ => Enabled(s', Expire) && s'.sweep == Some(step.id) && s'.sent == s.sent
  {
    hide Consistent;
  }

  lemma ReachedNext(steps: seq<Step>, step: Step)
    requires Enabled(Reached(steps), step)
    ensures Reached(steps + [step]) == Next(Reached(steps), step)
  {
    hide Run, Next, Enabled;
    InitConsistent();
    RunAppend(Init, steps, step);
  }

  // In every state that a run can reach: a goroutine whose id is free stores it and sends its packet with that id in
  // place of its own, and a reply under the id is forwarded to its client, with its own id and nothing else changed.
  lemma CountedIsServed(steps: seq<Step>, pid: nat, packet: Bytes)
    requires Enabled(Reached(steps), TryStore(pid)) && |packet| >= 2
    requires U16(packet, 0) == Reached(steps).procs[pid].phase.count % IDS
    requires U16(packet, 0) !in Reached(steps).pending
    ensures var s, s' := Reached(steps), Reached(steps + [TryStore(pid)] + [Write(pid, true)] + [Reply(packet)]);
      && s'.sent == s.sent + [packet[..2] + s.procs[pid].query.body]
      && |s'.forwards| == |s.forwards| + 1 && s.forwards < s'.forwards
      && var f := s'.forwards[|s.forwards|];
      && f.pid == pid && f.client == s.procs[pid].query.client
      && |f.packet| == |packet| && U16(f.packet, 0) == s.procs[pid].query.txid && f.packet[2..] == packet[2..]
      && s'.pending == s.pending
  {
    hide Run, Consistent, Restored, U16;
    var s := Reached(steps);
    var steps1 := steps + [TryStore(pid)];
    var steps2 := steps1 + [Write(pid, true)];
    ReachedNext(steps, TryStore(pid));
    StoreEffect(s, pid);
    var s1 := Reached(steps1);
    ReachedNext(steps1, Write(pid, true));
    WaitEffect(s1, Write(pid, true));
    ReachedNext(steps2, Reply(packet));
    TxidFits(s, pid);
    RestoredId(s.procs[pid].query, packet);
    SameId(packet);
  }

  lemma SameId(packet: Bytes)
    requires |packet| >= 2
    ensures Be16(U16(packet, 0) % IDS) == packet[..2]
  {
  }

  lemma TxidFits(s: State, pid: nat)
    requires Consistent(s) && pid < |s.procs|
    ensures s.procs[pid].query.txid < IDS
  {
  }

  // So is every query that arrives when the next id is free, whatever happened before.
  lemma ArrivalIsServed(steps: seq<Step>, query: Query, packet: Bytes)
    requires query.txid < IDS && |packet| >= 2
    requires U16(packet, 0) == (Reached(steps).counter + 1) % IDS && U16(packet, 0) !in Reached(steps).pending
    ensures var s := Reached(steps);
      var pid := |s.procs|;
      var steps' := steps + [Arrive(query)] + [Count(pid)];
      var s' := Reached(steps' + [TryStore(pid)] + [Write(pid, true)] + [Reply(packet)]);
      && s'.sent == s.sent + [packet[..2] + query.body]
      && |s'.forwards| == |s.forwards| + 1 && s.forwards < s'.forwards
      && var f := s'.forwards[|s.forwards|];
      && f.client == query.client
      && |f.packet| == |packet| && U16(f.packet, 0) == query.txid && f.packet[2..] == packet[2..]
      && s'.pending == s.pending
  {
    hide Run, Consistent, U16;
    var s := Reached(steps);
    var pid := |s.procs|;
    var steps1 := steps + [Arrive(query)];
    ReachedNext(steps, Arrive(query));
    var s1 := Reached(steps1);
    assert s1.procs[pid] == Proc(query, Looping(0));
    ReachedNext(steps1, Count(pid));
    CountEffect(s1, pid);
    CountedIsServed(steps1 + [Count(pid)], pid, packet);
  }

  // A reply to a live id goes to the client of the last query stored under it, with that query's transaction id
  // and nothing else changed; the id is free again. A reply to any other id goes nowhere.
  lemma ReplyRouting(steps: seq<Step>, packet: Bytes)
    requires |packet| >= 2
    ensures var s, id := Reached(steps), U16(packet, 0);
      var s' := Next(s, Reply(packet));
      if id in s.pending then
        exists pid, out ::
          && LastStore(s.stores, id) == Some(pid) && pid < |s.procs|
          && s'.forwards == s.forwards + [Forward(pid, s.procs[pid].query.client, out)]
          && |out| == |packet| && U16(out, 0) == s.procs[pid].query.txid && out[2..] == packet[2..]
          && id !in s'.pending
      else s' == s
  {
    var s, id := Reached(steps), U16(packet, 0);
    if id in s.pending {
      var pid := s.pending[id];
      var out := Restored(s.procs[pid].query, packet);
      assert LastStore(s.stores, id) == Some(pid);
      RestoredId(s.procs[pid].query, packet);
      assert Next(s, Reply(packet)).forwards == s.forwards + [Forward(pid, s.procs[pid].query.client, out)];
    }
  }

  // Each query is stored at most once and forwarded at most one reply, to its own client and transaction id.
  lemma ForwardedOnce(steps: seq<Step>, i: nat, j: nat)
    requires i < j < |Reached(steps).forwards|
    ensures var s := Reached(steps);
      && s.forwards[i].pid != s.forwards[j].pid
      && s.forwards[i].pid < |s.procs| && s.forwards[i].client == s.procs[s.forwards[i].pid].query.client
      && |s.forwards[i].packet| >= 2 && U16(s.forwards[i].packet, 0) == s.procs[s.forwards[i].pid].query.txid
  {
  }

  lemma CongruentGap(a: nat, b: nat)
    requires a % IDS == b % IDS && a != b
    ensures a + IDS <= b || b + IDS <= a
  {
  }

  // Two stores of the same id are at least 65536 increments of the counter apart.
  lemma StoresApart(steps: seq<Step>, i: nat, j: nat)
    requires i < j < |Reached(steps).stores| && Reached(steps).stores[i].id == Reached(steps).stores[j].id
    ensures var a, b := Reached(steps).stores[i].count, Reached(steps).stores[j].count;
      a + IDS <= b || b + IDS <= a
  {
    var s := Reached(steps);
    assert s.stores[i].count != s.stores[j].count;
    CongruentGap(s.stores[i].count, s.stores[j].count);
  }

  // Whoever holds an id, and whoever was given it before, are the same query as long as
  // both allocations lie within the last 65536 increments: then a reply, an undo and an expiry meet their own query.
  lemma RecentOwner(steps: seq<Step>, i: nat, id: nat)
    requires var s := Reached(steps); i < |s.stores| && s.stores[i].id == id && id in s.pending
    ensures var s := Reached(steps);
      exists k ::
        && 0 <= k < |s.stores| && s.stores[k].id == id && s.stores[k].pid == s.pending[id]
        && (s.counter - s.stores[i].count < IDS && s.counter - s.stores[k].count < IDS ==> k == i)
  {
    var s := Reached(steps);
    LastStoreIn(s.stores, id);
    var k :| 0 <= k < |s.stores| && s.stores[k].id == id && s.stores[k].pid == s.pending[id];
    if i < k {
      StoresApart(steps, i, k);
    } else if k < i {
      StoresApart(steps, k, i);
    }
  }

  lemma {:induction false} LastStoreIsLast(stores: seq<Store>, id: nat) returns (k: nat)
    requires LastStore(stores, id).Some?
    ensures k < |stores| && stores[k].id == id && stores[k].pid == LastStore(stores, id).value
    ensures forall j :: k < j < |stores| ==> stores[j].id != id
  {
    var n := |stores| - 1;
    if stores[n].id == id {
      k := n;
    } else {
      k := LastStoreIsLast(stores[..n], id);
    }
  }

  // A reply that carries the id of a stored query reaches that query's client exactly when
  // the id was not given out again since.
  lemma RoutedIffLatest(steps: seq<Step>, i: nat, id: nat)
    requires var s := Reached(steps); i < |s.stores| && s.stores[i].id == id && id in s.pending
    ensures var s := Reached(steps);
      s.pending[id] == s.stores[i].pid <==> forall j :: i < j < |s.stores| ==> s.stores[j].id != id
  {
    var s := Reached(steps);
    var k := LastStoreIsLast(s.stores, id);
    assert k >= i;
    assert k != i ==> s.stores[i].pid != s.stores[k].pid;
  }
}
