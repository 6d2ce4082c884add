/** The queue object of pkg/controllers/disruption/queue.go, each method proved against its step of the model. */
module Queue {
  import opened Candidates
  import opened Wrappers
  import opened QueueModel

  /** `StartCommand` run without interruption. */
  ghost function Started(s: State, cid: CommandID, cmd: Command, written: seq<bool>, names: Option<seq<string>>): State
    requires |written| == |cmd.candidates|
  {
    if HasAny(s, IDs(cmd.candidates)) then s else Commit(Begin(s, cid, cmd), cid, written, names)
  }

  /** A fresh command whose candidates are disjoint from those of commands being started. */
  ghost predicate MayStart(s: State, cid: CommandID, cmd: Command) {
    && cid !in s.commands && cmd.candidates != [] && !cmd.succeeded
    && forall p | p in s.pending && p in s.commands :: CommandIDs(s, p) !! IDs(cmd.candidates)
  }

  /** Starting keeps the invariant of the queue, whether or not the command is launched. */
  lemma StartedKeeps(s: State, cid: CommandID, cmd: Command, written: seq<bool>, names: Option<seq<string>>)
    requires Inv(s) && MayStart(s, cid, cmd) && |written| == |cmd.candidates|
    ensures Inv(Started(s, cid, cmd, written, names))
  {
    if !HasAny(s, IDs(cmd.candidates)) {
      BeginKeeps(s, cid, cmd);
      CommitKeeps(Begin(s, cid, cmd), cid, written, names);
    }
  }

  ghost function Entered(inFlight: map<string, CommandID>, ids: set<string>, cid: CommandID): map<string, CommandID> {
    inFlight + map id | id in ids :: cid
  }

  lemma EnteredNext(inFlight: map<string, CommandID>, ids: set<string>, cid: CommandID, id: string)
    ensures Entered(inFlight, ids, cid)[id := cid] == Entered(inFlight, ids + {id}, cid)
  {
  }

  function Replies(cmd: Command, get: string -> Reply): (r: seq<Reply>)
    ensures |r| == |cmd.replacements| && forall i | 0 <= i < |r| :: r[i] == get(cmd.replacements[i].name)
  {
    seq(|cmd.replacements|, i requires 0 <= i < |cmd.replacements| => get(cmd.replacements[i].name))
  }

  function DeleteReplies(cmd: Command, delete: string -> DeleteReply): (r: seq<DeleteReply>)
    ensures |r| == |cmd.candidates| && forall i | 0 <= i < |r| :: r[i] == delete(cmd.candidates[i].nodeClaim)
  {
    seq(|cmd.candidates|, i requires 0 <= i < |cmd.candidates| => delete(cmd.candidates[i].nodeClaim))
  }

  predicate Lists(cmd: Command, nodeClaim: string) {
    exists c :: c in cmd.candidates && c.nodeClaim == nodeClaim
  }

  class Queue {
    var commands: map<CommandID, Command>
    var inFlight: map<string, CommandID>
    var nodes: set<string>
    var marked: set<string>
    var completed: nat
    ghost var pending: set<CommandID>
    ghost var active: set<CommandID>
    ghost var deletes: set<(CommandID, string)>

    ghost function Snapshot(): State
      reads this
    {
      State(commands, inFlight, nodes, marked, completed, pending, active, deletes)
    }

    constructor ()
      ensures Snapshot() == INITIAL
    {
      commands, inFlight, nodes, marked, completed := map[], map[], {}, {}, 0;
      pending, active, deletes := {}, {}, {};
    }

    method GetMaxRetryDuration() returns (d: int)
      ensures d == MaxRetryDuration(Snapshot()) && MIN_RETRY_DURATION <= d <= MAX_RETRY_DURATION
    {
      d := Clamp(RETRY_DURATION_SCALE * |inFlight|, MIN_RETRY_DURATION, MAX_RETRY_DURATION);
    }

    method HasAny(candidates: seq<Candidate>) returns (found: bool)
      ensures found <==> QueueModel.HasAny(Snapshot(), IDs(candidates))
    {
      for i := 0 to |candidates|
        invariant forall k | 0 <= k < i :: candidates[k].providerID !in inFlight
      {
        if candidates[i].providerID in inFlight {
          assert candidates[i].providerID in IDs(candidates);
          return true;
        }
      }
      return false;
    }

    method MarkDisrupted(candidates: seq<Candidate>, written: seq<bool>) returns (r: seq<Candidate>)
      requires |written| == |candidates|
      ensures r == MarkedCandidates(candidates, written)
    {
      r := [];
      for i := 0 to |candidates|
        invariant r == MarkedCandidates(candidates[..i], written[..i])
      {
        assert candidates[..i + 1][..i] == candidates[..i] && written[..i + 1][..i] == written[..i];
        if written[i] {
          r := r + [candidates[i]];
        }
      }
      assert candidates[..|candidates|] == candidates && written[..|written|] == written;
    }

    /**
     `written[i]` is the reply for tainting candidate i, `names` the names of the created
     replacements. A command without candidates would index an empty list.
     */
    method StartCommand(cid: CommandID, cmd: Command, written: seq<bool>, names: Option<seq<string>>) returns (ok: bool)
      requires |written| == |cmd.candidates| && cmd.candidates != []
      modifies this
      ensures Snapshot() == Started(old(Snapshot()), cid, cmd, written, names)
      ensures ok <==> !QueueModel.HasAny(old(Snapshot()), IDs(cmd.candidates)) && Launches(cmd, written, names)
      ensures old(Inv(Snapshot()) && MayStart(Snapshot(), cid, cmd)) ==> Inv(Snapshot())
    {
      if Inv(Snapshot()) && MayStart(Snapshot(), cid, cmd) {
        StartedKeeps(Snapshot(), cid, cmd, written, names);
      }
      var overlap := HasAny(cmd.candidates);
      if overlap {
        return false;
      }
      ghost var s := Begin(Snapshot(), cid, cmd);
      commands := commands[cid := cmd];
      var candidates := MarkDisrupted(cmd.candidates, written);
      var failed := exists i | 0 <= i < |written| :: !written[i];
      var aborts := failed && (cmd.replacements != [] || candidates == []);
      if aborts || names.None? || |names.value| != |cmd.replacements| {
        pending := pending + {cid} - {cid};
        assert Snapshot().pending == s.pending - {cid};
        return false;
      }
      pending := pending + {cid};
      assert Snapshot() == s;
      Insert(cid, cmd.(candidates := candidates, replacements := Named(cmd.replacements, names.value)));
      return true;
    }

    /** The launched command: its candidates are marked for deletion and enter the map. */
    method Insert(cid: CommandID, cmd: Command)
      modifies this
      ensures Snapshot() == QueueModel.Insert(old(Snapshot()), cid, cmd)
    {
      commands := commands[cid := cmd];
      marked := marked + IDs(cmd.candidates) * nodes;
      Enter(cid, cmd.candidates);
      pending, active := pending - {cid}, active + {cid};
    }

    method Enter(cid: CommandID, candidates: seq<Candidate>)
      modifies this`inFlight
      ensures inFlight == Entered(old(inFlight), IDs(candidates), cid)
    {
      for i := 0 to |candidates|
        invariant inFlight == Entered(old(inFlight), IDs(candidates[..i]), cid)
      {
        NextID(candidates, i);
        EnteredNext(old(inFlight), IDs(candidates[..i]), cid, candidates[i].providerID);
        inFlight := inFlight[candidates[i].providerID := cid];
      }
      assert candidates[..|candidates|] == candidates;
    }

    method Leave(candidates: seq<Candidate>)
      modifies this`inFlight
      ensures inFlight == old(inFlight) - IDs(candidates)
    {
      for i := 0 to |candidates|
        invariant inFlight == old(inFlight) - IDs(candidates[..i])
      {
        NextID(candidates, i);
        inFlight := inFlight - {candidates[i].providerID};
      }
      assert candidates[..|candidates|] == candidates;
    }

    method CompleteCommand(cid: CommandID)
      requires cid in commands
      modifies this
      ensures Snapshot() == Complete(old(Snapshot()), cid)
    {
      completed := completed + 1;
      if !commands[cid].succeeded {
        marked := marked - IDs(commands[cid].candidates);
      }
      Leave(commands[cid].candidates);
      active := active - {cid};
    }

    /** Reconciles a command that lists the NodeClaim. */
    method Reconcile(nodeClaim: string, get: string -> Reply, delete: string -> DeleteReply, now: int)
      returns (outcome: Option<Outcome>, ghost cid: CommandID)
      requires Inv(Snapshot())
      modifies this
      ensures Inv(Snapshot())
      ensures outcome.None? ==>
              && unchanged(this)
              && forall id, c | id in inFlight && c in commands[inFlight[id]].candidates :: c.nodeClaim != nodeClaim
      ensures outcome.Some? ==>
                && cid in old(inFlight).Values && cid in old(commands)
                && (exists c :: c in old(commands)[cid].candidates && c.nodeClaim == nodeClaim)
                && var cmd := old(commands)[cid];
                var s := old(Snapshot());
                && outcome.value == OutcomeOf(s, cid, Replies(cmd, get), DeleteReplies(cmd, delete), now)
                && Snapshot() == QueueModel.Reconcile(s, cid, Replies(cmd, get), DeleteReplies(cmd, delete), now)
    {
      var found := Find(nodeClaim);
      if found.None? {
        return None, 0;
      }
      cid := found.value;
      ReconcileKeeps(Snapshot(), cid, Replies(commands[cid], get), DeleteReplies(commands[cid], delete), now);
      var o := Drive(found.value, get, delete, now);
      outcome := Some(o);
    }

    /**
     `waitOrTerminate` and what is made of its verdict; the retry duration is read before the work,
     the clock after it.
     */
    method Drive(cid: CommandID, get: string -> Reply, delete: string -> DeleteReply, now: int)
      returns (outcome: Outcome)
      requires cid in commands
      modifies this
      ensures var cmd := old(commands)[cid];
              var s := old(Snapshot());
              && outcome == OutcomeOf(s, cid, Replies(cmd, get), DeleteReplies(cmd, delete), now)
              && Snapshot() == QueueModel.Reconcile(s, cid, Replies(cmd, get), DeleteReplies(cmd, delete), now)
    {
      ghost var s := Snapshot();
      var cmd := commands[cid];
      var retryDuration := GetMaxRetryDuration();
      var replacements, lost := AwaitReplacements(cmd, get);
      commands := commands[cid := cmd.(replacements := replacements)];
      var ready := !lost && AllInitialized(replacements);
      var failures := false;
      if ready {
        deletes := deletes + set id | id in IDs(cmd.candidates) :: (cid, id);
        failures := DeleteCandidates(cmd, delete);
      }
      assert Snapshot() == Wait(s, cid, Replies(cmd, get)) by {
        if lost {
          NotReadyWhenLost(cmd.replacements, Replies(cmd, get));
        }
      }
      if now - cmd.created > retryDuration || lost {
        CompleteCommand(cid);
        return Failed;
      }
      if !ready || failures {
        return Requeued;
      }
      commands := commands[cid := commands[cid].(succeeded := true)];
      CompleteCommand(cid);
      return Succeeded;
    }

    method Find(nodeClaim: string) returns (found: Option<CommandID>)
      requires Exact(Snapshot())
      ensures found.None? ==> forall id | id in inFlight :: !Lists(commands[inFlight[id]], nodeClaim)
      ensures found.Some? ==>
              found.value in inFlight.Values && found.value in commands && Lists(commands[found.value], nodeClaim)
    {
      var rest := inFlight.Keys;
      while rest != {}
        invariant rest <= inFlight.Keys
        invariant forall id | id in inFlight.Keys - rest :: !Lists(commands[inFlight[id]], nodeClaim)
      {
        var id :| id in rest;
        if Lists(commands[inFlight[id]], nodeClaim) {
          return Some(inFlight[id]);
        }
        rest := rest - {id};
      }
      return None;
    }
  }

  /**
   The deletions of `waitOrTerminate`, one reply per candidate; a NodeClaim that is already gone
   counts as deleted.
   */
  method DeleteCandidates(cmd: Command, delete: string -> DeleteReply) returns (failures: bool)
    ensures failures <==> !AllDeleted(DeleteReplies(cmd, delete))
  {
    failures := false;
    ghost var replies := DeleteReplies(cmd, delete);
    for i := 0 to |cmd.candidates|
      invariant failures <==> !AllDeleted(replies[..i])
    {
      assert replies[..i + 1] == replies[..i] + [replies[i]];
      if delete(cmd.candidates[i].nodeClaim).DeleteError? {
        assert replies[..i + 1][i].DeleteError?;
        failures := true;
      }
    }
    assert replies[..|replies|] == replies;
  }

  /** The loop of `waitOrTerminate` over the replacements; it stops at the first one that is lost. */
  method AwaitReplacements(cmd: Command, get: string -> Reply) returns (rs: seq<Replacement>, lost: bool)
    ensures rs == Waited(cmd.replacements, Replies(cmd, get))
    ensures lost <==> LostBy(cmd.replacements, Replies(cmd, get), |rs|)
  {
    rs, lost := AwaitAll(cmd.replacements, get, Replies(cmd, get));
  }

  method AwaitAll(replacements: seq<Replacement>, get: string -> Reply, ghost replies: seq<Reply>)
    returns (rs: seq<Replacement>, lost: bool)
    requires |replies| == |replacements|
    requires forall i | 0 <= i < |replies| :: replies[i] == get(replacements[i].name)
    ensures rs == Waited(replacements, replies) && (lost <==> LostBy(replacements, replies, |replies|))
  {
    var i := 0;
    rs := replacements;
    while i < |replacements| && !(!rs[i].initialized && get(replacements[i].name).Missing?)
      invariant i <= |replacements| == |rs| && WaitedFor(replacements, replies, rs, i)
    {
      WaitedNext(replacements, replies, rs, i);
      rs := rs[i := rs[i].(initialized := rs[i].initialized || get(replacements[i].name).Initialized?)];
      i := i + 1;
    }
    lost := i < |replacements|;
    WaitedDone(replacements, replies, rs, i);
  }

  /** The first i replacements have been looked at, and none was lost. */
  ghost predicate WaitedFor(replacements: seq<Replacement>, replies: seq<Reply>, rs: seq<Replacement>, i: nat)
    requires |replies| == |replacements| == |rs| && i <= |rs|
  {
    && (forall k | 0 <= k < i :: replacements[k].initialized || !replies[k].Missing?)
    && (forall k | 0 <= k < i ::
          rs[k] == replacements[k].(initialized := replacements[k].initialized || replies[k].Initialized?))
    && (forall k | i <= k < |rs| :: rs[k] == replacements[k])
  }

  lemma WaitedNext(replacements: seq<Replacement>, replies: seq<Reply>, rs: seq<Replacement>, i: nat)
    requires |replies| == |replacements| == |rs| && i < |rs| && WaitedFor(replacements, replies, rs, i)
    requires replacements[i].initialized || !replies[i].Missing?
    ensures WaitedFor(replacements, replies,
                      rs[i := rs[i].(initialized := rs[i].initialized || replies[i].Initialized?)], i + 1)
  {
  }

  /** Where the loop stops, at a lost replacement or at the end. */
  lemma WaitedDone(replacements: seq<Replacement>, replies: seq<Reply>, rs: seq<Replacement>, i: nat)
    requires |replies| == |replacements| == |rs| && i <= |rs| && WaitedFor(replacements, replies, rs, i)
    requires i < |rs| ==> !replacements[i].initialized && replies[i].Missing?
    ensures rs == Waited(replacements, replies) && (LostBy(replacements, replies, |replies|) <==> i < |rs|)
  {
    assert forall k | 0 <= k < |rs| :: LostBy(replacements, replies, k) <==> k > i;
    assert forall k | 0 <= k < |rs| && k != i :: rs[k] == Waited(replacements, replies)[k];
  }

  /** A pass that stops at a lost replacement has not seen all of them initialised. */
  lemma NotReadyWhenLost(replacements: seq<Replacement>, replies: seq<Reply>)
    requires |replies| == |replacements| && LostBy(replacements, replies, |replies|)
    ensures !AllInitialized(Waited(replacements, replies))
  {
    var k :| 0 <= k < |replies| && !replacements[k].initialized && replies[k].Missing?;
    assert !Waited(replacements, replies)[k].initialized;
  }
}
