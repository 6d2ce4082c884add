/**
 The orchestration queue as a state machine (pkg/controllers/disruption/queue.go). A command is
 begun (its candidates pass `HasAny`), committed (they enter `ProviderIDToCommand`), and reconciled
 until it succeeds, fails or times out. Begin and commit are separate steps because the disruption
 controller starts commands in parallel and the two are not one critical section.

 Replies of the API server and of the clock are arguments of the steps.
 */
module QueueModel {
  import opened Candidates
  import opened Wrappers

  // Durations and times are in milliseconds.
  const MIN_RETRY_DURATION: int := 10 * 60 * 1000
  const MAX_RETRY_DURATION: int := 60 * 60 * 1000
  const RETRY_DURATION_SCALE: int := 80

  datatype Replacement = Replacement(name: string, initialized: bool)
  datatype Command = Command(
    created: int,
    candidates: seq<Candidate>,
    replacements: seq<Replacement>,
    succeeded: bool)

  /** Stands for the address of a command. */
  type CommandID = nat

  datatype State = State(
    commands: map<CommandID, Command>,
    inFlight: map<string, CommandID>,      // ProviderIDToCommand
    nodes: set<string>,                    // provider IDs the cluster state knows
    marked: set<string>,                   // of those, the ones marked for deletion
    completed: nat,
    pending: set<CommandID>,               // history: begun, not yet committed
    active: set<CommandID>,                // history: committed, not yet completed
    deletes: set<(CommandID, string)>)     // history: delete calls issued, by command and candidate

  function CommandIDs(s: State, cid: CommandID): set<string>
    requires cid in s.commands
  {
    IDs(s.commands[cid].candidates)
  }

  predicate HasAny(s: State, ids: set<string>) {
    exists id :: id in ids && id in s.inFlight
  }

  function Clamp(n: int, low: int, high: int): int {
    if n < low then low else if n > high then high else n
  }

  function MaxRetryDuration(s: State): (d: int)
    ensures MIN_RETRY_DURATION <= d <= MAX_RETRY_DURATION
  {
    Clamp(RETRY_DURATION_SCALE * |s.inFlight|, MIN_RETRY_DURATION, MAX_RETRY_DURATION)
  }

  /**
   The retry duration never shrinks as candidates enter the queue. It is the shortest one up to 7500
   candidates in flight and the longest one from 45000 on.
   */
  lemma RetryDurationGrows(s: State, t: State)
    requires |s.inFlight| <= |t.inFlight|
    ensures MaxRetryDuration(s) <= MaxRetryDuration(t)
    ensures MaxRetryDuration(s) == MIN_RETRY_DURATION <==> |s.inFlight| <= 7500
    ensures MaxRetryDuration(s) == MAX_RETRY_DURATION <==> |s.inFlight| >= 45000
  {
  }

  /** So a command that has timed out stays timed out as the clock advances, unless the queue has grown. */
  lemma TimeoutPersists(s: State, t: State, cid: CommandID, now: int, later: int)
    requires cid in s.commands && cid in t.commands && t.commands[cid].created == s.commands[cid].created
    requires |t.inFlight| <= |s.inFlight| && now <= later && TimedOut(s, cid, now)
    ensures TimedOut(t, cid, later)
  {
    RetryDurationGrows(t, s);
  }

  // Starting a command

  /** The candidates whose taint and condition were written; `written[i]` is the reply for candidate i. */
  function MarkedCandidates(candidates: seq<Candidate>, written: seq<bool>): (r: seq<Candidate>)
    requires |written| == |candidates|
    ensures forall c | c in r :: c in candidates
    ensures (forall i | 0 <= i < |written| :: written[i]) ==> r == candidates
  {
    if candidates == [] then []
    else
      var front := MarkedCandidates(candidates[..|candidates| - 1], written[..|written| - 1]);
      if written[|written| - 1] then front + [candidates[|candidates| - 1]] else front
  }

  /** The candidates of r stand at these places, in order, and they are all that were written. */
  ghost predicate StandAt(candidates: seq<Candidate>, written: seq<bool>, r: seq<Candidate>, at: seq<nat>) {
    && |written| == |candidates| && |at| == |r|
    && (forall j | 0 <= j < |at| :: at[j] < |candidates| && written[at[j]] && r[j] == candidates[at[j]])
    && (forall i, j | 0 <= i < j < |at| :: at[i] < at[j])
    && forall i: nat | i < |written| && written[i] :: i in at
  }

  lemma StandNext(candidates: seq<Candidate>, written: seq<bool>, r: seq<Candidate>, at: seq<nat>)
    requires |written| == |candidates| > 0
    requires StandAt(candidates[..|candidates| - 1], written[..|candidates| - 1], r, at)
    ensures var n := |candidates| - 1;
            if written[n] then StandAt(candidates, written, r + [candidates[n]], at + [n])
            else StandAt(candidates, written, r, at)
  {
    var n := |candidates| - 1;
    assert forall i: nat | i < n && written[i] :: written[..n][i] && i in at;
    if written[n] {
      assert forall i: nat | i < |written| && written[i] :: i in at + [n];
    }
  }

  /** They are those candidates in their order. */
  lemma {:induction false} MarkedAre(candidates: seq<Candidate>, written: seq<bool>) returns (at: seq<nat>)
    requires |written| == |candidates|
    ensures StandAt(candidates, written, MarkedCandidates(candidates, written), at)
  {
    if candidates == [] {
      at := [];
    } else {
      var n := |candidates| - 1;
      var front := MarkedAre(candidates[..n], written[..n]);
      StandNext(candidates, written, MarkedCandidates(candidates[..n], written[..n]), front);
      at := if written[n] then front + [n] else front;
    }
  }

  function Named(replacements: seq<Replacement>, names: seq<string>): (r: seq<Replacement>)
    requires |names| == |replacements|
    ensures |r| == |names|
    ensures forall i | 0 <= i < |names| :: r[i].name == names[i] && r[i].initialized == replacements[i].initialized
  {
    seq(|names|, i requires 0 <= i < |names| => replacements[i].(name := names[i]))
  }

  /** The overlap check of `StartCommand` has passed. */
  function Begin(s: State, cid: CommandID, cmd: Command): State {
    s.(commands := s.commands[cid := cmd], pending := s.pending + {cid})
  }

  /** Whether the rest of `StartCommand` reaches the insertion. `names` is None when creation fails. */
  predicate Launches(cmd: Command, written: seq<bool>, names: Option<seq<string>>)
    requires |written| == |cmd.candidates|
  {
    && ((forall i | 0 <= i < |written| :: written[i])
        || (cmd.replacements == [] && MarkedCandidates(cmd.candidates, written) != []))
    && names.Some? && |names.value| == |cmd.replacements|
  }

  /** The command as it enters the queue: only the marked candidates, with the replacements' names. */
  function Launched(cmd: Command, written: seq<bool>, names: Option<seq<string>>): (r: Command)
    requires |written| == |cmd.candidates| && Launches(cmd, written, names)
    ensures r.succeeded == cmd.succeeded && r.created == cmd.created
    ensures |r.replacements| == |names.value|
    ensures forall i | 0 <= i < |names.value| ::
              r.replacements[i].name == names.value[i]
              && r.replacements[i].initialized == cmd.replacements[i].initialized
    ensures forall c | c in r.candidates :: c in cmd.candidates
    ensures cmd.candidates != [] ==> r.candidates != []
  {
    cmd.(candidates := MarkedCandidates(cmd.candidates, written), replacements := Named(cmd.replacements, names.value))
  }

  function Insert(s: State, cid: CommandID, cmd: Command): State {
    var ids := IDs(cmd.candidates);
    s.(commands := s.commands[cid := cmd],
       inFlight := s.inFlight + map id | id in ids :: cid,
       marked := s.marked + ids * s.nodes,
       pending := s.pending - {cid},
       active := s.active + {cid})
  }

  function Commit(s: State, cid: CommandID, written: seq<bool>, names: Option<seq<string>>): State
    requires cid in s.commands && |written| == |s.commands[cid].candidates|
  {
    var cmd := s.commands[cid];
    if Launches(cmd, written, names) then Insert(s, cid, Launched(cmd, written, names))
    else s.(pending := s.pending - {cid})
  }

  /** A start goes through if everything was marked, or something was and nothing has to be launched. */
  lemma LaunchesIff(cmd: Command, written: seq<bool>, names: Option<seq<string>>)
    requires |written| == |cmd.candidates|
    ensures Launches(cmd, written, names) <==>
            && ((forall i | 0 <= i < |written| :: written[i])
                || (cmd.replacements == [] && exists i :: 0 <= i < |written| && written[i]))
            && names.Some? && |names.value| == |cmd.replacements|
  {
    var at := MarkedAre(cmd.candidates, written);
    if at != [] {
      assert written[at[0]];
    }
    if i :| 0 <= i < |written| && written[i] {
      assert i in at;
    }
  }

  /**
   What a start does to the cluster: if it goes through, exactly the candidates that were written are
   in flight under the command, and those of them the cluster knows are marked; if not, nothing is.
   */
  lemma CommitMarks(s: State, cid: CommandID, written: seq<bool>, names: Option<seq<string>>, id: string)
    requires cid in s.commands && |written| == |s.commands[cid].candidates|
    ensures var cs, t := s.commands[cid].candidates, Commit(s, cid, written, names);
            var named := exists i :: 0 <= i < |cs| && written[i] && cs[i].providerID == id;
            var launched := Launches(s.commands[cid], written, names);
            && (cid in t.active <==> launched || cid in s.active)
            && (id in t.marked <==> id in s.marked || (launched && named && id in s.nodes))
            && (id in t.inFlight <==> id in s.inFlight || (launched && named))
            && (id in t.inFlight ==> t.inFlight[id] == if launched && named then cid else s.inFlight[id])
  {
    MarkedIDs(s.commands[cid].candidates, written, id);
  }

  lemma MarkedIDs(cs: seq<Candidate>, written: seq<bool>, id: string)
    requires |written| == |cs|
    ensures id in IDs(MarkedCandidates(cs, written)) <==>
            exists i :: 0 <= i < |cs| && written[i] && cs[i].providerID == id
  {
    var marked := MarkedCandidates(cs, written);
    var at := MarkedAre(cs, written);
    if id in IDs(marked) {
      var c :| c in marked && c.providerID == id;
      var j :| 0 <= j < |marked| && marked[j] == c;
      assert written[at[j]] && cs[at[j]].providerID == id;
    }
    if i :| 0 <= i < |cs| && written[i] && cs[i].providerID == id {
      assert i in at;
      var j :| 0 <= j < |at| && at[j] == i;
      assert marked[j] in marked;
    }
  }

  // Driving a command

  /** The reply to fetching a replacement's NodeClaim. */
  datatype Reply = Missing | GetError | NotInitialized | Initialized
  datatype DeleteReply = Deleted | NotFound | DeleteError

  datatype Outcome = Requeued | Succeeded | Failed

  /** A replacement still waited for has been deleted: the command cannot recover. */
  predicate LostBy(replacements: seq<Replacement>, replies: seq<Reply>, i: nat)
    requires |replies| == |replacements| && i <= |replies|
  {
    exists k | 0 <= k < i :: !replacements[k].initialized && replies[k].Missing?
  }

  /** The replacements after a pass of waiting; nothing is recorded from the first lost one on. */
  function Waited(replacements: seq<Replacement>, replies: seq<Reply>): (r: seq<Replacement>)
    requires |replies| == |replacements|
    ensures |r| == |replacements|
  {
    seq(|replies|, i requires 0 <= i < |replies| =>
      if LostBy(replacements, replies, i) then replacements[i]
      else replacements[i].(initialized := replacements[i].initialized || replies[i].Initialized?))
  }

  predicate AllInitialized(replacements: seq<Replacement>) {
    forall i | 0 <= i < |replacements| :: replacements[i].initialized
  }

  predicate AllDeleted(replies: seq<DeleteReply>) {
    forall i | 0 <= i < |replies| :: !replies[i].DeleteError?
  }

  predicate TimedOut(s: State, cid: CommandID, now: int)
    requires cid in s.commands
  {
    now - s.commands[cid].created > MaxRetryDuration(s)
  }

  function OutcomeOf(s: State, cid: CommandID, replies: seq<Reply>, deletes: seq<DeleteReply>, now: int): Outcome
    requires cid in s.commands
    requires |replies| == |s.commands[cid].replacements| && |deletes| == |s.commands[cid].candidates|
  {
    var rs := s.commands[cid].replacements;
    if TimedOut(s, cid, now) || LostBy(rs, replies, |replies|) then Failed
    else if AllInitialized(Waited(rs, replies)) && AllDeleted(deletes) then Succeeded
    else Requeued
  }

  /** `waitOrTerminate` without its verdict: what it records and which deletes it issues. */
  function Wait(s: State, cid: CommandID, replies: seq<Reply>): State
    requires cid in s.commands && |replies| == |s.commands[cid].replacements|
  {
    var cmd := s.commands[cid];
    var rs := Waited(cmd.replacements, replies);
    s.(commands := s.commands[cid := cmd.(replacements := rs)],
       deletes := if AllInitialized(rs) then s.deletes + set id | id in IDs(cmd.candidates) :: (cid, id) else s.deletes)
  }

  function Complete(s: State, cid: CommandID): State
    requires cid in s.commands
  {
    var ids := CommandIDs(s, cid);
    s.(completed := s.completed + 1,
       marked := if s.commands[cid].succeeded then s.marked else s.marked - ids,
       inFlight := s.inFlight - ids,
       active := s.active - {cid})
  }

  function Reconcile(s: State, cid: CommandID, replies: seq<Reply>, deletes: seq<DeleteReply>, now: int): State
    requires cid in s.commands
    requires |replies| == |s.commands[cid].replacements| && |deletes| == |s.commands[cid].candidates|
  {
    var waited := Wait(s, cid, replies);
    match OutcomeOf(s, cid, replies, deletes, now)
    case Requeued => waited
    case Succeeded =>
      Complete(waited.(commands := waited.commands[cid := waited.commands[cid].(succeeded := true)]), cid)
    case Failed => Complete(waited, cid)
  }

  /** The cluster state learns of nodes and forgets others, marks included. */
  function Observe(s: State, nodes: set<string>): State {
    s.(nodes := nodes, marked := s.marked * nodes)
  }

  // Invariants

  /** `ProviderIDToCommand` maps each candidate of each unfinished command to it, and nothing else. */
  ghost predicate Exact(s: State) {
    && s.active <= s.commands.Keys
    && (forall cid, id | cid in s.active && id in CommandIDs(s, cid) :: id in s.inFlight && s.inFlight[id] == cid)
    && (forall id | id in s.inFlight :: s.inFlight[id] in s.active && id in CommandIDs(s, s.inFlight[id]))
  }

  ghost predicate Sound(s: State) {
    && (forall cid | cid in s.active ::
          cid in s.commands && s.commands[cid].candidates != [] && !s.commands[cid].succeeded)
    && (forall d | d in s.deletes ::
          d.0 in s.commands && d.0 !in s.pending && d.1 in CommandIDs(s, d.0)
          && AllInitialized(s.commands[d.0].replacements))
    && (forall cid, id | cid in s.commands && s.commands[cid].succeeded && id in CommandIDs(s, cid) ::
          (cid, id) in s.deletes)
  }

  /** Begun commands are disjoint from each other and from everything in flight. */
  ghost predicate Separate(s: State) {
    && s.pending <= s.commands.Keys && s.pending !! s.active
    && (forall cid | cid in s.pending :: s.commands[cid].candidates != [] && !s.commands[cid].succeeded)
    && (forall cid, id | cid in s.pending && id in CommandIDs(s, cid) :: id !in s.inFlight)
    && (forall a, b, id | a in s.pending && b in s.pending && id in CommandIDs(s, a) && id in CommandIDs(s, b) ::
          a == b)
  }

  /** A mark outlives its command only if the command succeeded. */
  ghost predicate Accounted(s: State) {
    && s.marked <= s.nodes
    && forall id | id in s.marked ::
         id in s.inFlight || exists cid :: cid in s.commands && s.commands[cid].succeeded && id in CommandIDs(s, cid)
  }

  ghost predicate Inv(s: State) {
    Exact(s) && Sound(s) && Separate(s) && Accounted(s)
  }

  /** What begins a command: a fresh object, candidates that pass the check, disjoint from those begun. */
  ghost predicate MayBegin(s: State, cid: CommandID, cmd: Command) {
    && cid !in s.commands && cmd.candidates != [] && !cmd.succeeded
    && !HasAny(s, IDs(cmd.candidates))
    && forall p | p in s.pending && p in s.commands :: CommandIDs(s, p) !! IDs(cmd.candidates)
  }

  lemma BeginSeparate(s: State, cid: CommandID, cmd: Command)
    requires Exact(s) && Separate(s) && MayBegin(s, cid, cmd)
    ensures Separate(Begin(s, cid, cmd))
  {
    var t := Begin(s, cid, cmd);
    assert CommandIDs(t, cid) == IDs(cmd.candidates);
    assert forall p | p in s.pending :: CommandIDs(t, p) == CommandIDs(s, p);
  }

  lemma BeginExact(s: State, cid: CommandID, cmd: Command)
    requires Exact(s) && cid !in s.commands
    ensures Exact(Begin(s, cid, cmd))
  {
    var t := Begin(s, cid, cmd);
    assert forall p | p in s.commands :: CommandIDs(t, p) == CommandIDs(s, p);
  }

  lemma BeginSound(s: State, cid: CommandID, cmd: Command)
    requires Sound(s) && cid !in s.commands && !cmd.succeeded
    ensures Sound(Begin(s, cid, cmd))
  {
    var t := Begin(s, cid, cmd);
    assert forall p | p in s.commands :: t.commands[p] == s.commands[p] && CommandIDs(t, p) == CommandIDs(s, p);
  }

  lemma BeginKeeps(s: State, cid: CommandID, cmd: Command)
    requires Inv(s) && MayBegin(s, cid, cmd)
    ensures Inv(Begin(s, cid, cmd))
  {
    BeginExact(s, cid, cmd);
    BeginSound(s, cid, cmd);
    BeginSeparate(s, cid, cmd);
    AccountedCarries(s, Begin(s, cid, cmd));
  }

  lemma CommitAborts(s: State, cid: CommandID, written: seq<bool>, names: Option<seq<string>>)
    requires Inv(s) && cid in s.pending && |written| == |s.commands[cid].candidates|
    requires !Launches(s.commands[cid], written, names)
    ensures Inv(Commit(s, cid, written, names))
  {
    var t := Commit(s, cid, written, names);
    assert forall p | p in s.commands :: CommandIDs(t, p) == CommandIDs(s, p);
  }

  lemma InsertedMap(s: State, cid: CommandID, cmd: Command)
    ensures var t := Insert(s, cid, cmd);
            && t.inFlight.Keys == s.inFlight.Keys + IDs(cmd.candidates)
            && (forall id | id in IDs(cmd.candidates) :: t.inFlight[id] == cid)
            && (forall id | id in s.inFlight && id !in IDs(cmd.candidates) :: t.inFlight[id] == s.inFlight[id])
            && CommandIDs(t, cid) == IDs(cmd.candidates)
            && (forall p | p in s.commands && p != cid ::
                  t.commands[p] == s.commands[p] && CommandIDs(t, p) == CommandIDs(s, p))
  {
  }

  /** Inserting keeps the map exact precisely when nothing in flight shares a candidate. */
  lemma InsertExactIff(s: State, cid: CommandID, cmd: Command)
    requires Exact(s) && cid !in s.active
    ensures Exact(Insert(s, cid, cmd)) <==> !HasAny(s, IDs(cmd.candidates))
  {
    if HasAny(s, IDs(cmd.candidates)) {
      OverlapBreaks(s, cid, cmd);
    } else {
      DisjointKeeps(s, cid, cmd);
    }
  }

  lemma OverlapBreaks(s: State, cid: CommandID, cmd: Command)
    requires Exact(s) && cid !in s.active && HasAny(s, IDs(cmd.candidates))
    ensures !Exact(Insert(s, cid, cmd))
  {
    var t := Insert(s, cid, cmd);
    InsertedMap(s, cid, cmd);
    var id :| id in IDs(cmd.candidates) && id in s.inFlight;
    var p := s.inFlight[id];
    assert p in t.active && id in CommandIDs(t, p) && t.inFlight[id] == cid != p;
  }

  lemma DisjointOwns(s: State, cid: CommandID, cmd: Command, p: CommandID, id: string)
    requires Exact(s) && cid !in s.active && !HasAny(s, IDs(cmd.candidates))
    requires var t := Insert(s, cid, cmd); p in t.active && id in CommandIDs(t, p)
    ensures var t := Insert(s, cid, cmd); id in t.inFlight && t.inFlight[id] == p
  {
    InsertedMap(s, cid, cmd);
    if p != cid {
      assert id in CommandIDs(s, p);
    }
  }

  lemma DisjointOwned(s: State, cid: CommandID, cmd: Command, id: string)
    requires Exact(s) && cid !in s.active && !HasAny(s, IDs(cmd.candidates))
    requires id in Insert(s, cid, cmd).inFlight
    ensures var t := Insert(s, cid, cmd); t.inFlight[id] in t.active && id in CommandIDs(t, t.inFlight[id])
  {
    InsertedMap(s, cid, cmd);
    if id !in IDs(cmd.candidates) {
      assert id in s.inFlight;
    }
  }

  lemma DisjointKeeps(s: State, cid: CommandID, cmd: Command)
    requires Exact(s) && cid !in s.active && !HasAny(s, IDs(cmd.candidates))
    ensures Exact(Insert(s, cid, cmd))
  {
    var t := Insert(s, cid, cmd);
    forall p, id | p in t.active && id in CommandIDs(t, p) ensures id in t.inFlight && t.inFlight[id] == p {
      DisjointOwns(s, cid, cmd, p, id);
    }
    forall id | id in t.inFlight ensures t.inFlight[id] in t.active && id in CommandIDs(t, t.inFlight[id]) {
      DisjointOwned(s, cid, cmd, id);
    }
  }

  /** The same for a whole start, over whatever subset of its candidates was marked. */
  lemma CommitExactIff(s: State, cid: CommandID, written: seq<bool>, names: Option<seq<string>>)
    requires Exact(s) && cid in s.pending && cid in s.commands && cid !in s.active
    requires |written| == |s.commands[cid].candidates| && Launches(s.commands[cid], written, names)
    ensures Exact(Commit(s, cid, written, names)) <==>
            !HasAny(s, IDs(MarkedCandidates(s.commands[cid].candidates, written)))
  {
    InsertExactIff(s, cid, Launched(s.commands[cid], written, names));
  }

  lemma InsertSound(s: State, cid: CommandID, cmd: Command)
    requires Sound(s) && cid in s.pending && cmd.candidates != [] && !cmd.succeeded
    ensures Sound(Insert(s, cid, cmd))
  {
    InsertedMap(s, cid, cmd);
  }

  lemma InsertSeparate(s: State, cid: CommandID, cmd: Command)
    requires Separate(s) && cid in s.pending && IDs(cmd.candidates) <= CommandIDs(s, cid)
    ensures Separate(Insert(s, cid, cmd))
  {
    InsertedMap(s, cid, cmd);
    var t := Insert(s, cid, cmd);
    assert forall p | p in t.pending :: p in s.pending && p != cid && CommandIDs(t, p) == CommandIDs(s, p);
    forall p, id | p in t.pending && id in CommandIDs(t, p) ensures id !in t.inFlight {
      assert id in CommandIDs(s, p) && id !in s.inFlight;
      assert id !in CommandIDs(s, cid);
    }
  }

  /** Marks of unfinished and of succeeded commands carry over when commands only change as stated. */
  lemma AccountedCarries(s: State, t: State)
    requires Accounted(s) && t.marked <= t.nodes
    requires forall cid | cid in s.commands && s.commands[cid].succeeded ::
               cid in t.commands && t.commands[cid] == s.commands[cid]
    requires forall id | id in t.marked :: id in t.inFlight || (id in s.marked && id !in s.inFlight)
    ensures Accounted(t)
  {
    forall id | id in t.marked && id !in t.inFlight
      ensures exists cid :: cid in t.commands && t.commands[cid].succeeded && id in CommandIDs(t, cid)
    {
      var cid :| cid in s.commands && s.commands[cid].succeeded && id in CommandIDs(s, cid);
      assert id in CommandIDs(t, cid);
    }
  }

  lemma InsertKeeps(s: State, cid: CommandID, cmd: Command)
    requires Inv(s) && cid in s.pending && cmd.candidates != [] && !cmd.succeeded
    requires IDs(cmd.candidates) <= CommandIDs(s, cid)
    ensures Inv(Insert(s, cid, cmd))
  {
    assert !HasAny(s, IDs(cmd.candidates));
    InsertExactIff(s, cid, cmd);
    InsertSound(s, cid, cmd);
    InsertSeparate(s, cid, cmd);
    InsertedMap(s, cid, cmd);
    AccountedCarries(s, Insert(s, cid, cmd));
  }

  lemma CommitKeeps(s: State, cid: CommandID, written: seq<bool>, names: Option<seq<string>>)
    requires Inv(s) && cid in s.pending && |written| == |s.commands[cid].candidates|
    ensures Inv(Commit(s, cid, written, names))
  {
    if Launches(s.commands[cid], written, names) {
      InsertKeeps(s, cid, Launched(s.commands[cid], written, names));
    } else {
      CommitAborts(s, cid, written, names);
    }
  }

  // Reconciling

  /** Waiting never takes back an initialisation. */
  lemma WaitedGrows(replacements: seq<Replacement>, replies: seq<Reply>)
    requires |replies| == |replacements|
    ensures AllInitialized(replacements) ==> Waited(replacements, replies) == replacements
  {
  }

  /** Exactness and separation depend on candidates only. */
  lemma SameCandidates(s: State, t: State)
    requires Exact(s) && Separate(s)
    requires t.inFlight == s.inFlight && t.active == s.active
             && t.pending == s.pending && t.commands.Keys == s.commands.Keys
    requires forall p | p in s.commands ::
               t.commands[p].candidates == s.commands[p].candidates
               && t.commands[p].succeeded == s.commands[p].succeeded
    ensures Exact(t) && Separate(t)
  {
    assert forall p | p in s.commands :: CommandIDs(t, p) == CommandIDs(s, p);
  }

  lemma WaitSound(s: State, cid: CommandID, replies: seq<Reply>)
    requires Sound(s) && cid in s.active && cid !in s.pending && |replies| == |s.commands[cid].replacements|
    ensures Sound(Wait(s, cid, replies))
  {
    var t := Wait(s, cid, replies);
    WaitedGrows(s.commands[cid].replacements, replies);
    assert forall p | p in s.commands :: CommandIDs(t, p) == CommandIDs(s, p);
    forall d | d in t.deletes
      ensures d.0 in t.commands && d.0 !in t.pending && d.1 in CommandIDs(t, d.0)
              && AllInitialized(t.commands[d.0].replacements)
    {
      if d in s.deletes {
        assert d.1 in CommandIDs(s, d.0);
      }
    }
  }

  lemma WaitKeeps(s: State, cid: CommandID, replies: seq<Reply>)
    requires Inv(s) && cid in s.active && |replies| == |s.commands[cid].replacements|
    ensures Inv(Wait(s, cid, replies))
  {
    var t := Wait(s, cid, replies);
    SameCandidates(s, t);
    WaitSound(s, cid, replies);
    AccountedCarries(s, t);
  }

  /** Completion removes the command's own provider IDs and no other. */
  lemma CompletionRemovesExactly(s: State, cid: CommandID)
    requires Exact(s) && cid in s.active
    ensures forall id :: id in Complete(s, cid).inFlight <==> id in s.inFlight && s.inFlight[id] != cid
    ensures forall id | id in Complete(s, cid).inFlight :: Complete(s, cid).inFlight[id] == s.inFlight[id]
    ensures Exact(Complete(s, cid))
  {
    var t := Complete(s, cid);
    assert forall p | p in s.commands :: CommandIDs(t, p) == CommandIDs(s, p);
  }

  /** A failed command is unmarked and leaves the queue; marks of other candidates stay. */
  lemma FailureKeeps(s: State, cid: CommandID)
    requires Inv(s) && cid in s.active
    ensures var t := Complete(s, cid);
            && Inv(t) && cid !in t.active && cid !in t.inFlight.Values && t.completed == s.completed + 1
            && t.marked == s.marked - CommandIDs(s, cid)
  {
    CompletionRemovesExactly(s, cid);
    var t := Complete(s, cid);
    assert forall p | p in s.commands :: CommandIDs(t, p) == CommandIDs(s, p);
    AccountedCarries(s, t);
  }

  ghost function Succeed(s: State, cid: CommandID): State
    requires cid in s.commands
  {
    s.(commands := s.commands[cid := s.commands[cid].(succeeded := true)])
  }

  lemma SuccessAccounted(s: State, cid: CommandID)
    requires Inv(s) && cid in s.active
    ensures Accounted(Complete(Succeed(s, cid), cid))
  {
    var u := Succeed(s, cid);
    var t := Complete(u, cid);
    assert forall p | p in s.commands :: CommandIDs(u, p) == CommandIDs(t, p) == CommandIDs(s, p);
    forall id | id in t.marked && id !in t.inFlight
      ensures exists p :: p in t.commands && t.commands[p].succeeded && id in CommandIDs(t, p)
    {
      if id in CommandIDs(t, cid) {
        assert t.commands[cid].succeeded;
      } else {
        var p :| p in s.commands && s.commands[p].succeeded && id in CommandIDs(s, p);
        assert t.commands[p].succeeded && id in CommandIDs(t, p);
      }
    }
  }

  lemma SuccessSound(s: State, cid: CommandID)
    requires Sound(s) && cid in s.active && forall id | id in CommandIDs(s, cid) :: (cid, id) in s.deletes
    ensures Sound(Complete(Succeed(s, cid), cid))
  {
    var t := Complete(Succeed(s, cid), cid);
    assert forall p | p in s.commands :: CommandIDs(t, p) == CommandIDs(s, p);
  }

  lemma SuccessSeparate(s: State, cid: CommandID)
    requires Separate(s) && cid in s.active && cid in s.commands
    ensures Separate(Complete(Succeed(s, cid), cid))
  {
    var t := Complete(Succeed(s, cid), cid);
    assert forall p | p in s.commands :: CommandIDs(t, p) == CommandIDs(s, p);
  }

  lemma SuccessExact(s: State, cid: CommandID)
    requires Exact(s) && cid in s.active
    ensures Exact(Complete(Succeed(s, cid), cid))
  {
    var u := Succeed(s, cid);
    assert forall p | p in s.commands :: CommandIDs(u, p) == CommandIDs(s, p);
    CompletionRemovesExactly(u, cid);
  }

  lemma SuccessKeeps(s: State, cid: CommandID)
    requires Inv(s) && cid in s.active
    requires forall id | id in CommandIDs(s, cid) :: (cid, id) in s.deletes
    ensures Inv(Complete(Succeed(s, cid), cid))
  {
    SuccessExact(s, cid);
    SuccessSound(s, cid);
    SuccessSeparate(s, cid);
    SuccessAccounted(s, cid);
  }

  lemma ReconcileKeeps(s: State, cid: CommandID, replies: seq<Reply>, deletes: seq<DeleteReply>, now: int)
    requires Inv(s) && cid in s.active
    requires |replies| == |s.commands[cid].replacements| && |deletes| == |s.commands[cid].candidates|
    ensures Inv(Reconcile(s, cid, replies, deletes, now))
  {
    WaitKeeps(s, cid, replies);
    var w := Wait(s, cid, replies);
    match OutcomeOf(s, cid, replies, deletes, now)
    case Requeued =>
    case Succeeded => SuccessKeeps(w, cid);
    case Failed => FailureKeeps(w, cid);
  }

  /** The deadline for n candidates in flight, in milliseconds: ten minutes to an hour. */
  ghost function Deadline(n: nat): int {
    if n <= 7500 then 600000 else if n <= 45000 then 80 * n else 3600000
  }

  /** The command is over: out of the queue, counted, and unmarked unless it succeeded. */
  ghost predicate Ended(s: State, t: State, cid: CommandID, success: bool) {
    && cid in s.commands && cid in t.commands && t.commands[cid].succeeded == success
    && t.active == s.active - {cid} && cid !in t.inFlight.Values && t.completed == s.completed + 1
    && t.marked == if success then s.marked else s.marked - CommandIDs(s, cid)
  }

  ghost predicate Continues(s: State, t: State, cid: CommandID) {
    && cid in t.commands && !t.commands[cid].succeeded && t.active == s.active && t.inFlight == s.inFlight
    && t.completed == s.completed && t.marked == s.marked
  }

  ghost predicate SomeLost(replacements: seq<Replacement>, replies: seq<Reply>)
    requires |replies| == |replacements|
  {
    exists i :: 0 <= i < |replies| && !replacements[i].initialized && replies[i] == Missing
  }

  ghost predicate AllReady(replacements: seq<Replacement>, replies: seq<Reply>)
    requires |replies| == |replacements|
  {
    forall i | 0 <= i < |replies| :: replacements[i].initialized || replies[i] == Initialized
  }

  lemma WaitedAt(replacements: seq<Replacement>, replies: seq<Reply>, i: nat)
    requires i < |replies| == |replacements|
    ensures var r := Waited(replacements, replies)[i];
            && r.name == replacements[i].name
            && (r.initialized ==> replacements[i].initialized || replies[i] == Initialized)
            && (replacements[i].initialized ==> r.initialized)
            && (!SomeLost(replacements, replies) && replies[i] == Initialized ==> r.initialized)
  {
  }

  lemma ReadyNotLost(replacements: seq<Replacement>, replies: seq<Reply>)
    requires |replies| == |replacements| && AllReady(replacements, replies)
    ensures !SomeLost(replacements, replies)
  {
  }

  lemma WaitedIs(replacements: seq<Replacement>, replies: seq<Reply>)
    requires |replies| == |replacements|
    ensures LostBy(replacements, replies, |replies|) <==> SomeLost(replacements, replies)
    ensures AllInitialized(Waited(replacements, replies)) <==> AllReady(replacements, replies)
  {
    forall i: nat | i < |replies|
      ensures Waited(replacements, replies)[i].initialized ==> replacements[i].initialized || replies[i] == Initialized
      ensures AllReady(replacements, replies) ==> Waited(replacements, replies)[i].initialized
    {
      WaitedAt(replacements, replies, i);
      if AllReady(replacements, replies) {
        ReadyNotLost(replacements, replies);
      }
    }
  }

  ghost predicate Fails(s: State, cid: CommandID, replies: seq<Reply>, now: int)
    requires cid in s.commands && |replies| == |s.commands[cid].replacements|
  {
    now - s.commands[cid].created > Deadline(|s.inFlight|) || SomeLost(s.commands[cid].replacements, replies)
  }

  ghost predicate AllGone(deletes: seq<DeleteReply>) {
    forall i | 0 <= i < |deletes| :: deletes[i] != DeleteError
  }

  lemma OutcomeIs(s: State, cid: CommandID, replies: seq<Reply>, deletes: seq<DeleteReply>, now: int)
    requires cid in s.commands
    requires |replies| == |s.commands[cid].replacements| && |deletes| == |s.commands[cid].candidates|
    ensures OutcomeOf(s, cid, replies, deletes, now) ==
            if Fails(s, cid, replies, now) then Failed
            else if AllReady(s.commands[cid].replacements, replies) && AllGone(deletes) then Succeeded
            else Requeued
  {
    WaitedIs(s.commands[cid].replacements, replies);
  }

  /**
   How a reconcile ends, in terms of the clock and the replies alone: past the deadline or with a lost
   replacement the command fails; otherwise it succeeds once every replacement is ready and every
   delete went through, and goes on until then.
   */
  lemma ReconcileDecides(s: State, cid: CommandID, replies: seq<Reply>, deletes: seq<DeleteReply>, now: int)
    requires Inv(s) && cid in s.active
    requires |replies| == |s.commands[cid].replacements| && |deletes| == |s.commands[cid].candidates|
    ensures var t := Reconcile(s, cid, replies, deletes, now);
            if Fails(s, cid, replies, now) then Ended(s, t, cid, false)
            else if AllReady(s.commands[cid].replacements, replies) && AllGone(deletes) then Ended(s, t, cid, true)
            else Continues(s, t, cid)
  {
    OutcomeIs(s, cid, replies, deletes, now);
    WaitKeeps(s, cid, replies);
    WaitLeaves(s, cid, replies);
    FailureEnds(Wait(s, cid, replies), cid);
    SuccessEnds(Wait(s, cid, replies), cid);
  }

  lemma WaitLeaves(s: State, cid: CommandID, replies: seq<Reply>)
    requires cid in s.commands && |replies| == |s.commands[cid].replacements|
    ensures var w := Wait(s, cid, replies);
            && w.active == s.active && w.inFlight == s.inFlight && w.completed == s.completed && w.marked == s.marked
            && CommandIDs(w, cid) == CommandIDs(s, cid)
            && w.commands[cid].succeeded == s.commands[cid].succeeded
  {
  }

  lemma FailureEnds(s: State, cid: CommandID)
    requires Inv(s) && cid in s.active
    ensures Ended(s, Complete(s, cid), cid, false)
  {
    FailureKeeps(s, cid);
  }

  lemma SuccessEnds(s: State, cid: CommandID)
    requires Inv(s) && cid in s.active
    ensures Ended(s, Complete(Succeed(s, cid), cid), cid, true)
  {
    SuccessLeaves(s, cid);
  }

  lemma SuccessLeaves(s: State, cid: CommandID)
    requires Exact(s) && cid in s.active
    ensures cid !in Complete(Succeed(s, cid), cid).inFlight.Values
  {
    var u := Succeed(s, cid);
    assert forall p | p in s.commands :: CommandIDs(u, p) == CommandIDs(s, p);
    CompletionRemovesExactly(u, cid);
  }

  /** Deletes are issued for all candidates of the command once its replacements are ready, and for no other. */
  lemma ReconcileDeletes(s: State, cid: CommandID, replies: seq<Reply>, deletes: seq<DeleteReply>, now: int)
    requires cid in s.commands
    requires |replies| == |s.commands[cid].replacements| && |deletes| == |s.commands[cid].candidates|
    ensures var t := Reconcile(s, cid, replies, deletes, now);
            forall p, id :: (p, id) in t.deletes <==>
                            (p, id) in s.deletes
                            || (p == cid && id in CommandIDs(s, cid) && AllReady(s.commands[cid].replacements, replies))
  {
    WaitedIs(s.commands[cid].replacements, replies);
  }

  // Whole runs

  datatype Event =
    | BeginEvent(cid: CommandID, cmd: Command)
    | CommitEvent(cid: CommandID, written: seq<bool>, names: Option<seq<string>>)
    | ReconcileEvent(cid: CommandID, replies: seq<Reply>, deletes: seq<DeleteReply>, now: int)
    | ObserveEvent(nodes: set<string>)

  ghost predicate Enabled(s: State, e: Event) {
    match e
    case BeginEvent(cid, cmd) => MayBegin(s, cid, cmd)
    case CommitEvent(cid, written, _) =>
      cid in s.pending && cid in s.commands && |written| == |s.commands[cid].candidates|
    case ReconcileEvent(cid, replies, deletes, _) =>
      && cid in s.inFlight.Values && cid in s.commands
      && |replies| == |s.commands[cid].replacements| && |deletes| == |s.commands[cid].candidates|
    case ObserveEvent(_) => true
  }

  ghost function Next(s: State, e: Event): State
    requires Enabled(s, e)
  {
    match e
    case BeginEvent(cid, cmd) => Begin(s, cid, cmd)
    case CommitEvent(cid, written, names) => Commit(s, cid, written, names)
    case ReconcileEvent(cid, replies, deletes, now) => Reconcile(s, cid, replies, deletes, now)
    case ObserveEvent(nodes) => Observe(s, nodes)
  }

  const INITIAL: State := State(map[], map[], {}, {}, 0, {}, {}, {})

  /** A run of the queue from start-up: any interleaving of starts, reconciles and cluster changes. */
  ghost predicate Run(states: seq<State>, events: seq<Event>) {
    && |states| == |events| + 1 && states[0] == INITIAL
    && forall i | 0 <= i < |events| :: Enabled(states[i], events[i]) && states[i + 1] == Next(states[i], events[i])
  }

  lemma NextKeeps(s: State, e: Event)
    requires Inv(s) && Enabled(s, e)
    ensures Inv(Next(s, e))
  {
    match e
    case BeginEvent(cid, cmd) => BeginKeeps(s, cid, cmd);
    case CommitEvent(cid, written, names) => CommitKeeps(s, cid, written, names);
    case ReconcileEvent(cid, replies, deletes, now) => ReconcileKeeps(s, cid, replies, deletes, now);
    case ObserveEvent(nodes) =>
      var t := Observe(s, nodes);
      assert forall p | p in s.commands :: CommandIDs(t, p) == CommandIDs(s, p);
      AccountedCarries(s, t);
  }

  /**
   Safety over every run whose concurrently begun commands are disjoint: the provider-ID map is
   exact, commands in flight are non-empty and unfinished, a candidate is deleted only once all of
   its command's replacements are initialised, a succeeded command has deleted all of its
   candidates, and no failed command leaves a mark behind.
   */
  lemma {:induction false} RunSafe(states: seq<State>, events: seq<Event>, i: nat)
    requires Run(states, events) && i < |states|
    ensures Inv(states[i])
  {
    if i > 0 {
      RunSafe(states, events, i - 1);
      NextKeeps(states[i - 1], events[i - 1]);
    }
  }

  /** The event is a reconcile that was told that replacement i of the command is initialised. */
  ghost predicate Answers(e: Event, cid: CommandID, i: nat) {
    e.ReconcileEvent? && e.cid == cid && i < |e.replies| && e.replies[i] == Initialized
  }

  /** A step keeps the names of a started command's replacements, and initialises only those it was told of. */
  lemma StepKeepsNames(s: State, e: Event, cid: CommandID)
    requires Enabled(s, e) && cid in s.commands && cid !in s.pending
    ensures var t := Next(s, e);
            && cid in t.commands && cid !in t.pending
            && |t.commands[cid].replacements| == |s.commands[cid].replacements|
            && forall i: nat | i < |s.commands[cid].replacements| ::
                 && t.commands[cid].replacements[i].name == s.commands[cid].replacements[i].name
                 && (t.commands[cid].replacements[i].initialized ==>
                     s.commands[cid].replacements[i].initialized || Answers(e, cid, i))
  {
    if e.ReconcileEvent? && e.cid == cid {
      forall i: nat | i < |e.replies| {
        WaitedAt(s.commands[cid].replacements, e.replies, i);
      }
    }
  }

  /** Event k starts command cid, and the claims that were created for it have these names. */
  ghost predicate StartsWith(states: seq<State>, events: seq<Event>, k: nat, cid: CommandID, names: seq<string>) {
    && k < |events| < |states| && events[k].CommitEvent? && events[k].cid == cid && events[k].names == Some(names)
    && cid in states[k].commands && |events[k].written| == |states[k].commands[cid].candidates|
    && Launches(states[k].commands[cid], events[k].written, Some(names))
  }

  /** From then on the queue waits for these claims, one by one until it has seen them initialised. */
  ghost predicate WaitsFor(states: seq<State>, events: seq<Event>, k: nat, n: nat, cid: CommandID, names: seq<string>)
    requires n < |states| == |events| + 1
  {
    && cid in states[n].commands && cid !in states[n].pending && |states[n].commands[cid].replacements| == |names|
    && forall i: nat | i < |names| ::
         && states[n].commands[cid].replacements[i].name == names[i]
         && (states[n].commands[cid].replacements[i].initialized ==>
             BegunReady(states, k, cid, i) || exists m: nat :: k < m < n && Answers(events[m], cid, i))
  }

  /** The replacement came with the command already initialised. */
  ghost predicate BegunReady(states: seq<State>, k: nat, cid: CommandID, i: nat) {
    && k < |states| && cid in states[k].commands && i < |states[k].commands[cid].replacements|
    && states[k].commands[cid].replacements[i].initialized
  }

  lemma WaitsFirst(states: seq<State>, events: seq<Event>, k: nat, cid: CommandID, names: seq<string>)
    requires Run(states, events) && StartsWith(states, events, k, cid, names)
    ensures WaitsFor(states, events, k, k + 1, cid, names)
  {
    assert states[k + 1] == Next(states[k], events[k]);
    var cmd := Launched(states[k].commands[cid], events[k].written, Some(names));
    assert states[k + 1].commands[cid] == cmd;
  }

  lemma WaitsNext(states: seq<State>, events: seq<Event>, k: nat, n: nat, cid: CommandID, names: seq<string>)
    requires Run(states, events) && k < n < |events| && WaitsFor(states, events, k, n, cid, names)
    ensures WaitsFor(states, events, k, n + 1, cid, names)
  {
    assert Enabled(states[n], events[n]) && states[n + 1] == Next(states[n], events[n]);
    StepKeepsNames(states[n], events[n], cid);
  }

  lemma {:induction false} WaitsForNames(states: seq<State>, events: seq<Event>, k: nat, n: nat, cid: CommandID,
                                         names: seq<string>)
    requires Run(states, events) && StartsWith(states, events, k, cid, names) && k < n < |states|
    ensures WaitsFor(states, events, k, n, cid, names)
  {
    if n == k + 1 {
      WaitsFirst(states, events, k, cid, names);
    } else {
      WaitsForNames(states, events, k, n - 1, cid, names);
      WaitsNext(states, events, k, n - 1, cid, names);
    }
  }

  /**
   In every run, a candidate of a command is deleted only after each of the claims created for it was
   found initialised by a reconcile that asked for it by name.
   */
  lemma DeletedAfterReady(states: seq<State>, events: seq<Event>, k: nat, n: nat, cid: CommandID, names: seq<string>,
                          id: string, i: nat)
    requires Run(states, events) && StartsWith(states, events, k, cid, names) && k < n < |states|
    requires (cid, id) in states[n].deletes && i < |names|
    ensures BegunReady(states, k, cid, i) ||
            exists m: nat :: k < m < n && Answers(events[m], cid, i) && WaitsFor(states, events, k, m, cid, names)
  {
    RunSafe(states, events, n);
    WaitsForNames(states, events, k, n, cid, names);
    assert states[n].commands[cid].replacements[i].initialized;
    if !BegunReady(states, k, cid, i) {
      var m: nat :| k < m < n && Answers(events[m], cid, i);
      WaitsForNames(states, events, k, m, cid, names);
    }
  }

  /** Two unfinished commands never share a candidate. */
  lemma ActiveDisjoint(s: State, a: CommandID, b: CommandID)
    requires Inv(s) && a in s.active && b in s.active && a != b
    ensures CommandIDs(s, a) !! CommandIDs(s, b)
  {
    assert forall id | id in CommandIDs(s, a) :: id in s.inFlight && s.inFlight[id] == a;
    assert forall id | id in CommandIDs(s, b) :: s.inFlight[id] == b;
  }

  /** A reconcile more than an hour after creation ends the command, unsuccessfully, and unmarks it. */
  lemma TimeoutCompletes(s: State, cid: CommandID, replies: seq<Reply>, deletes: seq<DeleteReply>, now: int)
    requires Inv(s) && cid in s.active
    requires |replies| == |s.commands[cid].replacements| && |deletes| == |s.commands[cid].candidates|
    requires now - s.commands[cid].created > MAX_RETRY_DURATION
    ensures var t := Reconcile(s, cid, replies, deletes, now);
            && cid !in t.active && cid !in t.inFlight.Values
            && !t.commands[cid].succeeded && CommandIDs(s, cid) !! t.marked
            && t.completed == s.completed + 1
  {
    WaitKeeps(s, cid, replies);
    CompletionRemovesExactly(Wait(s, cid, replies), cid);
  }

  /** A reconcile within ten minutes of creation ends the command only with a lost replacement or in success. */
  lemma NoEarlyTimeout(s: State, cid: CommandID, replies: seq<Reply>, deletes: seq<DeleteReply>, now: int)
    requires Inv(s) && cid in s.active
    requires |replies| == |s.commands[cid].replacements| && |deletes| == |s.commands[cid].candidates|
    requires now - s.commands[cid].created <= MIN_RETRY_DURATION
    ensures var t := Reconcile(s, cid, replies, deletes, now);
            && (t.commands[cid].succeeded <==>
                  AllInitialized(Waited(s.commands[cid].replacements, replies)) && AllDeleted(deletes)
                  && !LostBy(s.commands[cid].replacements, replies, |replies|))
            && (cid !in t.active ==>
                t.commands[cid].succeeded || LostBy(s.commands[cid].replacements, replies, |replies|))
  {
  }

  // What the code does not promise

  /** A deletion of one node, without replacements. */
  function Deletion(c: Candidate): Command {
    Command(0, [c], [], false)
  }

  lemma DeletionCommits(s: State, cid: CommandID, c: Candidate)
    requires cid in s.commands && s.commands[cid] == Deletion(c)
    ensures Commit(s, cid, [true], Some([])) == Insert(s, cid, Deletion(c))
  {
    assert MarkedCandidates([c], [true]) == [c] && Named([], []) == [];
    assert Launched(Deletion(c), [true], Some([])) == Deletion(c);
  }

  lemma OneID(c: Candidate)
    ensures IDs([c]) == {c.providerID}
  {
    assert [c][0] in [c];
  }

  /**
   Without disjointness the map is not exact: two commands that share a candidate both pass the
   overlap check before either is inserted, and one of them is lost from the map.
   */
  lemma OverlapLosesCommand(c: Candidate)
    ensures var cmd := Deletion(c);
            var s := Begin(Begin(INITIAL, 1, cmd), 2, cmd);
            && !HasAny(Begin(INITIAL, 1, cmd), IDs(cmd.candidates))
            && var t := Commit(Commit(s, 1, [true], Some([])), 2, [true], Some([]));
            1 in t.active && 1 !in t.inFlight.Values && !Exact(t)
  {
    var cmd := Deletion(c);
    var s := Begin(Begin(INITIAL, 1, cmd), 2, cmd);
    DeletionCommits(s, 1, c);
    var u := Insert(s, 1, cmd);
    DeletionCommits(u, 2, c);
    OneID(c);
    SecondInsertWins(s, cmd, c.providerID);
  }

  lemma SecondInsertWins(s: State, cmd: Command, id: string)
    requires s.inFlight == map[] && s.active == {} && IDs(cmd.candidates) == {id}
    ensures var t := Insert(Insert(s, 1, cmd), 2, cmd);
            1 in t.active && 1 !in t.inFlight.Values && !Exact(t)
  {
    var u := Insert(s, 1, cmd);
    InsertedMap(s, 1, cmd);
    InsertedMap(u, 2, cmd);
    var t := Insert(u, 2, cmd);
    assert id in CommandIDs(t, 1) && t.inFlight.Keys == {id} && t.inFlight[id] == 2;
  }

  /**
   The deadline also overrides success: a command whose replacements are ready and whose deletes all
   went through succeeds only if it was reconciled in time, though its candidates are gone either way.
   */
  lemma DeadlineOverridesSuccess(s: State, cid: CommandID, replies: seq<Reply>, deletes: seq<DeleteReply>, now: int)
    requires Inv(s) && cid in s.active
    requires |replies| == |s.commands[cid].replacements| && |deletes| == |s.commands[cid].candidates|
    requires AllInitialized(Waited(s.commands[cid].replacements, replies)) && AllDeleted(deletes)
    requires !LostBy(s.commands[cid].replacements, replies, |replies|)
    ensures var t := Reconcile(s, cid, replies, deletes, now);
            && (forall id | id in CommandIDs(s, cid) :: (cid, id) in t.deletes)
            && (t.commands[cid].succeeded <==> !TimedOut(s, cid, now))
            && cid !in t.active
  {
    var w := Wait(s, cid, replies);
    assert CommandIDs(w, cid) == CommandIDs(s, cid);
  }
}
