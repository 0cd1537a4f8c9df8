/** The mailboxes of a connection: one for each request, filled by the task that reads the
    network and emptied by the coroutines that wait for answers. Between awaits nothing else runs,
    so that each step below is atomic. */
module Connection {

  /** A response operation. The cookie of a finished search is empty when there is no paging control. */
  datatype Op = Entry(text: string) | Reference | Done(success: bool, cookie: seq<int>)

  datatype Message = Message(id: nat, op: Op)

  /** What a mailbox holds: a message, or the exception that ended the reading task. */
  datatype Mail = Got(message: Message) | Broken

  /** The fields of the connection: running is whether the status is RUNNING, which it is as long
      as the reading task runs, and failed is whether lasterror is set. */
  datatype State = State(messageId: nat, table: map<nat, seq<Mail>>, notify: map<nat, bool>, running: bool,
      failed: bool)

  const START := State(0, map[], map[], true, false)

  function At(m: map<nat, seq<Mail>>, id: nat): seq<Mail> { if id in m then m[id] else [] }

  function Box(s: State, id: nat): seq<Mail> { At(s.table, id) }

  /** A coroutine that waits for the id may go on. */
  predicate Woken(s: State, id: nat) { id in s.notify && s.notify[id] }

  // -------------------------------------------------- steps

  datatype Step =
    | Take                            // send_message takes the next id
    | Register(id: nat)               // and makes its event; then it writes
    | Arrive(messages: seq<Message>)  // the reading task files the messages of a packet
    | Receive(id: nat)                // a woken coroutine takes what is in its mailbox
    | Break                           // the reading task ends with an exception
    | Cancel                          // the reading task is cancelled

  function Mails(ms: seq<Message>): (r: seq<Mail>)
    ensures |r| == |ms|
  {
    seq(|ms|, k requires 0 <= k < |ms| => Got(ms[k]))
  }

  predicate Enabled(s: State, step: Step) {
    match step
    case Take => true
    case Register(id) => id < s.messageId
    case Arrive(ms) => s.running && ms != []
    case Receive(id) => Woken(s, id) && id in s.table
    case Break => s.running
    case Cancel => s.running
  }

  function Next(s: State, step: Step): State
    requires Enabled(s, step)
  {
    match step
    case Take => s.(messageId := s.messageId + 1)
    case Register(id) => s.(notify := s.notify[id := false])
    case Arrive(ms) =>
      var id := ms[0].id;
      s.(table := s.table[id := Box(s, id) + Mails(ms)], notify := s.notify[id := true])
    case Receive(id) => s.(table := s.table[id := []], notify := s.notify[id := false])
    case Break =>
      s.(table := map id | id in s.table.Keys + s.notify.Keys :: if id in s.notify then [Broken] else s.table[id],
         notify := map id | id in s.notify :: true, running := false, failed := true)
    case Cancel => s.(running := false)
  }

  /** What the exception handler leaves. */
  lemma AllTold(s: State, table: map<nat, seq<Mail>>, notify: map<nat, bool>)
    requires s.running && notify.Keys == s.notify.Keys && table.Keys == s.table.Keys + s.notify.Keys
    requires forall id | id in notify :: notify[id]
    requires forall id | id in table :: table[id] == if id in s.notify then [Broken] else s.table[id]
    ensures Next(s, Break) == State(s.messageId, table, notify, false, true)
  {}

  // -------------------------------------------------- the class

  class MSLDAPClientConnection {
    var messageId: nat
    var messageTable: map<nat, seq<Mail>>
    var messageTableNotify: map<nat, bool>
    var running: bool
    var failed: bool

    constructor ()
      ensures Abstract() == START
    {
      messageId, messageTable, messageTableNotify, running, failed := 0, map[], map[], true, false;
    }

    function Abstract(): State
      reads this
    {
      State(messageId, messageTable, messageTableNotify, running, failed)
    }

    /** send_message up to the write, when nothing has to be encrypted first. */
    method SendMessage() returns (id: nat)
      modifies this
      ensures id == old(messageId)
      ensures Abstract() == Next(Next(old(Abstract()), Take), Register(id))
    {
      id := messageId;
      messageId := messageId + 1;
      messageTableNotify := messageTableNotify[id := false];
    }

    /** The end of __handle_incoming's loop body. */
    method File(messages: seq<Message>)
      requires running && messages != []
      modifies this
      ensures Abstract() == Next(old(Abstract()), Arrive(messages))
    {
      var id := messages[0].id;
      if id !in messageTable {
        messageTable := messageTable[id := []];
      }
      messageTable := messageTable[id := messageTable[id] + Mails(messages)];
      messageTableNotify := messageTableNotify[id := true];
    }

    /** recv_message, called for an id without an event or resumed after its wait. */
    method ReceiveMessage(id: nat) returns (found: bool, messages: seq<Mail>)
      requires id in messageTableNotify ==> Woken(Abstract(), id) && id in messageTable
      modifies this
      ensures found == (id in old(messageTableNotify))
      ensures !found ==> Abstract() == old(Abstract()) && messages == []
      ensures found ==> messages == Box(old(Abstract()), id) && Abstract() == Next(old(Abstract()), Receive(id))
    {
      found, messages := id in messageTableNotify, [];
      if !found {
        return;
      }
      messages := messageTable[id];
      messageTable := messageTable[id := []];
      messageTableNotify := messageTableNotify[id := false];
    }

    /** The exception handler of __handle_incoming. */
    method Fail()
      requires running
      modifies this
      ensures Abstract() == Next(old(Abstract()), Break)
    {
      hide Box, At, Next;
      var ids := messageTableNotify.Keys;
      var was := messageTable;
      ghost var notify := messageTableNotify;
      ghost var done: set<nat> := {};
      while ids != {}
        invariant ids + done == notify.Keys && ids !! done
        invariant messageTableNotify.Keys == notify.Keys
        invariant forall id | id in notify :: messageTableNotify[id] == (id in done || notify[id])
        invariant messageTable.Keys == was.Keys + done
        invariant forall id | id in messageTable :: messageTable[id] == if id in done then [Broken] else was[id]
        invariant messageId == old(messageId)
        decreases ids
      {
        var id :| id in ids;
        messageTable := messageTable[id := [Broken]];
        messageTableNotify := messageTableNotify[id := true];
        ids, done := ids - {id}, done + {id};
      }
      running, failed := false, true;
      assert done == notify.Keys;
      AllTold(old(Abstract()), messageTable, messageTableNotify);
    }
  }

  // -------------------------------------------------- histories

  /** A state with what has arrived for each id, and what its coroutines have received. */
  datatype World = World(s: State, arrived: map<nat, seq<Mail>>, delivered: map<nat, seq<Mail>>)

  const BEGINNING := World(START, map[], map[])

  /** The messages that are for an id. */
  function For(ms: seq<Message>, id: nat): seq<Mail> {
    if ms == [] then [] else (if ms[0].id == id then [Got(ms[0])] else []) + For(ms[1..], id)
  }

  function After(w: World, step: Step): World
    requires Enabled(w.s, step)
  {
    var s := Next(w.s, step);
    match step
    case Arrive(ms) =>
      World(s, map id | id in w.arrived.Keys + Ids(ms) :: At(w.arrived, id) + For(ms, id), w.delivered)
    case Receive(id) => World(s, w.arrived, w.delivered[id := At(w.delivered, id) + Box(w.s, id)])
    case _ => w.(s := s)
  }

  function Ids(ms: seq<Message>): set<nat> { set k | 0 <= k < |ms| :: ms[k].id }

  /** Mailbox safety: nothing is lost, doubled, reordered or given to another, and a flag is set
      exactly when there is something to take. */
  ghost predicate Sound(w: World) {
    && (forall id: nat :: At(w.delivered, id) + Box(w.s, id) == At(w.arrived, id))
    && (forall id: nat :: Woken(w.s, id) <==> Box(w.s, id) != [])
  }

  /** One packet for one request. */
  predicate Uniform(ms: seq<Message>) { forall k | 0 <= k < |ms| :: ms[k].id == ms[0].id }

  lemma {:induction false} ForUniform(ms: seq<Message>, id: nat, own: nat)
    requires forall k | 0 <= k < |ms| :: ms[k].id == own
    ensures For(ms, id) == if id == own then Mails(ms) else []
  {
    if ms != [] {
      ForUniform(ms[1..], id, own);
      if id == own { assert Mails(ms) == [Got(ms[0])] + Mails(ms[1..]); }
    }
  }

  lemma {:induction false} ForOthers(ms: seq<Message>, own: nat)
    ensures |For(ms, own)| <= |ms|
    ensures (forall k | 0 <= k < |ms| :: ms[k].id == own) <==> |For(ms, own)| == |ms|
  {
    if ms != [] {
      ForOthers(ms[1..], own);
      assert forall k | 0 < k < |ms| :: ms[k] == ms[1..][k - 1];
    }
  }

  /** What each step needs so as to keep mailboxes safe. */
  predicate Fine(w: World, step: Step) {
    match step
    case Register(id) => Box(w.s, id) == []
    case Arrive(ms) => Uniform(ms)
    case Break => false
    case _ => true
  }

  /** What an arrival leaves of one id. */
  lemma ArrivalAt(w: World, ms: seq<Message>, id: nat)
    requires Enabled(w.s, Arrive(ms))
    ensures var w' := After(w, Arrive(ms));
            && At(w'.delivered, id) == At(w.delivered, id)
            && Box(w'.s, id) == (if id == ms[0].id then Box(w.s, id) + Mails(ms) else Box(w.s, id))
            && Woken(w'.s, id) == (id == ms[0].id || Woken(w.s, id))
            && At(w'.arrived, id) == At(w.arrived, id) + For(ms, id)
  {
    hide Mails;
    ForAbsent(ms, id);
  }

  lemma {:induction false} ForAbsent(ms: seq<Message>, id: nat)
    ensures id !in Ids(ms) ==> For(ms, id) == []
  {
    if ms != [] {
      ForAbsent(ms[1..], id);
      assert Ids(ms) == {ms[0].id} + Ids(ms[1..]);
    }
  }

  lemma SoundArrival(w: World, ms: seq<Message>)
    requires Sound(w) && Enabled(w.s, Arrive(ms))
    ensures Sound(After(w, Arrive(ms))) <==> Uniform(ms)
  {
    if Uniform(ms) {
      UniformArrival(w, ms);
    } else {
      MixedArrival(w, ms);
    }
  }

  lemma UniformArrival(w: World, ms: seq<Message>)
    requires Sound(w) && Enabled(w.s, Arrive(ms)) && Uniform(ms)
    ensures Sound(After(w, Arrive(ms)))
  {
    hide For, Mails, After, Box, At, Woken;
    var w' := After(w, Arrive(ms));
    forall id: nat
      ensures At(w'.delivered, id) + Box(w'.s, id) == At(w'.arrived, id)
      ensures Woken(w'.s, id) <==> Box(w'.s, id) != []
    {
      ArrivalAt(w, ms, id);
      ForUniform(ms, id, ms[0].id);
      assert At(w.delivered, id) + (Box(w.s, id) + Mails(ms)) == At(w.delivered, id) + Box(w.s, id) + Mails(ms);
      assert At(w.arrived, id) + [] == At(w.arrived, id);
    }
  }

  lemma MixedArrival(w: World, ms: seq<Message>)
    requires Sound(w) && Enabled(w.s, Arrive(ms)) && !Uniform(ms)
    ensures !Sound(After(w, Arrive(ms)))
  {
    hide For, Mails, After, Box, At, Woken;
    var own, w' := ms[0].id, After(w, Arrive(ms));
    ArrivalAt(w, ms, own);
    ForOthers(ms, own);
    assert |At(w'.arrived, own)| < |At(w'.delivered, own) + Box(w'.s, own)|;
  }

  /** Short of a failure, a step keeps mailboxes safe if and only if: a new event is made only for
      an id whose mailbox is empty, and all messages of a packet are for one request. */
  lemma SoundExactly(w: World, step: Step)
    requires Sound(w) && Enabled(w.s, step) && step != Break
    ensures Sound(After(w, step)) <==> Fine(w, step)
  {
    hide For, Mails;
    match step {
      case Arrive(ms) => SoundArrival(w, ms);
      case Receive(id) => SoundReceive(w, id);
      case Register(id) => SoundRegister(w, id);
      case Take => SameBoxes(w, After(w, step));
      case Cancel => SameBoxes(w, After(w, step));
      case Break =>
    }
  }

  lemma SameBoxes(w: World, w': World)
    requires Sound(w) && w'.s.table == w.s.table && w'.s.notify == w.s.notify
    requires w'.arrived == w.arrived && w'.delivered == w.delivered
    ensures Sound(w')
  {
    assert forall id: nat :: Box(w'.s, id) == Box(w.s, id) && Woken(w'.s, id) == Woken(w.s, id);
  }

  lemma SoundRegister(w: World, own: nat)
    requires Sound(w) && Enabled(w.s, Register(own))
    ensures Sound(After(w, Register(own))) <==> Box(w.s, own) == []
  {
    var w' := After(w, Register(own));
    assert !Woken(w'.s, own);
    assert forall id: nat :: Box(w'.s, id) == Box(w.s, id);
    assert forall id: nat :: id != own ==> Woken(w'.s, id) == Woken(w.s, id);
  }

  lemma SoundReceive(w: World, own: nat)
    requires Sound(w) && Enabled(w.s, Receive(own))
    ensures Sound(After(w, Receive(own)))
  {
    var w' := After(w, Receive(own));
    forall id: nat ensures At(w'.delivered, id) + Box(w'.s, id) == At(w'.arrived, id) {
      assert At(w.delivered, own) + Box(w.s, own) + [] == At(w.delivered, own) + Box(w.s, own);
    }
  }

  // -------------------------------------------------- whole runs

  predicate Runs(w: World, steps: seq<Step>)
    decreases |steps|
  {
    steps == [] || (Enabled(w.s, steps[0]) && Runs(After(w, steps[0]), steps[1..]))
  }

  function Final(w: World, steps: seq<Step>): World
    requires Runs(w, steps)
    decreases |steps|
  {
    if steps == [] then w else Final(After(w, steps[0]), steps[1..])
  }

  /** The server answers only requests that were sent, each packet one of them; every id taken is
      registered once, by the coroutine that took it. pending holds the ids taken and not yet
      registered. */
  predicate Polite(w: World, pending: set<nat>, steps: seq<Step>)
    requires Runs(w, steps)
    decreases |steps|
  {
    steps == [] ||
    (&& PoliteStep(w, pending, steps[0])
     && Polite(After(w, steps[0]), PendingAfter(w, pending, steps[0]), steps[1..]))
  }

  predicate PoliteStep(w: World, pending: set<nat>, step: Step) {
    && (step.Arrive? && step.messages != [] ==> Uniform(step.messages) && step.messages[0].id in w.s.notify)
    && (step.Register? ==> step.id in pending)
  }

  function PendingAfter(w: World, pending: set<nat>, step: Step): set<nat> {
    match step
    case Take => pending + {w.s.messageId}
    case Register(id) => pending - {id}
    case _ => pending
  }

  /** Ids are taken in order: each is either registered or pending, never both, and never again. */
  ghost predicate Ordered(w: World, pending: set<nat>) {
    && (forall id: nat :: id < w.s.messageId <==> id in w.s.notify || id in pending)
    && (forall id | id in pending :: id !in w.s.notify)
    && w.s.table.Keys <= w.s.notify.Keys
  }

  /** Mailboxes after a failure: the exception is all that can be in one, on top of the first
      messages for it. */
  ghost predicate Spoiled(w: World) {
    forall id: nat ::
      && (Woken(w.s, id) <==> Box(w.s, id) != [])
      && (Box(w.s, id) != [] ==> Box(w.s, id) == [Broken] && At(w.delivered, id) <= At(w.arrived, id))
  }

  ghost predicate Safe(w: World) {
    && (w.s.failed ==> !w.s.running)
    && if w.s.failed then Spoiled(w) else Sound(w)
  }

  lemma BreakSpoils(w: World, pending: set<nat>)
    requires Sound(w) && Ordered(w, pending) && w.s.running
    ensures Spoiled(After(w, Break))
  {
    var w' := After(w, Break);
    forall id: nat
      ensures Woken(w'.s, id) <==> Box(w'.s, id) != []
      ensures Box(w'.s, id) != [] ==> Box(w'.s, id) == [Broken] && At(w'.delivered, id) <= At(w'.arrived, id)
    {
      assert At(w.arrived, id) == At(w.delivered, id) + Box(w.s, id);
    }
  }

  lemma SpoiledStep(w: World, pending: set<nat>, step: Step)
    requires Spoiled(w) && Ordered(w, pending) && !w.s.running && Enabled(w.s, step) && PoliteStep(w, pending, step)
    ensures Spoiled(After(w, step))
  {
    var w' := After(w, step);
    forall id: nat
      ensures Woken(w'.s, id) <==> Box(w'.s, id) != []
      ensures Box(w'.s, id) != [] ==> Box(w'.s, id) == [Broken] && At(w'.delivered, id) <= At(w'.arrived, id)
    {
      assert Woken(w.s, id) <==> Box(w.s, id) != [];
    }
  }

  lemma OrderedStep(w: World, pending: set<nat>, step: Step)
    requires Ordered(w, pending) && Enabled(w.s, step) && PoliteStep(w, pending, step)
    ensures Ordered(After(w, step), PendingAfter(w, pending, step))
    ensures step.Take? ==> w.s.messageId !in w.s.notify && w.s.messageId !in pending
  {}

  lemma SafeStep(w: World, pending: set<nat>, step: Step)
    requires Safe(w) && Ordered(w, pending) && Enabled(w.s, step) && PoliteStep(w, pending, step)
    ensures Safe(After(w, step)) && Ordered(After(w, step), PendingAfter(w, pending, step))
  {
    hide Sound, Spoiled, Ordered;
    OrderedStep(w, pending, step);
    if w.s.failed {
      SpoiledStep(w, pending, step);
    } else if step == Break {
      BreakSpoils(w, pending);
    } else {
      FineStep(w, pending, step);
      SoundExactly(w, step);
    }
  }

  lemma FineStep(w: World, pending: set<nat>, step: Step)
    requires Ordered(w, pending) && Enabled(w.s, step) && PoliteStep(w, pending, step) && step != Break
    ensures Fine(w, step)
  {}

  /** Mailbox safety over every run in which the server answers only what was sent, whether or not
      the reading task fails in it. */
  lemma {:induction false} SafeRun(w: World, pending: set<nat>, steps: seq<Step>)
    requires Safe(w) && Ordered(w, pending) && Runs(w, steps) && Polite(w, pending, steps)
    ensures Safe(Final(w, steps)) && Final(w, steps).s.messageId >= w.s.messageId
    ensures Ordered(Final(w, steps), PendingFinal(w, pending, steps))
    decreases |steps|
  {
    hide Safe, Ordered, PoliteStep;
    if steps != [] {
      SafeStep(w, pending, steps[0]);
      SafeRun(After(w, steps[0]), PendingAfter(w, pending, steps[0]), steps[1..]);
    }
  }

  function PendingFinal(w: World, pending: set<nat>, steps: seq<Step>): set<nat>
    requires Runs(w, steps)
    decreases |steps|
  {
    if steps == [] then pending
    else PendingFinal(After(w, steps[0]), PendingAfter(w, pending, steps[0]), steps[1..])
  }

  /** The ids taken in a run are consecutive, so that none is taken twice. */
  function Taken(w: World, steps: seq<Step>): seq<nat>
    requires Runs(w, steps)
    decreases |steps|
  {
    if steps == [] then []
    else (if steps[0].Take? then [w.s.messageId] else []) + Taken(After(w, steps[0]), steps[1..])
  }

  lemma {:induction false} NeverReused(w: World, steps: seq<Step>)
    requires Runs(w, steps)
    ensures forall k | 0 <= k < |Taken(w, steps)| :: Taken(w, steps)[k] == w.s.messageId + k
    decreases |steps|
  {
    if steps != [] { NeverReused(After(w, steps[0]), steps[1..]); }
  }

  // -------------------------------------------------- the server answers too early

  /** An answer to an id before that id was taken: the event that send_message makes replaces the
      one that was set, and the coroutine waits although its answer is there. */
  lemma EarlyAnswerIsMissed(w: World, ms: seq<Message>)
    requires Sound(w) && w.s.running && ms != [] && Uniform(ms) && ms[0].id == w.s.messageId
    ensures Runs(w, [Arrive(ms), Take, Register(w.s.messageId)])
    ensures var s := Final(w, [Arrive(ms), Take, Register(w.s.messageId)]).s;
            Box(s, w.s.messageId) != [] && !Woken(s, w.s.messageId)
  {
    hide For, Sound;
    var id := w.s.messageId;
    var w1 := After(w, Arrive(ms));
    var w2 := After(w1, Take);
    var w3 := After(w2, Register(id));
    var s0, s1, s2: seq<Step> := [Register(id)], [Take, Register(id)], [Arrive(ms), Take, Register(id)];
    assert s0[1..] == [] && s1[1..] == s0 && s2[1..] == s1;
    assert Runs(w3, []) && Runs(w2, s0) && Runs(w1, s1);
    assert Final(w2, s0) == w3 && Final(w1, s1) == w3 && Final(w, s2) == w3;
  }

  // -------------------------------------------------- after the reading task

  /** What the steps after a failure leave of the world m in which it came: every id that was
      registered then gets the exception, once, behind what it had received; no other id gets
      anything; and a waiter is awake exactly when the exception waits for it. */
  ghost predicate Told(m: World, w: World) {
    && w.arrived == m.arrived
    && forall id: nat ::
         && At(w.delivered, id) + Box(w.s, id) == At(m.delivered, id) + (if id in m.s.notify then [Broken] else [])
         && (Woken(w.s, id) <==> Box(w.s, id) != [])
  }

  lemma BreakTells(m: World, pending: set<nat>)
    requires m.s.running && Ordered(m, pending)
    ensures Told(m, After(m, Break))
  {}

  lemma ToldStep(m: World, w: World, pending: set<nat>, step: Step)
    requires Told(m, w) && !w.s.running && Ordered(w, pending) && Enabled(w.s, step) && PoliteStep(w, pending, step)
    ensures Told(m, After(w, step))
  {
    var w' := After(w, step);
    forall id: nat
      ensures At(w'.delivered, id) + Box(w'.s, id) == At(m.delivered, id) + (if id in m.s.notify then [Broken] else [])
      ensures Woken(w'.s, id) <==> Box(w'.s, id) != []
    {
      assert Woken(w.s, id) <==> Box(w.s, id) != [];
      assert At(w.delivered, id) + Box(w.s, id) + [] == At(w.delivered, id) + Box(w.s, id);
    }
  }

  lemma {:induction false} ToldLater(m: World, w: World, pending: set<nat>, later: seq<Step>)
    requires Told(m, w) && !w.s.running && Ordered(w, pending) && Runs(w, later) && Polite(w, pending, later)
    ensures Told(m, Final(w, later))
    decreases |later|
  {
    hide Told, Ordered, PoliteStep;
    if later != [] {
      ToldStep(m, w, pending, later[0]);
      OrderedStep(w, pending, later[0]);
      ToldLater(m, After(w, later[0]), PendingAfter(w, pending, later[0]), later[1..]);
    }
  }

  lemma {:induction false} RunsAppend(w: World, pending: set<nat>, a: seq<Step>, b: seq<Step>)
    requires Runs(w, a + b) && Polite(w, pending, a + b)
    ensures Runs(w, a) && Runs(Final(w, a), b) && Final(w, a + b) == Final(Final(w, a), b)
    ensures Polite(w, pending, a) && Polite(Final(w, a), PendingFinal(w, pending, a), b)
    decreases |a|
  {
    hide PoliteStep, Enabled, After, PendingAfter;
    if a == [] {
      assert a + b == b;
    } else {
      assert (a + b)[0] == a[0] && (a + b)[1..] == a[1..] + b;
      RunsAppend(After(w, a[0]), PendingAfter(w, pending, a[0]), a[1..], b);
    }
  }

  /** In every run in which the reading task ends with an exception: every waiter that was
      registered then is woken and receives what it had received and then the exception, exactly
      once; and nobody else receives anything any more. */
  lemma BreakWakesAll(w: World, pending: set<nat>, before: seq<Step>, later: seq<Step>)
    requires Safe(w) && Ordered(w, pending)
    requires Runs(w, before + ([Break] + later)) && Polite(w, pending, before + ([Break] + later))
    ensures Runs(w, before) && Told(Final(w, before), Final(w, before + ([Break] + later)))
  {
    hide Safe, Ordered, Told, PoliteStep;
    var rest := [Break] + later;
    RunsAppend(w, pending, before, rest);
    SafeRun(w, pending, before);
    var m, pending' := Final(w, before), PendingFinal(w, pending, before);
    assert rest[0] == Break && rest[1..] == later;
    BreakTells(m, pending');
    OrderedStep(m, pending', Break);
    ToldLater(m, After(m, Break), pending', later);
  }

  /** Once the reading task is gone, nobody is woken any more who was not woken then: neither the
      coroutines that send a request afterwards, nor those that waited when it was cancelled. */
  lemma {:induction false} NobodyWokenLater(w: World, steps: seq<Step>, id: nat)
    requires !w.s.running && !Woken(w.s, id) && Runs(w, steps)
    ensures !Woken(Final(w, steps).s, id)
    decreases |steps|
  {
    if steps != [] { NobodyWokenLater(After(w, steps[0]), steps[1..], id); }
  }
}
