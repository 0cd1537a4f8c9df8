/** The paged search: one search request for each page, with the cookie of the page before, on a
    connection that others use at the same time, that gets the server's bytes in any chunks, and
    that can fail or be stopped at any time. */
module PagedSearch {
  import opened Bytes
  import opened Framing
  import opened Connection
  import opened Stream

  /** What the search yields: a result, or an exception. */
  datatype Yield = Result(text: string) | Problem

  /** How the batch of results that recv_message gave ends: the search waits for more, its page is
      over, or an exception is raised. */
  datatype Outcome = More(out: seq<Yield>) | End(out: seq<Yield>, cookie: seq<int>) | Failure(out: seq<Yield>)

  function Behind(y: Yield, o: Outcome): Outcome {
    match o
    case More(ys) => More([y] + ys)
    case End(ys, c) => End([y] + ys, c)
    case Failure(ys) => Failure([y] + ys)
  }

  /** The loop over a batch in search, with what pagedsearch does with each result. */
  function Process(results: seq<Mail>): Outcome {
    if results == [] then More([])
    else
      match results[0]
      case Broken => Failure([Problem])
      case Got(Message(_, Entry(text))) => Behind(Result(text), Process(results[1..]))
      case Got(Message(_, Reference)) => Process(results[1..])
      case Got(Message(_, Done(success, cookie))) => if success then End([], cookie) else Failure([Problem])
  }

  function Appended(ys: seq<Yield>, o: Outcome): Outcome {
    match o
    case More(zs) => More(ys + zs)
    case End(zs, c) => End(ys + zs, c)
    case Failure(zs) => Failure(ys + zs)
  }

  method ProcessResults(results: seq<Mail>) returns (outcome: Outcome)
    ensures outcome == Process(results)
  {
    var out: seq<Yield> := [];
    assert results[0..] == results;
    AppendedNothing(Process(results));
    for i := 0 to |results|
      invariant Appended(out, Process(results[i..])) == Process(results)
    {
      var mail := results[i];
      ghost var rest := results[i + 1..];
      assert results[i..][0] == mail && results[i..][1..] == rest;
      match mail {
        case Broken =>
          return Failure(out + [Problem]);
        case Got(Message(_, Entry(text))) =>
          AppendedBehind(out, Result(text), Process(rest));
          out := out + [Result(text)];
        case Got(Message(_, Reference)) =>
        case Got(Message(_, Done(success, cookie))) =>
          if !success {
            return Failure(out + [Problem]);
          }
          assert out + [] == out;
          return End(out, cookie);
      }
    }
    assert results[|results|..] == [] && out + [] == out;
    outcome := More(out);
  }

  lemma AppendedNothing(o: Outcome)
    ensures Appended([], o) == o
  {
    assert [] + o.out == o.out;
  }

  lemma AppendedBehind(ys: seq<Yield>, y: Yield, o: Outcome)
    ensures Appended(ys, Behind(y, o)) == Appended(ys + [y], o)
  {
    assert ys + ([y] + o.out) == ys + [y] + o.out;
  }

  // -------------------------------------------------- the server's pages

  /** What the server answers to one request: entries and references, then the end with a cookie. */
  datatype Page = Page(items: seq<Op>, success: bool, cookie: seq<int>)

  predicate Proper(page: Page) { forall k | 0 <= k < |page.items| :: !page.items[k].Done? }

  function Answer(page: Page): (ops: seq<Op>)
    ensures |ops| == |page.items| + 1
  {
    page.items + [Done(page.success, page.cookie)]
  }

  function MailsOf(id: nat, ops: seq<Op>): (r: seq<Mail>)
    ensures |r| == |ops|
  {
    seq(|ops|, k requires 0 <= k < |ops| => Got(Message(id, ops[k])))
  }

  function EntryOf(op: Op): seq<Yield> { if op.Entry? then [Result(op.text)] else [] }

  function Entries(ops: seq<Op>): seq<Yield> { if ops == [] then [] else EntryOf(ops[0]) + Entries(ops[1..]) }

  lemma EntriesCons(op: Op, ops: seq<Op>)
    ensures Entries([op] + ops) == EntryOf(op) + Entries(ops)
  {
    assert ([op] + ops)[1..] == ops;
  }

  lemma {:induction false} EntriesAppend(a: seq<Op>, b: seq<Op>)
    ensures Entries(a + b) == Entries(a) + Entries(b)
  {
    hide Entries, EntryOf;
    if a == [] {
      assert a + b == b;
      NoEntries(b);
    } else {
      var h, t := a[0], a[1..];
      EntriesAppend(t, b);
      EntriesCons(h, t);
      EntriesCons(h, t + b);
      assert a == [h] + t && a + b == [h] + (t + b);
    }
  }

  lemma NoEntries(b: seq<Op>)
    ensures Entries([]) + Entries(b) == Entries(b)
  {}

  lemma MailsCons(id: nat, ops: seq<Op>)
    requires ops != []
    ensures MailsOf(id, ops)[0] == Got(Message(id, ops[0])) && MailsOf(id, ops)[1..] == MailsOf(id, ops[1..])
  {}

  /** A batch within a page, and one with the page's end. */
  lemma {:induction false} ProcessItems(id: nat, ops: seq<Op>)
    requires forall k | 0 <= k < |ops| :: !ops[k].Done?
    ensures Process(MailsOf(id, ops)) == More(Entries(ops))
  {
    if ops != [] {
      ProcessItems(id, ops[1..]);
      MailsCons(id, ops);
      hide MailsOf;
    }
  }

  lemma {:induction false} ProcessEnd(id: nat, ops: seq<Op>, success: bool, cookie: seq<int>)
    requires forall k | 0 <= k < |ops| :: !ops[k].Done?
    ensures Process(MailsOf(id, ops + [Done(success, cookie)]))
         == if success then End(Entries(ops), cookie) else Failure(Entries(ops) + [Problem])
  {
    hide MailsOf, Process, Entries;
    var all := ops + [Done(success, cookie)];
    MailsCons(id, all);
    ProcessFirst(id, all);
    NothingListed();
    if ops != [] {
      ProcessEnd(id, ops[1..], success, cookie);
      assert all[1..] == ops[1..] + [Done(success, cookie)];
      EntriesCons(ops[0], ops[1..]);
      assert ops == [ops[0]] + ops[1..];
    }
  }

  lemma ProcessFirst(id: nat, ops: seq<Op>)
    requires ops != []
    ensures var more := Process(MailsOf(id, ops[1..]));
            Process(MailsOf(id, ops))
            == match ops[0]
               case Entry(text) => Behind(Result(text), more)
               case Reference => more
               case Done(success, cookie) => if success then End([], cookie) else Failure([Problem])
  {
    MailsCons(id, ops);
    hide MailsOf;
  }

  lemma NothingListed()
    ensures Entries([]) == []
  {}

  /** The results of the first pages, in order. */
  function Results(answer: nat -> Page, k: nat): seq<Yield> {
    if k == 0 then [] else Results(answer, k - 1) + Entries(answer(k - 1).items)
  }

  // -------------------------------------------------- the system

  datatype Phase = Sending | Waiting(id: nat) | Finished

  datatype Request = Request(id: nat, cookie: seq<int>)

  datatype Search = Search(phase: Phase, cookie: seq<int>, yielded: seq<Yield>, requests: seq<Request>)

  const NEW := Search(Sending, [], [], [])

  /** What the server writes to the connection, how that is encoded, and its answer to the search's
      k-th request. */
  datatype Server = Server(messages: seq<Message>, codec: Codec, answer: nat -> Page)

  /** The connection with its packetizer's buffer, all bytes that have come in, and the search. */
  datatype System = System(w: World, pending: set<nat>, buffer: seq<byte>, came: seq<byte>, search: Search)

  const OPENED := System(BEGINNING, {}, [], [], NEW)

  /** The next step of the search itself, a chunk of bytes from the network, or a step of the reading
      task or another coroutine. */
  datatype Move = Send | Resume | Chunk(bytes: seq<byte>) | Other(step: Step)

  predicate IsOwn(search: Search, id: nat) { exists j :: 0 <= j < |search.requests| && search.requests[j].id == id }

  predicate CanMove(y: System, m: Move) {
    match m
    case Send => y.search.phase == Sending
    case Resume => y.search.phase.Waiting? && Enabled(y.w.s, Receive(y.search.phase.id))
    case Chunk(_) => y.w.s.running
    case Other(step) => !step.Arrive? && Enabled(y.w.s, step)
  }

  /** The bytes are the server's; the others register and receive for ids of their own. */
  predicate Disciplined(y: System, server: Server, m: Move) {
    match m
    case Send => true
    case Resume => true
    case Chunk(bytes) =>
      && y.came + bytes <= Written(server.codec, server.messages)
      && Answers(y, server, Come(server.codec, server.messages, |y.came| + |bytes|))
    case Other(Register(id)) => id in y.pending
    case Other(Receive(id)) => !IsOwn(y.search, id)
    case Other(_) => true
  }

  /** The messages that have come in are for ids that are registered; those for a request of the
      search are the beginning of its page. */
  predicate Answers(y: System, server: Server, ms: seq<Message>) {
    && (forall m | m in ms :: m.id in y.w.s.notify)
    && forall j | 0 <= j < |y.search.requests| ::
         For(ms, y.search.requests[j].id) <= MailsOf(y.search.requests[j].id, Answer(server.answer(j)))
  }

  function Resumed(search: Search, results: seq<Mail>): Search {
    match Process(results)
    case More(ys) => search.(yielded := search.yielded + ys)
    case End(ys, cookie) =>
      search.(yielded := search.yielded + ys, cookie := cookie, phase := if cookie == [] then Finished else Sending)
    case Failure(ys) => search.(yielded := search.yielded + ys, phase := Finished)
  }

  function Sent(search: Search, id: nat): Search {
    search.(phase := Waiting(id), requests := search.requests + [Request(id, search.cookie)])
  }

  /** search raises an exception on a connection that is not running, and pagedsearch yields it. */
  function Refused(search: Search): Search { search.(yielded := search.yielded + [Problem], phase := Finished) }

  function Moved(y: System, server: Server, m: Move): System
    requires CanMove(y, m)
  {
    match m
    case Send =>
      if !y.w.s.running then y.(search := Refused(y.search))
      else
        var id := y.w.s.messageId;
        y.(w := After(After(y.w, Take), Register(id)), search := Sent(y.search, id))
    case Resume =>
      var id := y.search.phase.id;
      y.(w := After(y.w, Receive(id)), search := Resumed(y.search, Box(y.w.s, id)))
    case Chunk(bytes) =>
      y.(w := ReadTask(y.w, server.codec, Packets(true, y.buffer + bytes)),
         buffer := Left(true, y.buffer + bytes), came := y.came + bytes)
    case Other(step) => y.(w := After(y.w, step), pending := PendingAfter(y.w, y.pending, step))
  }

  predicate Moves(y: System, server: Server, ms: seq<Move>)
    decreases |ms|
  {
    ms == [] || (May(y, server, ms[0]) && Moves(Moved(y, server, ms[0]), server, ms[1..]))
  }

  predicate May(y: System, server: Server, m: Move) { CanMove(y, m) && Disciplined(y, server, m) }

  function Last(y: System, server: Server, ms: seq<Move>): System
    requires Moves(y, server, ms)
    decreases |ms|
  {
    if ms == [] then y else Last(Moved(y, server, ms[0]), server, ms[1..])
  }

  // -------------------------------------------------- the invariant

  /** One request for each page, with ids of their own, each with the cookie of the page before. */
  ghost predicate Requested(rs: seq<Request>, ids: set<nat>, answer: nat -> Page) {
    && (forall j | 0 <= j < |rs| :: rs[j].id in ids)
    && (forall i, j | 0 <= i < j < |rs| :: rs[i].id != rs[j].id)
    && (forall j | 0 <= j < |rs| :: rs[j].cookie == CookieBefore(answer, j))
    && (forall j | 0 <= j < |rs| - 1 :: Continues(answer(j)))
  }

  function CookieBefore(answer: nat -> Page, j: nat): seq<int> { if j == 0 then [] else answer(j - 1).cookie }

  /** A page that another follows. */
  predicate Continues(page: Page) { page.success && page.cookie != [] }

  /** What has arrived for each request is the beginning of its page. */
  ghost predicate Answered(rs: seq<Request>, arrived: map<nat, seq<Mail>>, answer: nat -> Page) {
    forall j | 0 <= j < |rs| :: At(arrived, rs[j].id) <= MailsOf(rs[j].id, Answer(answer(j)))
  }

  /** Where the search is: what it has yielded is exactly what it has received. */
  ghost predicate Progress(search: Search, w: World, answer: nat -> Page) {
    var k := |search.requests|;
    match search.phase
    case Sending =>
      && search.yielded == Results(answer, k) && search.cookie == CookieBefore(answer, k)
      && (k > 0 ==> Continues(answer(k - 1)))
    case Waiting(id) =>
      && k > 0 && id == search.requests[k - 1].id
      && Received(search, answer(k - 1), At(w.delivered, id), Results(answer, k - 1))
      && (w.s.failed ==> Box(w.s, id) == [Broken])
    case Finished => Complete(search, answer) || Stopped(search, w, answer) || Lost(search, w, answer)
  }

  /** The messages received of a page, and what has been yielded for them. */
  ghost predicate Received(search: Search, page: Page, mails: seq<Mail>, before: seq<Yield>) {
    |mails| <= |page.items| && search.yielded == before + Entries(page.items[..|mails|])
  }

  /** The last page came without a cookie, or it failed. */
  ghost predicate Complete(search: Search, answer: nat -> Page) {
    var k := |search.requests|;
    && k > 0 && !Continues(answer(k - 1))
    && search.yielded == Results(answer, k) + (if answer(k - 1).success then [] else [Problem])
  }

  /** The connection was not running any more when the search came to send the next request. */
  ghost predicate Stopped(search: Search, w: World, answer: nat -> Page) {
    var k := |search.requests|;
    && !w.s.running && (k > 0 ==> Continues(answer(k - 1)))
    && search.yielded == Results(answer, k) + [Problem]
  }

  /** The reading task failed while the search was waiting: the results received until then, and the
      exception. */
  ghost predicate Lost(search: Search, w: World, answer: nat -> Page) {
    var k := |search.requests|;
    w.s.failed && k > 0 &&
    var page, mails := answer(k - 1), At(w.delivered, search.requests[k - 1].id);
    && 0 < |mails| <= |page.items| + 1
    && mails == MailsOf(search.requests[k - 1].id, Answer(page))[..|mails| - 1] + [Broken]
    && search.yielded == Results(answer, k - 1) + Entries(page.items[..|mails| - 1]) + [Problem]
  }

  /** Nothing has arrived or been received for an id without an event. */
  predicate Known(w: World) { w.arrived.Keys <= w.s.notify.Keys && w.delivered.Keys <= w.s.notify.Keys }

  /** The messages filed are those that have come in whole, and the packetizer holds the rest. */
  ghost predicate InTune(y: System, server: Server) {
    && y.came <= Written(server.codec, server.messages) && y.buffer == Left(true, y.came)
    && ArrivedAre(y.w, Come(server.codec, server.messages, |y.came|))
  }

  ghost predicate ArrivedAre(w: World, ms: seq<Message>) { forall id: nat :: At(w.arrived, id) == For(ms, id) }

  ghost predicate Inv(y: System, server: Server) {
    && Safe(y.w) && Ordered(y.w, y.pending) && Known(y.w) && InTune(y, server)
    && Requested(y.search.requests, y.w.s.notify.Keys, server.answer)
    && Answered(y.search.requests, y.w.arrived, server.answer)
    && Progress(y.search, y.w, server.answer)
  }

  // -------------------------------------------------- every move keeps it

  /** Sending takes an id that nobody has. */
  lemma SendWorld(w: World, pending: set<nat>)
    requires Safe(w) && Ordered(w, pending) && Known(w) && w.s.running
    ensures var id, w' := w.s.messageId, After(After(w, Take), Register(w.s.messageId));
            && Safe(w') && Ordered(w', pending) && Known(w') && !w'.s.failed
            && id !in w.s.notify && w'.s.notify.Keys == w.s.notify.Keys + {id}
            && w'.arrived == w.arrived && w'.delivered == w.delivered
            && At(w'.arrived, id) == [] && At(w'.delivered, id) == []
  {
    hide Sound;
    var id := w.s.messageId;
    SoundExactly(w, Take);
    SoundExactly(After(w, Take), Register(id));
  }

  lemma InvSend(y: System, server: Server)
    requires Inv(y, server) && CanMove(y, Send)
    ensures Inv(Moved(y, server, Send), server)
  {
    hide Safe, Ordered, Known, After, At, Requested, Answered, Progress, InTune;
    if y.w.s.running {
      var answer, id, w' := server.answer, y.w.s.messageId, Moved(y, server, Send).w;
      SendWorld(y.w, y.pending);
      RequestedOneMore(y.search, y.w.s.notify.Keys, y.w, id, answer);
      AnsweredOneMore(y.search.requests, y.w.arrived, Request(id, y.search.cookie), answer);
      ProgressOneMore(y.search, y.w, w', id, answer);
      SameTune(y, Moved(y, server, Send), server);
    } else {
      SameTune(y, Moved(y, server, Send), server);
      ProgressRefused(y.search, y.w, server.answer);
    }
  }

  lemma SameTune(y: System, y': System, server: Server)
    requires InTune(y, server) && y'.came == y.came && y'.buffer == y.buffer && y'.w.arrived == y.w.arrived
    ensures InTune(y', server)
  {}

  lemma ProgressRefused(search: Search, w: World, answer: nat -> Page)
    requires search.phase == Sending && Progress(search, w, answer) && !w.s.running
    ensures Progress(Refused(search), w, answer)
  {
    assert Stopped(Refused(search), w, answer);
  }

  lemma RequestedOneMore(search: Search, ids: set<nat>, w: World, id: nat, answer: nat -> Page)
    requires Requested(search.requests, ids, answer) && id !in ids
    requires search.phase == Sending && Progress(search, w, answer)
    ensures Requested(Sent(search, id).requests, ids + {id}, answer)
  {
    hide Results, Entries, Continues;
    var rs, rs' := search.requests, Sent(search, id).requests;
    assert forall j | 0 <= j < |rs| :: rs'[j] == rs[j];
  }

  lemma AnsweredOneMore(rs: seq<Request>, arrived: map<nat, seq<Mail>>, r: Request, answer: nat -> Page)
    requires Answered(rs, arrived, answer) && At(arrived, r.id) == []
    ensures Answered(rs + [r], arrived, answer)
  {
    hide At, MailsOf, Answer;
    assert forall j | 0 <= j < |rs| :: (rs + [r])[j] == rs[j];
  }

  lemma ProgressOneMore(search: Search, w: World, w': World, id: nat, answer: nat -> Page)
    requires search.phase == Sending && Progress(search, w, answer) && At(w'.delivered, id) == [] && !w'.s.failed
    ensures Progress(Sent(search, id), w', answer)
  {
    hide At, Entries, Results;
    NoResults(answer, |search.requests|);
  }

  lemma NoResults(answer: nat -> Page, k: nat)
    ensures Results(answer, k) == Results(answer, k) + Entries(answer(k).items[..0])
  {
    assert answer(k).items[..0] == [] && Entries([]) == [];
    assert Results(answer, k) + [] == Results(answer, k);
  }

  /** A batch that continues a page. */
  lemma BatchOfPage(id: nat, page: Page, before: seq<Mail>, batch: seq<Mail>)
    requires before + batch <= MailsOf(id, Answer(page)) && |before| <= |page.items| && batch != []
    ensures |before + batch| <= |page.items| ==>
              batch == MailsOf(id, page.items[|before|..|before + batch|])
    ensures |before + batch| > |page.items| ==>
              batch == MailsOf(id, page.items[|before|..] + [Done(page.success, page.cookie)])
  {
    var d, n := |before|, |before + batch|;
    var all := MailsOf(id, Answer(page));
    assert forall k | 0 <= k < |batch| ::
        batch[k] == (before + batch)[d + k] == all[d + k] == Got(Message(id, Answer(page)[d + k]));
    if n <= |page.items| {
      assert forall k | 0 <= k < |batch| :: Answer(page)[d + k] == page.items[d..n][k];
    } else {
      assert forall k | 0 <= k < |batch| ::
          Answer(page)[d + k] == (page.items[d..] + [Done(page.success, page.cookie)])[k];
    }
  }

  /** What the search makes of a batch that continues its page. */
  lemma BatchProcessed(id: nat, page: Page, before: seq<Mail>, batch: seq<Mail>)
    requires Proper(page) && before + batch <= MailsOf(id, Answer(page)) && |before| <= |page.items| && batch != []
    ensures |before + batch| <= |page.items| ==>
              Process(batch) == More(Entries(page.items[|before|..|before + batch|]))
    ensures |before + batch| > |page.items| ==>
              Process(batch) == if page.success then End(Entries(page.items[|before|..]), page.cookie)
                                else Failure(Entries(page.items[|before|..]) + [Problem])
  {
    hide Process, Entries, MailsOf;
    BatchOfPage(id, page, before, batch);
    var d, n := |before|, |before + batch|;
    if n <= |page.items| {
      ProcessItems(id, page.items[d..n]);
    } else {
      ProcessEnd(id, page.items[d..], page.success, page.cookie);
    }
  }

  lemma EntriesSplit(items: seq<Op>, d: nat, n: nat)
    requires d <= n <= |items|
    ensures Entries(items[..d]) + Entries(items[d..n]) == Entries(items[..n])
    ensures Entries(items[..d]) + Entries(items[d..]) == Entries(items)
  {
    hide Entries;
    EntriesAppend(items[..d], items[d..n]);
    EntriesAppend(items[..d], items[d..]);
    Halves(items, d, n);
  }

  lemma Halves(items: seq<Op>, d: nat, n: nat)
    requires d <= n <= |items|
    ensures items[..d] + items[d..n] == items[..n] && items[..d] + items[d..] == items
  {}

  lemma ResumeWorld(w: World, pending: set<nat>, id: nat)
    requires Safe(w) && Ordered(w, pending) && Known(w) && Enabled(w.s, Receive(id))
    ensures var w' := After(w, Receive(id));
            && Safe(w') && Ordered(w', pending) && Known(w') && w'.s.failed == w.s.failed && w'.s.running == w.s.running
            && w'.s.notify.Keys == w.s.notify.Keys && w'.arrived == w.arrived
            && At(w'.delivered, id) == At(w.delivered, id) + Box(w.s, id)
    ensures Box(w.s, id) != []
    ensures !w.s.failed ==> At(w.delivered, id) + Box(w.s, id) == At(w.arrived, id)
    ensures w.s.failed ==> At(w.delivered, id) <= At(w.arrived, id)
  {
    SafeStep(w, pending, Receive(id));
    assert Woken(w.s, id) <==> Box(w.s, id) != [];
  }

  lemma InvResume(y: System, server: Server)
    requires Inv(y, server) && CanMove(y, Resume) && forall k: nat :: Proper(server.answer(k))
    ensures Inv(Moved(y, server, Resume), server)
  {
    hide Safe, Ordered, Known, After, At, Box, Requested, Answered, Progress, Resumed, Proper, InTune;
    var id := y.search.phase.id;
    ResumeWorld(y.w, y.pending, id);
    SameRequests(y.search, Box(y.w.s, id));
    SameTune(y, Moved(y, server, Resume), server);
    if y.w.s.failed {
      ProgressLost(y.search, y.w, After(y.w, Receive(id)), server.answer);
    } else {
      ProgressResume(y.search, y.w, After(y.w, Receive(id)), Box(y.w.s, id), server.answer);
    }
  }

  lemma SameRequests(search: Search, batch: seq<Mail>)
    ensures Resumed(search, batch).requests == search.requests
  {
    hide Process;
  }

  /** The exception is all that a waiting search can receive after a failure. */
  lemma ProgressLost(search: Search, w: World, w': World, answer: nat -> Page)
    requires search.phase.Waiting? && Progress(search, w, answer) && Answered(search.requests, w.arrived, answer)
    requires w.s.failed && w'.s.failed
    requires At(w.delivered, search.phase.id) <= At(w.arrived, search.phase.id)
    requires At(w'.delivered, search.phase.id) == At(w.delivered, search.phase.id) + Box(w.s, search.phase.id)
    ensures Progress(Resumed(search, Box(w.s, search.phase.id)), w', answer)
  {
    hide At, Entries, MailsOf, Answer, Results;
    var id, k := search.phase.id, |search.requests|;
    var mails := At(w.delivered, id);
    assert (mails + [Broken])[..|mails|] == mails;
    assert mails == MailsOf(id, Answer(answer(k - 1)))[..|mails|];
    assert Process([Broken]) == Failure([Problem]);
    assert Lost(Resumed(search, [Broken]), w', answer);
  }

  lemma ProgressResume(search: Search, w: World, w': World, batch: seq<Mail>, answer: nat -> Page)
    requires search.phase.Waiting? && Progress(search, w, answer) && Answered(search.requests, w.arrived, answer)
    requires batch != [] && !w'.s.failed && (forall k: nat :: Proper(answer(k)))
    requires At(w'.delivered, search.phase.id) == At(w.delivered, search.phase.id) + batch
        == At(w.arrived, search.phase.id)
    ensures Progress(Resumed(search, batch), w', answer)
  {
    hide Entries, At, Process, Proper, MailsOf, Answer, Results, Resumed;
    var id, k := search.phase.id, |search.requests|;
    var page := answer(k - 1);
    var before := At(w.delivered, id);
    BatchProcessed(id, page, before, batch);
    var d, n := |before|, |before + batch|;
    EntriesSplit(page.items, d, if n <= |page.items| then n else |page.items|);
    ResumedIs(search, answer, batch, d, n);
    AtMostOne(id, page, before + batch);
    assert !(n <= |page.items|) || page.items[..n] == page.items[..|At(w'.delivered, id)|];
    assert n > |page.items| && !Continues(page) ==> Complete(Resumed(search, batch), answer);
  }

  lemma AtMostOne(id: nat, page: Page, mails: seq<Mail>)
    requires mails <= MailsOf(id, Answer(page))
    ensures |mails| <= |page.items| + 1
  {}

  lemma ResumedIs(search: Search, answer: nat -> Page, batch: seq<Mail>, d: nat, n: nat)
    requires search.phase.Waiting? && |search.requests| > 0 && d <= n
    requires var page := answer(|search.requests| - 1);
             && d <= |page.items|
             && search.yielded == Results(answer, |search.requests| - 1) + Entries(page.items[..d])
             && (n <= |page.items| ==> Process(batch) == More(Entries(page.items[d..n])))
             && (n > |page.items| ==> Process(batch) == if page.success then End(Entries(page.items[d..]), page.cookie)
                                                        else Failure(Entries(page.items[d..]) + [Problem]))
             && (n <= |page.items| ==> Entries(page.items[..d]) + Entries(page.items[d..n]) == Entries(page.items[..n]))
             && Entries(page.items[..d]) + Entries(page.items[d..]) == Entries(page.items)
    ensures var k, page, s := |search.requests|, answer(|search.requests| - 1), Resumed(search, batch);
            && s.requests == search.requests
            && (n <= |page.items| ==>
                  s.phase == search.phase && s.yielded == Results(answer, k - 1) + Entries(page.items[..n]))
            && (n > |page.items| ==>
                  && s.phase == (if page.success && page.cookie != [] then Sending else Finished)
                  && (page.success ==> s.cookie == page.cookie)
                  && s.yielded == Results(answer, k) + (if page.success then [] else [Problem]))
  {
    hide Entries, Process;
    var k, page := |search.requests|, answer(|search.requests| - 1);
    var base, es := Results(answer, k - 1), Entries(page.items[..d]);
    if n <= |page.items| {
      assert base + es + Entries(page.items[d..n]) == base + (es + Entries(page.items[d..n]));
    } else {
      assert base + es + Entries(page.items[d..]) == base + (es + Entries(page.items[d..])) == Results(answer, k);
      if page.success {
        assert Results(answer, k) + [] == Results(answer, k);
      } else {
        assert base + es + (Entries(page.items[d..]) + [Problem]) == base + es + Entries(page.items[d..]) + [Problem];
      }
    }
  }

  lemma InvOther(y: System, server: Server, step: Step)
    requires Inv(y, server) && CanMove(y, Other(step)) && Disciplined(y, server, Other(step))
    ensures Inv(Moved(y, server, Other(step)), server)
  {
    hide Safe, Ordered, Known, After, At, Requested, Answered, Progress, Disciplined, InTune;
    OtherWorld(y, server, step);
    OtherHistory(y, server, step);
    SameTune(y, Moved(y, server, Other(step)), server);
    RequestedStill(y.search.requests, y.w.s.notify.Keys, After(y.w, step).s.notify.Keys, server.answer);
    ProgressStill(y.search, y.w, After(y.w, step), server.answer);
  }

  lemma RequestedStill(rs: seq<Request>, ids: set<nat>, ids': set<nat>, answer: nat -> Page)
    requires Requested(rs, ids, answer) && ids <= ids'
    ensures Requested(rs, ids', answer)
  {}

  /** The search has received the same, and a failure puts the exception in its mailbox. */
  ghost predicate Untouched(search: Search, w: World, w': World) {
    && (w'.s.running ==> w.s.running) && (w.s.failed ==> w'.s.failed)
    && forall j | 0 <= j < |search.requests| ::
         && At(w'.delivered, search.requests[j].id) == At(w.delivered, search.requests[j].id)
         && (w'.s.failed ==> Box(w'.s, search.requests[j].id) == if w.s.failed then Box(w.s, search.requests[j].id)
             else [Broken])
  }

  lemma ProgressStill(search: Search, w: World, w': World, answer: nat -> Page)
    requires Progress(search, w, answer) && Untouched(search, w, w')
    ensures Progress(search, w', answer)
  {
    hide At, Box, Results, Entries, MailsOf, Answer;
    if search.phase.Finished? {
      assert Stopped(search, w, answer) ==> Stopped(search, w', answer);
      assert Lost(search, w, answer) ==> Lost(search, w', answer);
    }
  }

  lemma OtherWorld(y: System, server: Server, step: Step)
    requires Safe(y.w) && Ordered(y.w, y.pending) && Known(y.w)
    requires CanMove(y, Other(step)) && Disciplined(y, server, Other(step))
    ensures var w' := After(y.w, step);
            && Safe(w') && Ordered(w', PendingAfter(y.w, y.pending, step)) && Known(w')
            && y.w.s.notify.Keys <= w'.s.notify.Keys && w'.arrived == y.w.arrived
  {
    hide Safe, Mails;
    SafeStep(y.w, y.pending, step);
  }

  /** The others leave the search's mailboxes as they are. */
  lemma OtherHistory(y: System, server: Server, step: Step)
    requires Safe(y.w) && Requested(y.search.requests, y.w.s.notify.Keys, server.answer)
    requires CanMove(y, Other(step)) && Disciplined(y, server, Other(step))
    ensures Untouched(y.search, y.w, After(y.w, step))
  {}

  // -------------------------------------------------- a chunk comes in

  lemma ForCons(m: Message, ms: seq<Message>, id: nat)
    ensures For([m] + ms, id) == (if m.id == id then [Got(m)] else []) + For(ms, id)
  {
    assert ([m] + ms)[1..] == ms;
  }

  lemma NoFor(b: seq<Message>, id: nat)
    ensures For([], id) + For(b, id) == For(b, id)
  {}

  lemma {:induction false} ForAppend(a: seq<Message>, b: seq<Message>, id: nat)
    ensures For(a + b, id) == For(a, id) + For(b, id)
  {
    hide For;
    if a == [] {
      assert a + b == b;
      NoFor(b, id);
    } else {
      var h, t := a[0], a[1..];
      ForAppend(t, b, id);
      ForCons(h, t, id);
      ForCons(h, t + b, id);
      assert a == [h] + t && a + b == [h] + (t + b);
    }
  }

  /** What filing messages for registered ids leaves of the world. */
  lemma {:induction false} FiledWorld(w: World, pending: set<nat>, done: seq<Message>, news: seq<Message>)
    requires w.s.running && Safe(w) && Ordered(w, pending) && Known(w) && ArrivedAre(w, done)
    requires forall m | m in news :: m.id in w.s.notify
    ensures var w' := FiledAll(w, news);
            && Safe(w') && Ordered(w', pending) && Known(w') && ArrivedAre(w', done + news)
            && w'.s.notify.Keys == w.s.notify.Keys && w'.s.failed == w.s.failed && w'.delivered == w.delivered
    decreases |news|
  {
    hide Safe, Ordered, Known, After, ArrivedAre;
    if news == [] {
      assert done + news == done;
    } else {
      FiledOne(w, pending, done, news[0]);
      FiledWorld(After(w, Arrive([news[0]])), pending, done + [news[0]], news[1..]);
      assert done + news == done + [news[0]] + news[1..];
    }
  }

  lemma FiledOne(w: World, pending: set<nat>, done: seq<Message>, m: Message)
    requires w.s.running && Safe(w) && Ordered(w, pending) && Known(w) && ArrivedAre(w, done) && m.id in w.s.notify
    ensures var w' := After(w, Arrive([m]));
            && Safe(w') && Ordered(w', pending) && Known(w') && ArrivedAre(w', done + [m])
            && w'.s.notify.Keys == w.s.notify.Keys && w'.s.failed == w.s.failed && w'.s.running
                && w'.delivered == w.delivered
  {
    hide Safe, For;
    SafeStep(w, pending, Arrive([m]));
    forall id: nat ensures At(After(w, Arrive([m])).arrived, id) == For(done + [m], id) {
      ArrivalAt(w, [m], id);
      ForAppend(done, [m], id);
    }
    assert Ids([m]) == {m.id} by { assert [m][0] == m; }
  }

  lemma InvChunk(y: System, server: Server, bytes: seq<byte>)
    requires Inv(y, server) && Fits(server.codec, server.messages)
    requires CanMove(y, Chunk(bytes)) && Disciplined(y, server, Chunk(bytes))
    ensures Inv(Moved(y, server, Chunk(bytes)), server) && Moved(y, server, Chunk(bytes)).w.s.running
    ensures Moved(y, server, Chunk(bytes)).w.s.notify.Keys == y.w.s.notify.Keys
  {
    hide Safe, Ordered, Known, Requested, Answered, Progress, Fits, Answers, ReadTask, Come, ArrivedAre, Written;
    var codec, ms := server.codec, server.messages;
    var come, news := Come(codec, ms, |y.came|), News(codec, ms, |y.came|, |bytes|);
    var y' := Moved(y, server, Chunk(bytes));
    NewPackets(codec, ms, y.came, bytes);
    NewsFit(codec, ms, |y.came|, |bytes|);
    NewsBehind(codec, ms, |y.came|, |bytes|);
    ReadTaskFiles(y.w, codec, news);
    assert forall m | m in news :: m.id in y.w.s.notify by { NewsRegistered(y, server, come, news); }
    FiledWorld(y.w, y.pending, come, news);
    assert |y'.came| == |y.came| + |bytes|;
    AnsweredNow(y, server, y'.w, come + news);
    ProgressStill(y.search, y.w, y'.w, server.answer) by { StillUntouched(y.search, y.w, y'.w, y.pending); }
  }

  lemma NewsRegistered(y: System, server: Server, come: seq<Message>, news: seq<Message>)
    requires Answers(y, server, come + news)
    ensures forall m | m in news :: m.id in y.w.s.notify
  {
    assert forall m | m in news :: m in come + news;
  }

  lemma AnsweredNow(y: System, server: Server, w': World, ms: seq<Message>)
    requires Answers(y, server, ms) && ArrivedAre(w', ms)
    ensures Answered(y.search.requests, w'.arrived, server.answer)
  {
    hide At, For, MailsOf, Answer;
  }

  lemma StillUntouched(search: Search, w: World, w': World, pending: set<nat>)
    requires w.s.running && Safe(w) && w'.s.failed == w.s.failed && w'.delivered == w.delivered
    ensures Untouched(search, w, w')
  {}

  // -------------------------------------------------- the theorem

  lemma {:induction false} InvMoves(y: System, server: Server, ms: seq<Move>)
    requires Inv(y, server) && Moves(y, server, ms)
    requires Fits(server.codec, server.messages) && forall k: nat :: Proper(server.answer(k))
    ensures Inv(Last(y, server, ms), server)
    decreases |ms|
  {
    hide Inv, Fits, Disciplined, CanMove, Moved;
    if ms != [] {
      match ms[0] {
        case Send => InvSend(y, server);
        case Resume => InvResume(y, server);
        case Chunk(bytes) => InvChunk(y, server, bytes);
        case Other(step) => InvOther(y, server, step);
      }
      InvMoves(Moved(y, server, ms[0]), server, ms[1..]);
    }
  }

  lemma Opens(server: Server)
    requires Fits(server.codec, server.messages)
    ensures Inv(OPENED, server)
  {
    if server.messages != [] { assert FitsOne(server.codec, server.messages[0]); }
    assert Come(server.codec, server.messages, 0) == [];
  }

  /** From a new connection, with the server's bytes coming in any chunks, whatever the others do,
      and whether or not the reading task fails or is cancelled: the mailboxes hold exactly the
      messages that have come in whole; the search sends one request for each page, each with the
      cookie of the page before; it has always yielded the results of the pages so far and of the
      messages received of the next, in order; and it is over after a page without a cookie, one that
      failed, or, with an exception behind the results received so far, after the connection. */
  lemma PagedSearchDelivers(server: Server, ms: seq<Move>)
    requires Fits(server.codec, server.messages) && forall k: nat :: Proper(server.answer(k))
    requires Moves(OPENED, server, ms)
    ensures var y := Last(OPENED, server, ms);
            && Safe(y.w) && InTune(y, server)
            && Requested(y.search.requests, y.w.s.notify.Keys, server.answer)
            && Progress(y.search, y.w, server.answer)
  {
    hide Fits, Moves, Last, Requested, Progress, InTune, Safe;
    Opens(server);
    InvMoves(OPENED, server, ms);
  }

  /** A search that finished without an exception has yielded exactly the entries of all pages up to
      the first without a cookie, and all of them succeeded. */
  lemma FinishedHasAll(server: Server, ms: seq<Move>) returns (k: nat)
    requires Fits(server.codec, server.messages) && forall k: nat :: Proper(server.answer(k))
    requires Moves(OPENED, server, ms)
    requires var search := Last(OPENED, server, ms).search; search.phase == Finished && Problem !in search.yielded
    ensures var search := Last(OPENED, server, ms).search;
            search.yielded == Results(server.answer, k) && |search.requests| == k > 0
    ensures server.answer(k - 1).success && server.answer(k - 1).cookie == []
    ensures forall j | 0 <= j < k - 1 :: Continues(server.answer(j))
  {
    hide Results, Safe, InTune, Fits;
    PagedSearchDelivers(server, ms);
    var y := Last(OPENED, server, ms);
    k := |y.search.requests|;
    assert Results(server.answer, k) + [] == Results(server.answer, k);
    assert Problem == (Results(server.answer, k) + [Problem])[|Results(server.answer, k)|];
    if Lost(y.search, y.w, server.answer) { LostHasProblem(y.search, y.w, server.answer); }
  }

  lemma LostHasProblem(search: Search, w: World, answer: nat -> Page)
    requires Lost(search, w, answer)
    ensures Problem in search.yielded
  {
    assert search.yielded[|search.yielded| - 1] == Problem;
  }

  /** No wake-up is lost: a waiting search can go on exactly when a message for it has come in whole
      that it has not received, or the reading task has failed; and when its whole page has come in,
      it is not waiting for it any more once it has gone on. */
  lemma ResumesExactly(server: Server, ms: seq<Move>)
    requires Fits(server.codec, server.messages) && forall k: nat :: Proper(server.answer(k))
    requires Moves(OPENED, server, ms) && Last(OPENED, server, ms).search.phase.Waiting?
    ensures var y := Last(OPENED, server, ms);
            var id, k := y.search.phase.id, |y.search.requests|;
            var come := For(Come(server.codec, server.messages, |y.came|), id);
            && (CanMove(y, Resume) <==> y.w.s.failed || |At(y.w.delivered, id)| < |come|)
            && (k > 0 && come == MailsOf(id, Answer(server.answer(k - 1))) ==>
                  CanMove(y, Resume) && !Moved(y, server, Resume).search.phase.Waiting?)
  {
    hide Fits, Moves, Last, Come, For;
    Opens(server);
    InvMoves(OPENED, server, ms);
    var y := Last(OPENED, server, ms);
    WaitingGoesOn(y, server);
  }

  lemma WaitingGoesOn(y: System, server: Server)
    requires Inv(y, server) && y.search.phase.Waiting? && forall k: nat :: Proper(server.answer(k))
    ensures var id, k := y.search.phase.id, |y.search.requests|;
            var come := At(y.w.arrived, id);
            && come == For(Come(server.codec, server.messages, |y.came|), id)
            && (CanMove(y, Resume) <==> y.w.s.failed || |At(y.w.delivered, id)| < |come|)
            && (k > 0 && come == MailsOf(id, Answer(server.answer(k - 1))) ==>
                  CanMove(y, Resume) && !Moved(y, server, Resume).search.phase.Waiting?)
  {
    hide Come, For, Requested, Answered, Ordered, Proper, Results, Entries, Process;
    var id, k := y.search.phase.id, |y.search.requests|;
    assert Woken(y.w.s, id) <==> Box(y.w.s, id) != [];
    if CanMove(y, Resume) {
      InvResume(y, server);
      ResumeWorld(y.w, y.pending, id);
      if y.w.s.failed { assert Process([Broken]) == Failure([Problem]) by { ProcessBroken(); } }
    }
  }

  lemma ProcessBroken()
    ensures Process([Broken]) == Failure([Problem])
  {}

  // -------------------------------------------------- an example

  const ONE_PAGE := Page([Entry("x")], true, [])

  const ONE_PAGE_SERVER := Server([ENTRY, DONE], EXAMPLE, k => ONE_PAGE)

  /** A run in which the server's bytes come in two chunks that cut a message. */
  const FIRST := Chunk(ENTRY_BYTES + DONE_BYTES[..3])
  const SECOND := Chunk(DONE_BYTES[3..])

  lemma ExampleWritten()
    ensures Written(EXAMPLE, [ENTRY, DONE]) == ENTRY_BYTES + DONE_BYTES
    ensures Come(EXAMPLE, [ENTRY, DONE], 15) == [ENTRY] && Come(EXAMPLE, [ENTRY, DONE], 30) == [ENTRY, DONE]
    ensures |ENTRY_BYTES| == 12 && |DONE_BYTES| == 18
    ensures For([ENTRY], 0) == [Got(ENTRY)] && For([ENTRY, DONE], 0) == [Got(ENTRY), Got(DONE)]
    ensures MailsOf(0, Answer(ONE_PAGE)) == [Got(ENTRY), Got(DONE)]
  {
    assert |ENTRY_BYTES| == 12 && |DONE_BYTES| == 18;
    assert [ENTRY, DONE][1..] == [DONE] && [DONE][1..] == [] && [ENTRY][1..] == [];
    assert Come(EXAMPLE, [DONE], 3) == [] && Come(EXAMPLE, [DONE], 18) == [DONE];
    assert EncodeAll(EXAMPLE, [DONE]) == [DONE_BYTES];
    assert EncodeAll(EXAMPLE, [ENTRY, DONE]) == [ENTRY_BYTES, DONE_BYTES];
    assert Joined([DONE_BYTES]) == DONE_BYTES by { assert [DONE_BYTES][1..] == []; }
    assert [ENTRY_BYTES, DONE_BYTES][1..] == [DONE_BYTES];
  }

  /** The theorem's requires can be met, and the search ends with its one result. */
  lemma ExampleRun()
    ensures var ms := [Send, FIRST, SECOND, Resume];
            && Moves(OPENED, ONE_PAGE_SERVER, ms)
            && Last(OPENED, ONE_PAGE_SERVER, ms).search.phase == Finished
            && Last(OPENED, ONE_PAGE_SERVER, ms).search.yielded == [Result("x")]
  {
    hide Inv, ReadTask, Come, Written, Packets, Left, Fits, Process, Results, For, MailsOf, Entries, Proper;
    var server := ONE_PAGE_SERVER;
    OnePageIsProper();
    ExampleFits();
    ExampleWritten();
    Opens(server);
    InvSend(OPENED, server);
    var y1 := Moved(OPENED, server, Send);
    InvChunk(y1, server, FIRST.bytes);
    var y2 := Moved(y1, server, FIRST);
    assert y2.came + SECOND.bytes == ENTRY_BYTES + DONE_BYTES;
    InvChunk(y2, server, SECOND.bytes);
    var y3 := Moved(y2, server, SECOND);
    WaitingGoesOn(y3, server);
    InvResume(y3, server);
    var y4 := Moved(y3, server, Resume);
    assert Results(server.answer, 1) == [] + ([Result("x")] + []) by { OneResult(); }
    assert y4.search.phase == Finished && y4.search.yielded == [Result("x")] by { ExampleEnds(y3, y4); }
    FourMoves(OPENED, server, Send, FIRST, SECOND, Resume);
  }

  lemma FourMoves(y: System, server: Server, a: Move, b: Move, c: Move, d: Move)
    requires May(y, server, a) && May(Moved(y, server, a), server, b)
    requires var z := Moved(Moved(y, server, a), server, b); May(z, server, c) && May(Moved(z, server, c), server, d)
    ensures Moves(y, server, [a, b, c, d])
    ensures Last(y, server, [a, b, c, d]) == Moved(Moved(Moved(Moved(y, server, a), server, b), server, c), server, d)
  {
    hide CanMove, Disciplined, Moved, Moves, Last;
    var y1 := Moved(y, server, a);
    var y2 := Moved(y1, server, b);
    var y3 := Moved(y2, server, c);
    NoMove(Moved(y3, server, d), server);
    assert [d] + [] == [d] && [c] + [d] == [c, d] && [b] + [c, d] == [b, c, d] && [a] + [b, c, d] == [a, b, c, d];
    OneMove(y3, server, d, []);
    OneMove(y2, server, c, [d]);
    OneMove(y1, server, b, [c, d]);
    OneMove(y, server, a, [b, c, d]);
  }

  lemma NoMove(y: System, server: Server)
    ensures Moves(y, server, []) && Last(y, server, []) == y
  {}

  lemma OneMove(y: System, server: Server, m: Move, ms: seq<Move>)
    requires May(y, server, m) && Moves(Moved(y, server, m), server, ms)
    ensures Moves(y, server, [m] + ms) && Last(y, server, [m] + ms) == Last(Moved(y, server, m), server, ms)
  {
    hide Moved, CanMove, Disciplined;
    assert ([m] + ms)[1..] == ms;
  }

  lemma OnePageIsProper()
    ensures Proper(ONE_PAGE)
  {}

  lemma OneResult()
    ensures Results(k => ONE_PAGE, 1) == [Result("x")]
  {
    assert ONE_PAGE.items[1..] == [];
  }

  lemma ExampleEnds(y: System, y': System)
    requires Inv(y', ONE_PAGE_SERVER) && !y'.search.phase.Waiting? && |y'.search.requests| == 1 && y'.w.s.running
    requires Results(ONE_PAGE_SERVER.answer, 1) == [Result("x")]
    ensures y'.search.phase == Finished && y'.search.yielded == [Result("x")]
  {}
}
