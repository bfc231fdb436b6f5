/** The request/reply worker of storage/DataStoreProxy.cc as a system of threads: clients
    queue requests and wait, the worker multiplexes them over one connection, and the server
    sends whatever it likes.  A worker's pass is cut into steps, between which the other
    threads may run. */
module DataStoreProxy {
  import opened Util
  import PrintfDigits
  import PrintfFormat

  /** Replies are opaque but for their cookie. */
  datatype Reply = Reply(cookie: string, body: string)

  /** Cookies count in 64 bits. */
  const WRAP: nat := 0x1_0000_0000_0000_0000

  /** The counter after `n` requests. */
  function Ticket(n: nat): nat { n % WRAP }

  /** `++cur_cookie` */
  function Next(counter: nat): nat { (counter + 1) % WRAP }

  function Cookie(n: nat): string { "asynch-" + PrintfDigits.Digits(n, 10, PrintfDigits.LOWER) }

  lemma CookieText()
    ensures Cookie(1) == "asynch-1" && Cookie(10) == "asynch-10"
  {
    assert PrintfDigits.Digits(10, 10, PrintfDigits.LOWER) == PrintfDigits.Digits(1, 10, PrintfDigits.LOWER) + "0";
  }

  lemma CookieInjective(m: nat, n: nat)
    requires Cookie(m) == Cookie(n)
    ensures m == n
  {
    var prefix := "asynch-";
    assert Cookie(m)[|prefix|..] == PrintfDigits.Digits(m, 10, PrintfDigits.LOWER);
    assert Cookie(n)[|prefix|..] == PrintfDigits.Digits(n, 10, PrintfDigits.LOWER);
    PrintfFormat.ReadNumeral(m);
    PrintfFormat.ReadNumeral(n);
  }

  /** Where the worker is: at the head of the loop, in poll, about to pop (and to read, if the
      socket fired too), about to read, between storing a reply and waking its client, between
      that and dropping the request, or out of the loop. */
  datatype Pc<Id> = Top | Polling | Popping(sock: bool) | Receiving | Notifying(id: Id, cookie: string)
                  | Erasing(id: Id, cookie: string) | Done

  /** An `Id` is one request.  Addresses are used again when a request is over; ids are not. */
  datatype Sys<Id(==)> = Sys(
    queue: seq<Id>,
    stop: bool,
    pc: Pc<Id>,
    pending: map<string, Id>,
    counter: nat,
    // what happened so far
    number: map<Id, nat>,         // which request was popped as which
    answers: seq<(Id, Reply)>,    // replies stored in requests
    notified: set<Id>,
    returned: map<Id, Reply>,     // clients back from `execute`, with their replies
    heard: seq<Reply>)            // what the server sent

  datatype Step<Id> =
    | Execute(id: Id)                      // a client queues a request
    | Return(id: Id)                       // a client that was woken up goes on
    | Stop                                 // someone tells the worker to stop
    | Check
    | Wake(failed: bool, event: bool, sock: bool)
    | TryPop
    | Receive(reply: Option<Reply>)
    | Notify
    | Erase

  function Start<Id>(): Sys<Id> {
    Sys([], false, Top, map[], 0, map[], [], {}, map[], [])
  }

  // ----- steps -----

  predicate Enabled<Id(==)>(s: Sys<Id>, step: Step<Id>) {
    match step
    case Execute(id) => id !in s.queue && id !in s.number
    case Return(id) => id in s.notified && id !in s.returned && Answered(s.answers, id)
    case Stop => true
    case Check => s.pc.Top?
    case Wake(_, _, _) => s.pc.Polling?
    case TryPop => s.pc.Popping?
    case Receive(_) => s.pc.Receiving?
    case Notify => s.pc.Notifying?
    case Erase => s.pc.Erasing?
  }

  /** The reply stored in a request. */
  function LastAnswer<Id(==)>(answers: seq<(Id, Reply)>, id: Id): Option<Reply> {
    if answers == [] then None
    else if answers[|answers| - 1].0 == id then Some(answers[|answers| - 1].1)
    else LastAnswer(answers[..|answers| - 1], id)
  }

  predicate Answered<Id(==)>(answers: seq<(Id, Reply)>, id: Id) { LastAnswer(answers, id).Some? }

  /** A step that is not enabled does nothing. */
  function Do<Id(==)>(s: Sys<Id>, step: Step<Id>): Sys<Id> {
    if !Enabled(s, step) then s
    else match step
    case Execute(id) => s.(queue := s.queue + [id])
    case Return(id) => s.(returned := s.returned[id := LastAnswer(s.answers, id).value])
    case Stop => s.(stop := true)
    case Check => if s.stop && s.pending == map[] then s.(pc := Done) else s.(pc := Polling)
    case Wake(failed, event, sock) =>
      if s.stop && s.pending == map[] then s.(pc := Done)
      else if failed then s.(stop := true, pc := Top)
      else s.(pc := if event then Popping(sock) else if sock then Receiving else Top)
    case TryPop =>
      var next := if s.pc.sock then Receiving else Top;
      if s.queue == [] then s.(pc := next)
      else
        var n := Next(s.counter);
        s.(queue := s.queue[1..], pc := next, counter := n, pending := s.pending[Cookie(n) := s.queue[0]],
           number := s.number[s.queue[0] := |s.number| + 1])
    case Receive(reply) =>
      if reply.None? then s.(pc := Top)
      else
        var s' := s.(heard := s.heard + [reply.value]);
        var cookie := reply.value.cookie;
        if cookie in s.pending then
          s'.(answers := s.answers + [(s.pending[cookie], reply.value)], pc := Notifying(s.pending[cookie], cookie))
        else s'.(pc := Top)
    case Notify => s.(notified := s.notified + {s.pc.id}, pc := Erasing(s.pc.id, s.pc.cookie))
    case Erase => s.(pending := s.pending - {s.pc.cookie}, pc := Top)
  }

  /** The requests whose memory a step uses. */
  function Uses<Id(==)>(s: Sys<Id>, step: Step<Id>): set<Id> {
    if !Enabled(s, step) then {}
    else match step
    case TryPop => if s.queue == [] then {} else {s.queue[0]}
    case Receive(Some(reply)) => if reply.cookie in s.pending then {s.pending[reply.cookie]} else {}
    case Notify => {s.pc.id}
    case _ => {}
  }

  // ----- the invariant -----

  /** The cookie given to a popped request. */
  function Given<Id(==)>(number: map<Id, nat>, id: Id): string {
    if id in number then Cookie(Ticket(number[id])) else ""
  }

  predicate Pending<Id(==)>(number: map<Id, nat>, pending: map<string, Id>, id: Id) {
    Given(number, id) in pending && pending[Given(number, id)] == id
  }

  /** The worker is dealing with the answer to `id`. */
  predicate InHand<Id(==)>(pc: Pc<Id>, id: Id) {
    (pc.Notifying? || pc.Erasing?) && pc.id == id
  }

  /** Every popped request is pending or answered, and not both but while it is in hand. */
  ghost predicate Kept<Id>(number: map<Id, nat>, pending: map<string, Id>, answers: seq<(Id, Reply)>, pc: Pc<Id>) {
    forall id :: id in number ==>
      if InHand(pc, id) then Pending(number, pending, id) && Answered(answers, id)
      else Pending(number, pending, id) <==> !Answered(answers, id)
  }

  ghost predicate Numbered<Id>(number: map<Id, nat>, counter: nat) {
    && (forall id :: id in number ==> 1 <= number[id] <= |number|)
    && (forall id, jd :: id in number && jd in number && number[id] == number[jd] ==> id == jd)
    && counter == Ticket(|number|)
  }

  /** Each request is in one place, and what is waited for was popped. */
  ghost predicate Placed<Id>(queue: seq<Id>, number: map<Id, nat>, pending: map<string, Id>) {
    && (forall j, k :: 0 <= j < k < |queue| ==> queue[j] != queue[k])
    && (forall id :: id in queue ==> id !in number)
    && (forall c :: c in pending ==> pending[c] in number && Given(number, pending[c]) == c)
  }

  /** Answers are stored once each, in popped requests, and come from the server with the
      cookies of the requests they are for. */
  ghost predicate AnswersFit<Id>(answers: seq<(Id, Reply)>, number: map<Id, nat>, heard: seq<Reply>) {
    && (forall k :: 0 <= k < |answers| ==>
          var (id, reply) := answers[k];
          id in number && reply.cookie == Given(number, id) && reply in heard)
    && (forall j, k :: 0 <= j < k < |answers| ==> answers[j].0 != answers[k].0)
  }

  /** Clients are woken up once, after their answer, and go on only after that. */
  ghost predicate ClientsFit<Id>(number: map<Id, nat>, answers: seq<(Id, Reply)>, notified: set<Id>,
                                 returned: map<Id, Reply>, pc: Pc<Id>) {
    && (forall id :: id in notified ==> id in number && Answered(answers, id) && !(pc.Notifying? && pc.id == id))
    && (forall id :: id in number && Answered(answers, id) && id !in notified ==> pc.Notifying? && pc.id == id)
    && (forall id :: id in returned ==> id in notified && LastAnswer(answers, id) == Some(returned[id]))
  }

  ghost predicate WorkerFits<Id>(pc: Pc<Id>, number: map<Id, nat>, notified: set<Id>, stop: bool,
                                 pending: map<string, Id>) {
    && (pc.Notifying? || pc.Erasing? ==>
          && pc.id in number && pc.cookie == Given(number, pc.id)
          && (pc.Erasing? ==> pc.id in notified))
    && (pc.Done? ==> stop && pending == map[])
  }

  ghost predicate Inv<Id>(s: Sys<Id>) {
    && Numbered(s.number, s.counter)
    && Placed(s.queue, s.number, s.pending)
    && AnswersFit(s.answers, s.number, s.heard)
    && ClientsFit(s.number, s.answers, s.notified, s.returned, s.pc)
    && WorkerFits(s.pc, s.number, s.notified, s.stop, s.pending)
    && Kept(s.number, s.pending, s.answers, s.pc)
  }

  /** Before the counter wraps around, cookies are as good as numbers. */
  lemma GivenInjective<Id>(s: Sys<Id>, id: Id, jd: Id)
    requires Numbered(s.number, s.counter) && |s.number| <= WRAP && id in s.number && jd in s.number
    requires Given(s.number, id) == Given(s.number, jd)
    ensures id == jd
  {
    hide Cookie, Ticket;
    WrapSmall(s.number[id]);
    WrapSmall(s.number[jd]);
    CookieInjective(Ticket(s.number[id]), Ticket(s.number[jd]));
  }

  lemma {:induction false} AnswerOf<Id>(answers: seq<(Id, Reply)>, id: Id)
    ensures LastAnswer(answers, id).Some? <==> exists k :: 0 <= k < |answers| && answers[k].0 == id
    ensures LastAnswer(answers, id).Some? ==> (id, LastAnswer(answers, id).value) in answers
    decreases |answers|
  {
    if answers != [] {
      var n := |answers| - 1;
      AnswerOf(answers[..n], id);
      assert forall k :: 0 <= k < n ==> answers[..n][k] == answers[k];
      if LastAnswer(answers, id).Some? && answers[n].0 != id {
        var k :| 0 <= k < n && answers[..n][k] == (id, LastAnswer(answers, id).value);
        assert answers[k] == answers[..n][k];
      }
    }
  }

  lemma AnswerMore<Id>(answers: seq<(Id, Reply)>, id: Id, reply: Reply, jd: Id)
    ensures LastAnswer(answers + [(id, reply)], jd) == if id == jd then Some(reply) else LastAnswer(answers, jd)
  {
    assert (answers + [(id, reply)])[..|answers|] == answers;
  }

  // ----- every step keeps the invariant -----

  lemma WrapSmall(k: nat)
    requires 1 <= k <= WRAP
    ensures Ticket(k) == if k < WRAP then k else 0
  {
  }

  lemma NextNumber(n: nat, counter: nat)
    requires counter == Ticket(n)
    ensures Next(counter) == Ticket(n + 1)
  {
  }

  /** The next cookie is not in use before the counter has wrapped around. */
  lemma FreshCookie<Id>(s: Sys<Id>)
    requires Numbered(s.number, s.counter) && Placed(s.queue, s.number, s.pending) && |s.number| < WRAP
    ensures Cookie(Next(s.counter)) !in s.pending
    ensures Next(s.counter) == Ticket(|s.number| + 1)
  {
    hide Cookie, Next, Ticket;
    var n := |s.number|;
    NextNumber(n, s.counter);
    WrapSmall(n + 1);
    var c := Cookie(Next(s.counter));
    if c in s.pending {
      var k := s.number[s.pending[c]];
      WrapSmall(k);
      CookieInjective(Ticket(k), Ticket(n + 1));
    }
  }

  lemma PopKeeps<Id>(s: Sys<Id>)
    requires Inv(s) && s.pc.Popping? && s.queue != [] && |s.number| < WRAP
    ensures Inv(Do(s, TryPop))
  {
    hide Cookie, Ticket, Next, LastAnswer, Numbered, Placed, Kept, AnswersFit, ClientsFit;
    PopNumbers(s);
    PopPlaces(s);
    PopAnswers(s);
    PopKept(s);
  }

  lemma PopNumbers<Id>(s: Sys<Id>)
    requires Numbered(s.number, s.counter) && Placed(s.queue, s.number, s.pending)
    requires s.pc.Popping? && s.queue != [] && |s.number| < WRAP
    ensures Numbered(Do(s, TryPop).number, Do(s, TryPop).counter)
  {
    hide Cookie, LastAnswer, Ticket, Next, Placed;
    FreshCookie(s);
    QueuedUnnumbered(s);
    NumberMore(s.number, s.queue[0]);
  }

  lemma QueuedUnnumbered<Id>(s: Sys<Id>)
    requires Placed(s.queue, s.number, s.pending) && s.queue != []
    ensures s.queue[0] !in s.number
  {
    assert s.queue[0] in s.queue;
  }

  lemma NumberMore<Id>(number: map<Id, nat>, id: Id)
    requires id !in number
    requires forall jd :: jd in number ==> 1 <= number[jd] <= |number|
    requires forall jd, kd :: jd in number && kd in number && number[jd] == number[kd] ==> jd == kd
    ensures var more := number[id := |number| + 1];
      && |more| == |number| + 1
      && (forall jd :: jd in more ==> 1 <= more[jd] <= |more|)
      && forall jd, kd :: jd in more && kd in more && more[jd] == more[kd] ==> jd == kd
  {
    assert |number[id := |number| + 1]| == |number| + 1;
  }

  lemma PopPlaces<Id>(s: Sys<Id>)
    requires Numbered(s.number, s.counter) && Placed(s.queue, s.number, s.pending)
    requires s.pc.Popping? && s.queue != [] && |s.number| < WRAP
    ensures Placed(Do(s, TryPop).queue, Do(s, TryPop).number, Do(s, TryPop).pending)
  {
    hide Cookie, Ticket, Next, LastAnswer;
    FreshCookie(s);
    assert s.queue[0] in s.queue;
  }

  lemma PopAnswers<Id>(s: Sys<Id>)
    requires Inv(s) && s.pc.Popping? && s.queue != []
    ensures var s' := Do(s, TryPop);
      && AnswersFit(s'.answers, s'.number, s'.heard)
      && ClientsFit(s'.number, s'.answers, s'.notified, s'.returned, s'.pc)
  {
    hide Cookie, Ticket, Next, LastAnswer, Kept, Numbered;
    assert s.queue[0] in s.queue;
    NeverAnswered(s, s.queue[0]);
  }

  lemma PopKept<Id>(s: Sys<Id>)
    requires Inv(s) && s.pc.Popping? && s.queue != [] && |s.number| < WRAP
    ensures Kept(Do(s, TryPop).number, Do(s, TryPop).pending, Do(s, TryPop).answers, Do(s, TryPop).pc)
  {
    hide Cookie, Ticket, Next, LastAnswer, AnswersFit, ClientsFit;
    FreshCookie(s);
    assert s.queue[0] in s.queue;
    NeverAnswered(s, s.queue[0]);
    PopPlaces(s);
  }

  lemma NeverAnswered<Id>(s: Sys<Id>, id: Id)
    requires AnswersFit(s.answers, s.number, s.heard) && id !in s.number
    ensures !Answered(s.answers, id)
  {
    AnswerOf(s.answers, id);
  }

  lemma ReceiveKeeps<Id>(s: Sys<Id>, reply: Reply)
    requires Inv(s) && s.pc.Receiving? && reply.cookie in s.pending && |s.number| <= WRAP
    ensures Inv(Do(s, Receive(Some(reply))))
  {
    hide Cookie, Ticket, Next, LastAnswer, Numbered;
    var id := s.pending[reply.cookie];
    var s' := Do(s, Receive(Some(reply)));
    forall jd ensures LastAnswer(s'.answers, jd) == if jd == id then Some(reply) else LastAnswer(s.answers, jd) {
      AnswerMore(s.answers, id, reply, jd);
    }
    AnswerOf(s.answers, id);
  }

  lemma EraseKeeps<Id>(s: Sys<Id>)
    requires Inv(s) && s.pc.Erasing? && |s.number| <= WRAP
    ensures Inv(Do(s, Erase))
  {
    hide Cookie, LastAnswer, Ticket, Next, Placed, Kept, AnswersFit;
    ErasePlaced(s);
    EraseKept(s);
  }

  lemma ErasePlaced<Id>(s: Sys<Id>)
    requires Inv(s) && s.pc.Erasing?
    ensures var s' := Do(s, Erase);
      Placed(s'.queue, s'.number, s'.pending) && AnswersFit(s'.answers, s'.number, s'.heard)
  {
    hide Cookie, LastAnswer, Ticket, Next, Kept, ClientsFit, Numbered;
  }

  lemma EraseKept<Id>(s: Sys<Id>)
    requires Inv(s) && s.pc.Erasing? && |s.number| <= WRAP
    ensures Kept(Do(s, Erase).number, Do(s, Erase).pending, Do(s, Erase).answers, Do(s, Erase).pc)
  {
    hide Cookie, LastAnswer, Ticket, Next, Placed, AnswersFit, ClientsFit, Numbered, Pending;
    ErasePends(s);
  }

  lemma ErasePends<Id>(s: Sys<Id>)
    requires Inv(s) && s.pc.Erasing? && |s.number| <= WRAP
    ensures var s' := Do(s, Erase);
      forall id :: id in s.number ==>
        (Pending(s'.number, s'.pending, id) <==> Pending(s.number, s.pending, id) && id != s.pc.id)
  {
    hide Cookie, Ticket, Next, LastAnswer, AnswersFit, ClientsFit, Kept;
    var s' := Do(s, Erase);
    forall id | id in s.number
      ensures Pending(s'.number, s'.pending, id) <==> Pending(s.number, s.pending, id) && id != s.pc.id
    {
      if Given(s.number, id) == s.pc.cookie {
        GivenInjective(s, id, s.pc.id);
      }
    }
  }

  /** Steps that only move the worker, set the flag, or hear something of no use. */
  lemma MoveKeeps<Id>(s: Sys<Id>, s': Sys<Id>, extra: seq<Reply>)
    requires Inv(s) && s' == s.(pc := s'.pc, stop := s'.stop, heard := s.heard + extra)
    requires s'.pc == s.pc || !(s.pc.Notifying? || s.pc.Erasing? || s'.pc.Notifying? || s'.pc.Erasing?)
    requires s'.pc.Done? ==> s'.stop && s.pending == map[]
    ensures Inv(s')
  {
    hide Cookie, Ticket, Next, LastAnswer, Numbered, Placed, Answered, Given;
    assert forall reply :: reply in s.heard ==> reply in s'.heard;
  }

  lemma ExecuteKeeps<Id>(s: Sys<Id>, id: Id)
    requires Inv(s) && Enabled(s, Execute(id))
    ensures Inv(Do(s, Execute(id)))
  {
    hide Placed, Numbered, AnswersFit, ClientsFit, Kept, WorkerFits;
    ExecutePlaces(s, id);
  }

  lemma ExecutePlaces<Id>(s: Sys<Id>, id: Id)
    requires Placed(s.queue, s.number, s.pending) && Enabled(s, Execute(id))
    ensures Placed(Do(s, Execute(id)).queue, Do(s, Execute(id)).number, Do(s, Execute(id)).pending)
  {
    hide Cookie, Ticket, Next;
  }

  lemma ReturnKeeps<Id>(s: Sys<Id>, id: Id)
    requires Inv(s) && Enabled(s, Return(id))
    ensures Inv(Do(s, Return(id)))
  {
    hide Cookie, Ticket, Next, LastAnswer, Placed, Numbered, AnswersFit, Kept, WorkerFits;
  }

  lemma NotifyKeeps<Id>(s: Sys<Id>)
    requires Inv(s) && s.pc.Notifying?
    ensures Inv(Do(s, Notify))
  {
    hide Cookie, LastAnswer, Ticket, Next, Placed, Numbered, AnswersFit;
  }

  lemma StepKeeps<Id>(s: Sys<Id>, step: Step<Id>)
    requires Inv(s) && Enabled(s, step) && |Do(s, step).number| <= WRAP
    ensures Inv(Do(s, step))
  {
    hide Cookie, Ticket, Next, LastAnswer, Inv, Answered;
    match step
    case Execute(id) => ExecuteKeeps(s, id);
    case Return(id) => ReturnKeeps(s, id);
    case Notify => NotifyKeeps(s);
    case Erase => EraseKeeps(s);
    case TryPop =>
      if s.queue != [] {
        Popped(s);
        PopKeeps(s);
      } else {
        MoveKeeps(s, Do(s, step), []);
      }
    case Receive(reply) =>
      if reply.None? {
        MoveKeeps(s, Do(s, step), []);
      } else if reply.value.cookie in s.pending {
        ReceiveKeeps(s, reply.value);
      } else {
        MoveKeeps(s, Do(s, step), [reply.value]);
      }
    case _ =>
      assert s.heard + [] == s.heard;
      WorkerKnows(s);
      MoveKeeps(s, Do(s, step), []);
  }

  lemma WorkerKnows<Id>(s: Sys<Id>)
    requires Inv(s)
    ensures s.pc.Done? ==> s.stop && s.pending == map[]
  {
  }

  lemma Popped<Id>(s: Sys<Id>)
    requires Inv(s) && s.pc.Popping? && s.queue != []
    ensures |Do(s, TryPop).number| == |s.number| + 1
  {
    hide Cookie;
    assert s.queue[0] in s.queue;
  }

  // ----- whole runs -----

  ghost predicate Legal<Id>(s: Sys<Id>, run: seq<Step<Id>>)
    decreases |run|
  {
    run == [] || (Enabled(s, run[0]) && Legal(Do(s, run[0]), run[1..]))
  }

  ghost function After<Id>(s: Sys<Id>, run: seq<Step<Id>>): Sys<Id>
    requires Legal(s, run)
    decreases |run|
  {
    if run == [] then s else After(Do(s, run[0]), run[1..])
  }

  lemma {:induction false} MorePopped<Id>(s: Sys<Id>, run: seq<Step<Id>>)
    requires Legal(s, run) && Inv(s)
    ensures |After(s, run).number| >= |s.number|
    ensures |After(s, run).number| <= WRAP ==> Inv(After(s, run))
    decreases |run|
  {
    hide Enabled, Do, Inv;
    if run != [] {
      StepPops(s, run[0]);
      if |Do(s, run[0]).number| <= WRAP {
        StepKeeps(s, run[0]);
        MorePopped(Do(s, run[0]), run[1..]);
      } else {
        PopsOn(Do(s, run[0]), run[1..]);
      }
    }
  }

  lemma StepPops<Id>(s: Sys<Id>, step: Step<Id>)
    requires Enabled(s, step)
    ensures |Do(s, step).number| >= |s.number|
  {
    if step.TryPop? && s.queue != [] {
      var m := s.number[s.queue[0] := |s.number| + 1];
      assert s.queue[0] in s.number ==> m.Keys == s.number.Keys;
      assert |m.Keys| == |m| && |s.number.Keys| == |s.number|;
    }
  }

  lemma {:induction false} PopsOn<Id>(s: Sys<Id>, run: seq<Step<Id>>)
    requires Legal(s, run)
    ensures |After(s, run).number| >= |s.number|
    decreases |run|
  {
    hide Enabled, Do;
    if run != [] {
      StepPops(s, run[0]);
      PopsOn(Do(s, run[0]), run[1..]);
    }
  }

  /** In every interleaving of clients, worker and a server that may reorder, repeat or invent
      replies, up to the wrap-around of the counter: cookies are distinct; a request is
      answered at most once, by a reply that the server sent with its cookie; a popped request
      is pending or answered; and the worker leaves its loop with nothing pending. */
  lemma EveryRunIsSafe<Id>(run: seq<Step<Id>>)
    requires Legal(Start(), run) && |After(Start(), run).number| <= WRAP
    ensures var s := After(Start(), run);
      && (forall id, jd :: id in s.number && jd in s.number && id != jd ==> Given(s.number, id) != Given(s.number, jd))
      && (forall j, k :: 0 <= j < k < |s.answers| ==> s.answers[j].0 != s.answers[k].0)
      && (forall k :: 0 <= k < |s.answers| ==>
            && s.answers[k].0 in s.number && s.answers[k].1 in s.heard
            && s.answers[k].1.cookie == Given(s.number, s.answers[k].0))
      && (forall id :: id in s.number ==> Pending(s.number, s.pending, id) || Answered(s.answers, id))
      && (forall id :: id in s.number && !InHand(s.pc, id) ==>
            !(Pending(s.number, s.pending, id) && Answered(s.answers, id)))
      && (s.pc.Done? ==> forall id :: id in s.number ==> Answered(s.answers, id) && id in s.notified)
      && (forall id :: id in s.returned ==> id in s.number && s.returned[id].cookie == Given(s.number, id))
  {
    hide Cookie, Legal, After, LastAnswer;
    var s: Sys<Id> := Start();
    StartIsFine(s);
    MorePopped(s, run);
    s := After(s, run);
    forall id, jd | id in s.number && jd in s.number && id != jd ensures Given(s.number, id) != Given(s.number, jd) {
      if Given(s.number, id) == Given(s.number, jd) {
        GivenInjective(s, id, jd);
      }
    }
    forall id | id in s.returned ensures id in s.number && s.returned[id].cookie == Given(s.number, id) {
      AnswerOf(s.answers, id);
    }
  }

  lemma StartIsFine<Id>(s: Sys<Id>)
    requires s == Start()
    ensures Inv(s)
  {
  }

  /** The worker never touches a request whose client is back: the request lives on the stack
      of `execute`. */
  lemma NoUseAfterReturn<Id>(s: Sys<Id>, step: Step<Id>)
    requires Inv(s) && Enabled(s, step)
    ensures Uses(s, step) !! s.returned.Keys
  {
    hide Cookie, Ticket, Next, LastAnswer, Numbered, AnswersFit;
    if step.TryPop? && s.queue != [] {
      assert s.queue[0] in s.queue;
    }
  }

  /** Popping keeps every popped request pending or answered exactly if the next cookie is not
      in use; so it does until 2^64 requests were popped, and then a request that waited that
      long is lost. */
  lemma PopKeepsExactly<Id>(s: Sys<Id>)
    requires Inv(s) && s.pc.Popping? && s.queue != []
    ensures Cookie(Next(s.counter)) !in s.pending <==>
      forall id :: id in Do(s, TryPop).number ==>
        Pending(Do(s, TryPop).number, Do(s, TryPop).pending, id) || Answered(s.answers, id)
    ensures |s.number| < WRAP ==> Cookie(Next(s.counter)) !in s.pending
  {
    hide Cookie, Ticket, Next, LastAnswer, AnswersFit, ClientsFit;
    var c := Cookie(Next(s.counter));
    var s' := Do(s, TryPop);
    assert s.queue[0] in s.queue;
    if |s.number| < WRAP {
      FreshCookie(s);
    }
    if c in s.pending {
      OverwrittenIsLost(s);
    } else {
      PopPending(s);
    }
  }

  lemma PopPending<Id>(s: Sys<Id>)
    requires Inv(s) && s.pc.Popping? && s.queue != [] && Cookie(Next(s.counter)) !in s.pending
    ensures forall id :: id in Do(s, TryPop).number ==>
      Pending(Do(s, TryPop).number, Do(s, TryPop).pending, id) || Answered(s.answers, id)
  {
    hide Cookie, Ticket, Next, LastAnswer, AnswersFit, ClientsFit;
    var s' := Do(s, TryPop);
    var n := |s.number|;
    assert s.queue[0] in s.queue;
    NextNumber(n, s.counter);
    forall id | id in s'.number ensures Pending(s'.number, s'.pending, id) || Answered(s.answers, id) {
      if id != s.queue[0] {
        assert Given(s'.number, id) == Given(s.number, id);
      }
    }
  }

  lemma OverwrittenIsLost<Id>(s: Sys<Id>)
    requires Inv(s) && s.pc.Popping? && s.queue != [] && Cookie(Next(s.counter)) in s.pending
    ensures var id := s.pending[Cookie(Next(s.counter))];
      && id in Do(s, TryPop).number
      && !Pending(Do(s, TryPop).number, Do(s, TryPop).pending, id) && !Answered(s.answers, id)
  {
    hide Cookie, Ticket, Next, LastAnswer, AnswersFit, ClientsFit;
    var c := Cookie(Next(s.counter));
    var id := s.pending[c];
    assert s.queue[0] in s.queue;
    assert Pending(s.number, s.pending, id) && id != s.queue[0];
  }

  // ----- the queue -----

  /** Requests wait in a queue, each once, and are not yet numbered. */
  ghost predicate Queued<Id>(queue: seq<Id>, number: map<Id, nat>) {
    && (forall j, k :: 0 <= j < k < |queue| ==> queue[j] != queue[k])
    && (forall id :: id in queue ==> id !in number)
  }

  /** Requests are popped in the order in which they were queued: after any steps the first `k`
      of the queue have the next `k` numbers, and the others are at the head of the queue. */
  lemma {:induction false} FirstInFirstOut<Id>(s: Sys<Id>, run: seq<Step<Id>>) returns (k: nat)
    requires Legal(s, run) && Queued(s.queue, s.number)
    ensures var t := After(s, run);
      && k <= |s.queue| && s.queue[k..] <= t.queue && Queued(t.queue, t.number)
      && (forall i :: 0 <= i < k ==> s.queue[i] in t.number && t.number[s.queue[i]] == |s.number| + 1 + i)
      && (forall id :: id in s.number ==> id in t.number && t.number[id] == s.number[id])
      && (k < |s.queue| ==> |t.number| == |s.number| + k)
    decreases |run|
  {
    hide Do, Enabled;
    if run == [] {
      k := 0;
      assert s.queue[0..] == s.queue;
    } else {
      var s' := Do(s, run[0]);
      QueueStep(s, run[0]);
      k := FirstInFirstOut(s', run[1..]);
      if run[0].TryPop? && s.queue != [] {
        k := k + 1;
        assert s'.queue[k - 1..] == s.queue[k..];
        assert forall i :: 0 <= i < k - 1 ==> s'.queue[i] == s.queue[i + 1];
      } else if run[0].Execute? {
        var n := |s.queue|;
        if k > n {
          k := n;
          assert s.queue[k..] == [];
        } else {
          assert s'.queue[k..] == s.queue[k..] + [run[0].id];
        }
        assert forall i :: 0 <= i < n ==> s'.queue[i] == s.queue[i];
      }
    }
  }

  lemma QueueStep<Id>(s: Sys<Id>, step: Step<Id>)
    requires Enabled(s, step) && Queued(s.queue, s.number)
    ensures var s' := Do(s, step);
      && Queued(s'.queue, s'.number)
      && (step.Execute? ==> s'.queue == s.queue + [step.id] && s'.number == s.number)
      && (step.TryPop? && s.queue != [] ==>
            && s'.queue == s.queue[1..] && s'.number == s.number[s.queue[0] := |s.number| + 1]
            && |s'.number| == |s.number| + 1 && s.queue[0] !in s.number)
      && (!step.Execute? && !(step.TryPop? && s.queue != []) ==> s'.queue == s.queue && s'.number == s.number)
  {
    hide Cookie, Next, LastAnswer;
    if step.TryPop? && s.queue != [] {
      assert s.queue[0] in s.queue;
      assert s.queue == [s.queue[0]] + s.queue[1..];
    }
  }

  // ----- the loss happens -----

  lemma NoSteps<Id>(s: Sys<Id>)
    ensures Legal(s, []) && After(s, []) == s
  {
  }

  /** One more step at the end of a run. */
  lemma {:induction false} OneStep<Id>(s: Sys<Id>, run: seq<Step<Id>>, step: Step<Id>) returns (longer: seq<Step<Id>>)
    requires Legal(s, run) && Enabled(After(s, run), step)
    ensures longer == run + [step] && Legal(s, longer) && After(s, longer) == Do(After(s, run), step)
    decreases |run|
  {
    hide Enabled, Do;
    longer := run + [step];
    if run == [] {
      assert longer[1..] == [];
    } else {
      var rest := OneStep(Do(s, run[0]), run[1..], step);
      assert longer[1..] == rest;
    }
  }

  /** The first of `n` requests still waits, and the others are answered. */
  ghost predicate FirstWaits(s: Sys<nat>, n: nat) {
    && Inv(s) && s.pc.Top? && s.queue == [] && !s.stop && s.pending == map[Cookie(1) := 0]
    && |s.number| == n && forall id: nat :: id in s.number <==> id < n
  }

  /** A request is queued while the worker has nothing else to do. */
  ghost predicate Offered(s: Sys<nat>, n: nat, pending: map<string, nat>) {
    && Inv(s) && s.pc == Popping(true) && s.queue == [n] && !s.stop && s.pending == pending
    && |s.number| == n && forall id: nat :: id in s.number <==> id < n
  }

  lemma {:induction false} Offer(before: seq<Step<nat>>, n: nat) returns (run: seq<Step<nat>>)
    requires Legal(Start(), before) && n <= WRAP
    requires var s := After(Start(), before);
      Inv(s) && s.pc.Top? && s.queue == [] && !s.stop && |s.number| == n && forall id: nat :: id in s.number <==> id < n
    ensures Legal(Start(), run) && Offered(After(Start(), run), n, After(Start(), before).pending)
  {
    hide Legal, After, Inv, Cookie;
    var s := After(Start(), before);
    StepKeeps(s, Execute(n));
    run := OneStep(Start(), before, Execute(n));
    s := After(Start(), run);
    StepKeeps(s, Check);
    run := OneStep(Start(), run, Check);
    s := After(Start(), run);
    StepKeeps(s, Wake(false, true, true));
    run := OneStep(Start(), run, Wake(false, true, true));
  }

  /** The offered request is popped and gets its own cookie. */
  lemma OfferPopped(s: Sys<nat>, n: nat, pending: map<string, nat>)
    requires Offered(s, n, pending) && n < WRAP
    ensures var s' := Do(s, TryPop);
      && Inv(s') && s'.pc.Receiving? && s'.queue == [] && !s'.stop
      && s'.pending == pending[Cookie(Ticket(n + 1)) := n] && Cookie(Ticket(n + 1)) !in pending
      && |s'.number| == n + 1 && forall id: nat :: id in s'.number <==> id < n + 1
  {
    hide Inv, Cookie, Ticket, Next;
    InvParts(s);
    FreshCookie(s);
    Popped(s);
    StepKeeps(s, TryPop);
  }

  lemma InvParts<Id>(s: Sys<Id>)
    requires Inv(s)
    ensures Numbered(s.number, s.counter) && Placed(s.queue, s.number, s.pending)
  {
  }

  /** It is answered at once, if it is not the first one. */
  lemma {:induction false} OfferAnswered(before: seq<Step<nat>>, n: nat) returns (run: seq<Step<nat>>)
    requires Legal(Start(), before) && 1 <= n < WRAP && Offered(After(Start(), before), n, map[Cookie(1) := 0])
    ensures Legal(Start(), run) && FirstWaits(After(Start(), run), n + 1)
  {
    hide Legal, After, Inv, Cookie, Ticket;
    var s := After(Start(), before);
    OfferPopped(s, n, map[Cookie(1) := 0]);
    run := OneStep(Start(), before, TryPop);
    var c := Cookie(Ticket(n + 1));
    s := After(Start(), run);
    StepKeeps(s, Receive(Some(Reply(c, ""))));
    run := OneStep(Start(), run, Receive(Some(Reply(c, ""))));
    s := After(Start(), run);
    StepKeeps(s, Notify);
    run := OneStep(Start(), run, Notify);
    s := After(Start(), run);
    StepKeeps(s, Erase);
    run := OneStep(Start(), run, Erase);
    assert map[Cookie(1) := 0][c := n] - {c} == map[Cookie(1) := 0];
  }

  lemma {:induction false} WaitsFor(n: nat) returns (run: seq<Step<nat>>)
    requires 1 <= n <= WRAP
    ensures Legal(Start(), run) && FirstWaits(After(Start(), run), n)
    decreases n
  {
    hide Legal, After, Inv, Cookie, Ticket;
    if n == 1 {
      NoSteps<nat>(Start());
      StartIsFine<nat>(Start());
      run := Offer([], 0);
      var s := After(Start(), run);
      OfferPopped(s, 0, map[]);
      WrapSmall(1);
      run := OneStep(Start(), run, TryPop);
      s := After(Start(), run);
      StepKeeps(s, Receive(None));
      run := OneStep(Start(), run, Receive(None));
    } else {
      run := WaitsFor(n - 1);
      run := Offer(run, n - 1);
      run := OfferAnswered(run, n - 1);
    }
  }

  /** There is a run in which a request that waits while 2^64 others are answered is lost:
      when the counter has wrapped around, another one gets its cookie, and it is neither
      pending nor answered. */
  lemma WaiterIsLost() returns (run: seq<Step<nat>>)
    ensures Legal(Start(), run)
    ensures var s := After(Start(), run);
      0 in s.number && !Pending(s.number, s.pending, 0) && !Answered(s.answers, 0)
  {
    hide Legal, After, Inv, Cookie, Pending, Answered;
    run := WaitsFor(WRAP);
    run := Offer(run, WRAP);
    var s := After(Start(), run);
    InvParts(s);
    assert Next(s.counter) == 1;
    OverwrittenIsLost(s);
    run := OneStep(Start(), run, TryPop);
  }

  /** After the worker has left, nothing more is answered, whatever is still queued. */
  lemma {:induction false} NothingAfterDone<Id>(s: Sys<Id>, run: seq<Step<Id>>)
    requires s.pc.Done? && Legal(s, run)
    ensures var t := After(s, run); t.pc.Done? && t.answers == s.answers && t.number == s.number && s.queue <= t.queue
    decreases |run|
  {
    hide LastAnswer, Cookie;
    if run != [] {
      NothingAfterDone(Do(s, run[0]), run[1..]);
    }
  }

  // ----- a stopped worker can finish -----

  /** How far the worker is from answering or leaving. */
  function Rank<Id>(s: Sys<Id>): nat {
    match s.pc
    case Popping(_) => 9
    case Receiving => if s.pending == map[] then 8 else 5
    case Top => if s.pending == map[] then 2 else 7
    case Polling => if s.pending == map[] then 1 else 6
    case Notifying(_, _) => 4
    case Erasing(_, _) => 3
    case Done => 0
  }

  /** The next step towards the end, with a server that answers. */
  ghost function Finishing<Id>(s: Sys<Id>): (step: Step<Id>)
    requires !s.pc.Done?
    ensures Enabled(s, step)
  {
    match s.pc
    case Top => Check
    case Polling => Wake(false, false, true)
    case Popping(_) => TryPop
    case Receiving =>
      if s.pending == map[] then Receive(None)
      else
        var c :| c in s.pending;
        Receive(Some(Reply(c, "")))
    case Notifying(_, _) => Notify
    case Erasing(_, _) => Erase
  }

  /** Told to stop, the worker leaves its loop if the server answers what is pending: there is
      a run without any client's help that ends the loop with every popped request answered. */
  lemma {:induction false} CanFinish<Id>(s: Sys<Id>) returns (run: seq<Step<Id>>)
    requires Inv(s) && s.stop && |s.number| + |s.queue| <= WRAP
    ensures Legal(s, run) && After(s, run).pc.Done?
    ensures forall id :: id in After(s, run).number ==> Answered(After(s, run).answers, id)
    decreases 2 * |s.queue| + |s.pending|, Rank(s)
  {
    hide Cookie, Ticket, Next, LastAnswer, Inv, Do, Enabled;
    if s.pc.Done? {
      run := [];
      FinishedIsAnswered(s);
    } else {
      var step := Finishing(s);
      FinishingStep(s);
      StepKeeps(s, step);
      var rest := CanFinish(Do(s, step));
      run := [step] + rest;
      assert run[1..] == rest;
    }
  }

  lemma FinishedIsAnswered<Id>(s: Sys<Id>)
    requires Inv(s) && s.pc.Done?
    ensures forall id :: id in s.number ==> Answered(s.answers, id)
  {
    hide Cookie, Ticket, Next, LastAnswer;
  }

  lemma FinishingStep<Id>(s: Sys<Id>)
    requires Inv(s) && s.stop && !s.pc.Done? && |s.number| + |s.queue| <= WRAP
    ensures var s' := Do(s, Finishing(s));
      && s'.stop && |s'.number| + |s'.queue| <= WRAP
      && (2 * |s'.queue| + |s'.pending| < 2 * |s.queue| + |s.pending|
          || (2 * |s'.queue| + |s'.pending| == 2 * |s.queue| + |s.pending| && Rank(s') < Rank(s)))
  {
    hide Cookie, Ticket, Next, LastAnswer, Inv;
    match s.pc {
      case Popping(_) => PoppedOne(s);
      case Erasing(_, _) => ErasedOne(s);
      case Receiving =>
      case _ =>
    }
  }

  lemma PoppedOne<Id>(s: Sys<Id>)
    requires Inv(s) && s.pc.Popping?
    ensures var s' := Do(s, TryPop);
      && s'.stop == s.stop && |s'.number| + |s'.queue| == |s.number| + |s.queue|
      && !s'.pc.Popping?
      && if s.queue == [] then s'.queue == [] && s'.pending == s.pending && Rank(s') < Rank(s)
         else |s'.queue| == |s.queue| - 1 && |s'.pending| <= |s.pending| + 1
  {
    hide Cookie, Ticket, Next, LastAnswer, Inv;
    if s.queue != [] {
      Popped(s);
      PendingGrows(s.pending, Cookie(Next(s.counter)), s.queue[0]);
    }
  }

  lemma PendingGrows<K, V>(m: map<K, V>, k: K, v: V)
    ensures |m[k := v]| <= |m| + 1
  {
    assert k in m ==> m[k := v].Keys == m.Keys;
    assert |m[k := v].Keys| == |m[k := v]| && |m.Keys| == |m|;
  }

  lemma ErasedOne<Id>(s: Sys<Id>)
    requires Inv(s) && s.pc.Erasing?
    ensures |Do(s, Erase).pending| < |s.pending|
  {
    hide Cookie, Ticket, Next, LastAnswer;
    assert Pending(s.number, s.pending, s.pc.id);
    var m := s.pending - {s.pc.cookie};
    assert m.Keys == s.pending.Keys - {s.pc.cookie};
    assert |m.Keys| == |m| && |s.pending.Keys| == |s.pending|;
  }
}
