/** Requests of the frontend and answers of the backend over one pair of streams. Answers carry no request
    number: the frontend gives each to the oldest request it remembers. Tickets number the requests here so
    that it can be stated which request an answer was made for. */
module AnswerQueue {
  import opened Wrappers

  datatype Kind = CreatedInbox | PublicHalfEntry | EncodedMessage | ContactId | PublicHalves | StateDump
                | PendingOperations

  datatype Command =
    | NewInbox | SetAutosavePreference | SetInboxLabel | DeleteInbox | GetPublicHalfEntry | EncodeMessage
    | SaveMessage | UnsaveMessage | NewContact | SetContactLabel | SetContactPublicHalf | DeleteContact
    | LookupPublicHalf | RequestStateDump
    | DumpPendingProofOfWorkOperations | Submit | CancelSubmitOperation

  /** What the frontend waits for after sending a command. */
  function SoughtFor(command: Command): Option<Kind> {
    match command
    case RequestStateDump => Some(StateDump)
    case DumpPendingProofOfWorkOperations => Some(PendingOperations)
    case NewInbox => Some(CreatedInbox)
    case GetPublicHalfEntry => Some(PublicHalfEntry)
    case EncodeMessage => Some(EncodedMessage)
    case NewContact => Some(ContactId)
    case SetContactPublicHalf => Some(ContactId)
    case LookupPublicHalf => Some(PublicHalves)
    case _ => None
  }

  /** What the backend prints when it is done with a command. */
  function AnsweredWith(command: Command): Option<Kind> {
    match command
    case NewInbox => Some(CreatedInbox)
    case SetAutosavePreference => None
    case SetInboxLabel => None
    case DeleteInbox => None
    case GetPublicHalfEntry => Some(PublicHalfEntry)
    case EncodeMessage => Some(EncodedMessage)
    case SaveMessage => None
    case UnsaveMessage => None
    case NewContact => Some(ContactId)
    case SetContactLabel => None
    case SetContactPublicHalf => Some(ContactId)
    case DeleteContact => None
    case LookupPublicHalf => Some(PublicHalves)
    case RequestStateDump => Some(StateDump)
    case DumpPendingProofOfWorkOperations => Some(PendingOperations)
    case Submit => None
    case CancelSubmitOperation => None
  }

  datatype Request = Request(kind: Kind, ticket: nat)

  datatype Line = Line(command: Command, ticket: nat)

  /** A line of standard output: an answer, or something that happened in between. */
  datatype Output = Answer(kind: Kind, ticket: nat) | Event(text: string)

  /** Answers of the second kind of command have a queue of their own. */
  datatype Queue = Main | Pending

  function QueueOf(kind: Kind): Queue {
    if kind.PendingOperations? then Pending else Main
  }

  /** `fulfilled` pairs the request that was resolved with the one the answer was made for; `unreachable`
      counts the times the frontend got to a line it calls unreachable. */
  datatype Frontend = Frontend(
    queue: seq<Request>, pending: seq<Request>, fulfilled: seq<(nat, nat)>, delivered: seq<string>, unreachable: nat)
  {
    function Waiting(q: Queue): seq<Request> {
      match q
      case Main => queue
      case Pending => pending
    }

    function WithWaiting(q: Queue, requests: seq<Request>): Frontend {
      match q
      case Main => this.(queue := requests)
      case Pending => this.(pending := requests)
    }
  }

  function Pushed(f: Frontend, command: Command, ticket: nat): Frontend {
    match SoughtFor(command)
    case Some(kind) => f.WithWaiting(QueueOf(kind), f.Waiting(QueueOf(kind)) + [Request(kind, ticket)])
    case None => f
  }

  function Parsed(f: Frontend, output: Output): Frontend {
    match output
    case Event(text) => f.(delivered := f.delivered + [text])
    case Answer(kind, ticket) =>
      var waiting := f.Waiting(QueueOf(kind));
      if waiting == [] then
        f.(unreachable := f.unreachable + 1)
      else
        var shifted := f.WithWaiting(QueueOf(kind), waiting[1..]);
        if waiting[0].kind == kind then
          shifted.(fulfilled := f.fulfilled + [(waiting[0].ticket, ticket)])
        else
          shifted.(unreachable := f.unreachable + 1)
  }

  /** The frontend's end: two queues that requests are pushed onto and answers shift from. */
  class Contract {
    var queue: seq<Request>
    var pendingOperationsRequestQueue: seq<Request>
    var fulfilled: seq<(nat, nat)>
    var delivered: seq<string>
    var unreachable: nat

    ghost function View(): Frontend
      reads this
    {
      Frontend(queue, pendingOperationsRequestQueue, fulfilled, delivered, unreachable)
    }

    constructor ()
      ensures View() == Frontend([], [], [], [], 0)
    {
      queue, pendingOperationsRequestQueue, fulfilled, delivered, unreachable := [], [], [], [], 0;
    }

    /** Sends a command and remembers, at once, what is to come back for it. */
    method Send(command: Command, ticket: nat) returns (line: Line)
      modifies this
      ensures line == Line(command, ticket)
      ensures View() == Pushed(old(View()), command, ticket)
    {
      line := Line(command, ticket);
      match SoughtFor(command) {
        case Some(kind) =>
          if kind.PendingOperations? {
            pendingOperationsRequestQueue := pendingOperationsRequestQueue + [Request(kind, ticket)];
          } else {
            queue := queue + [Request(kind, ticket)];
          }
        case None =>
      }
    }

    method Parse(output: Output)
      modifies this
      ensures View() == Parsed(old(View()), output)
    {
      match output {
        case Event(text) =>
          delivered := delivered + [text];
        case Answer(kind, ticket) =>
          var answerRequest: Option<Request> := None;
          if kind.PendingOperations? {
            if pendingOperationsRequestQueue != [] {
              answerRequest := Some(pendingOperationsRequestQueue[0]);
              pendingOperationsRequestQueue := pendingOperationsRequestQueue[1..];
            }
          } else {
            if queue != [] {
              answerRequest := Some(queue[0]);
              queue := queue[1..];
            }
          }
          if answerRequest.Some? && answerRequest.value.kind == kind {
            fulfilled := fulfilled + [(answerRequest.value.ticket, ticket)];
          } else {
            unreachable := unreachable + 1;
          }
      }
    }
  }

  /** What is waited for is what comes back, nothing for the commands listed here; and what comes back tells the
      commands apart, except that both ways of setting a contact's keys return its id. */
  lemma KindsExactly(command: Command, other: Command)
    ensures SoughtFor(command) == AnsweredWith(command)
    ensures SoughtFor(command).None? <==>
            command in {SetAutosavePreference, SetInboxLabel, DeleteInbox, SaveMessage, UnsaveMessage,
                        SetContactLabel, DeleteContact, Submit, CancelSubmitOperation}
    ensures SoughtFor(command).Some? && SoughtFor(other) == SoughtFor(command) ==>
              command == other || {command, other} == {NewContact, SetContactPublicHalf}
    ensures SoughtFor(command) == Some(PendingOperations) <==> command == DumpPendingProofOfWorkOperations
  {
  }

  // ---------------------------------------------------------------- both ends together

  /** `current` is the command the backend is busy with; it reads no other until that one is done, and `served` are
      those that are done. Once `aborted`, it reads and answers nothing more. */
  datatype System = System(
    frontend: Frontend, next: nat, stdin: seq<Line>, current: Option<Line>, served: seq<Line>, stdout: seq<Output>,
    aborted: bool)

  datatype Step =
    | Issue(command: Command)
    | Read
    | Finish
    | Abort
    | Happen(text: string)
    | Deliver

  predicate Enabled(s: System, step: Step) {
    match step
    case Issue(_) => true
    case Read => !s.aborted && s.current.None? && s.stdin != []
    case Finish => !s.aborted && s.current.Some?
    case Abort => !s.aborted && s.current.Some?
    case Happen(_) => true
    case Deliver => s.stdout != []
  }

  function Apply(s: System, step: Step): System
    requires Enabled(s, step)
  {
    match step
    case Issue(command) =>
      s.(frontend := Pushed(s.frontend, command, s.next),
         stdin := s.stdin + [Line(command, s.next)],
         next := s.next + 1)
    case Read => s.(current := Some(s.stdin[0]), stdin := s.stdin[1..])
    case Finish =>
      var line := s.current.value;
      s.(current := None,
         served := s.served + [line],
         stdout := s.stdout +
         (match AnsweredWith(line.command)
          case Some(kind) => [Answer(kind, line.ticket)]
          case None => []))
    case Abort => s.(aborted := true)
    case Happen(text) => s.(stdout := s.stdout + [Event(text)])
    case Deliver => s.(frontend := Parsed(s.frontend, s.stdout[0]), stdout := s.stdout[1..])
  }

  const START := System(Frontend([], [], [], [], 0), 0, [], None, [], [], false)

  ghost predicate Run(s: System, steps: seq<Step>, t: System)
    decreases |steps|
  {
    if steps == [] then s == t else Enabled(s, steps[0]) && Run(Apply(s, steps[0]), steps[1..], t)
  }

  // ---------------------------------------------------------------- what is owed

  /** The answer for queue `q` that a line of output is, if it is one. */
  function AnswerIn(output: Output, q: Queue): seq<Request> {
    if output.Answer? && QueueOf(output.kind) == q then [Request(output.kind, output.ticket)] else []
  }

  /** The answers for queue `q` that are on their way. */
  function InTransit(outputs: seq<Output>, q: Queue): seq<Request> {
    if outputs == [] then [] else AnswerIn(outputs[0], q) + InTransit(outputs[1..], q)
  }

  /** The answers for queue `q` that the commands not yet done will get. */
  function Owed(lines: seq<Line>, q: Queue): seq<Request> {
    if lines == [] then
      []
    else
      OwedFor(lines[0], q) + Owed(lines[1..], q)
  }

  function OwedFor(line: Line, q: Queue): seq<Request> {
    match AnsweredWith(line.command)
    case Some(kind) => if QueueOf(kind) == q then [Request(kind, line.ticket)] else []
    case None => []
  }

  function Expected(s: System, q: Queue): seq<Request> {
    InTransit(s.stdout, q) + (if s.current.Some? then OwedFor(s.current.value, q) else []) + Owed(s.stdin, q)
  }

  /** The frontend waits for exactly the answers in flight followed by those still owed, in that order; every
      answer so far has resolved the request it was made for. */
  ghost predicate InStep(s: System) {
    && (forall q :: s.frontend.Waiting(q) == Expected(s, q))
    && s.frontend.unreachable == 0
    && (forall p :: p in s.frontend.fulfilled ==> p.0 == p.1)
  }

  lemma {:induction false} InTransitSnoc(outputs: seq<Output>, output: Output, q: Queue)
    ensures InTransit(outputs + [output], q) == InTransit(outputs, q) + AnswerIn(output, q)
  {
    hide AnswerIn;
    if outputs == [] {
      assert outputs + [output] == [output] && [output][1..] == [];
    } else {
      InTransitSnoc(outputs[1..], output, q);
      assert (outputs + [output])[1..] == outputs[1..] + [output];
    }
  }

  lemma {:induction false} OwedSnoc(lines: seq<Line>, line: Line, q: Queue)
    ensures Owed(lines + [line], q) == Owed(lines, q) + OwedFor(line, q)
  {
    hide OwedFor;
    if lines == [] {
      assert lines + [line] == [line];
    } else {
      OwedSnoc(lines[1..], line, q);
      assert (lines + [line])[1..] == lines[1..] + [line];
    }
  }

  /** The frontend comes to wait for what the backend comes to owe. */
  lemma IssueIsRemembered(f: Frontend, command: Command, ticket: nat, q: Queue)
    ensures Pushed(f, command, ticket).Waiting(q) == f.Waiting(q) + OwedFor(Line(command, ticket), q)
    ensures Pushed(f, command, ticket).unreachable == f.unreachable
    ensures Pushed(f, command, ticket).fulfilled == f.fulfilled
  {
  }

  lemma IssueKeepsInStep(s: System, command: Command)
    requires InStep(s)
    ensures InStep(Apply(s, Issue(command)))
  {
    hide InTransit, OwedFor, Owed, Pushed;
    var t := Apply(s, Issue(command));
    forall q ensures t.frontend.Waiting(q) == Expected(t, q) {
      OwedSnoc(s.stdin, Line(command, s.next), q);
      IssueIsRemembered(s.frontend, command, s.next, q);
      assert s.frontend.Waiting(q) == Expected(s, q);
    }
    IssueIsRemembered(s.frontend, command, s.next, Main);
  }

  lemma FinishKeepsInStep(s: System)
    requires InStep(s) && Enabled(s, Finish)
    ensures InStep(Apply(s, Finish))
  {
    var t := Apply(s, Finish);
    var line := s.current.value;
    forall q ensures t.frontend.Waiting(q) == Expected(t, q) {
      assert s.frontend.Waiting(q) == Expected(s, q);
      match AnsweredWith(line.command) {
        case Some(kind) =>
          InTransitSnoc(s.stdout, Answer(kind, line.ticket), q);
        case None =>
          assert s.stdout + [] == s.stdout;
      }
    }
  }

  /** Taking the first line off the stream takes the first expected answer with it, if it is one. */
  lemma DeliveryTakesTheFirst(s: System, q: Queue)
    requires Enabled(s, Deliver)
    ensures Expected(s, q) == AnswerIn(s.stdout[0], q) + Expected(Apply(s, Deliver), q)
  {
    hide AnswerIn, OwedFor, Owed, Parsed;
  }

  lemma DeliverKeepsInStep(s: System)
    requires InStep(s) && Enabled(s, Deliver)
    ensures InStep(Apply(s, Deliver))
  {
    var output := s.stdout[0];
    DeliveryTakesTheFirst(s, Main);
    DeliveryTakesTheFirst(s, Pending);
    assert s.frontend.Waiting(Main) == Expected(s, Main);
    assert s.frontend.Waiting(Pending) == Expected(s, Pending);
    hide Expected;
    var t := Apply(s, Deliver);
    assert t.frontend == Parsed(s.frontend, output);
    forall q ensures t.frontend.Waiting(q) == Expected(t, q) {
      assert q == Main || q == Pending;
    }
  }

  lemma HappenKeepsInStep(s: System, text: string)
    requires InStep(s)
    ensures InStep(Apply(s, Happen(text)))
  {
    var t := Apply(s, Happen(text));
    forall q ensures t.frontend.Waiting(q) == Expected(t, q) {
      InTransitSnoc(s.stdout, Event(text), q);
      assert s.frontend.Waiting(q) == Expected(s, q);
    }
  }

  lemma ReadKeepsInStep(s: System)
    requires InStep(s) && Enabled(s, Read)
    ensures InStep(Apply(s, Read))
  {
    var t := Apply(s, Read);
    hide InTransit;
    forall q ensures t.frontend.Waiting(q) == Expected(t, q) {
      assert s.frontend.Waiting(q) == Expected(s, q);
    }
  }

  lemma AbortKeepsInStep(s: System)
    requires InStep(s) && Enabled(s, Abort)
    ensures InStep(Apply(s, Abort))
  {
    hide InTransit, Owed;
  }

  lemma StepKeepsInStep(s: System, step: Step)
    requires InStep(s) && Enabled(s, step)
    ensures InStep(Apply(s, step))
  {
    hide InStep, Apply;
    match step {
      case Issue(command) => IssueKeepsInStep(s, command);
      case Finish => FinishKeepsInStep(s);
      case Deliver => DeliverKeepsInStep(s);
      case Happen(text) => HappenKeepsInStep(s, text);
      case Read => ReadKeepsInStep(s);
      case Abort => AbortKeepsInStep(s);
    }
  }

  lemma {:induction false} RunStaysInStep(s: System, steps: seq<Step>, t: System)
    requires InStep(s) && Run(s, steps, t)
    ensures InStep(t)
    decreases |steps|
  {
    if steps != [] {
      StepKeepsInStep(s, steps[0]);
      RunStaysInStep(Apply(s, steps[0]), steps[1..], t);
    }
  }

  /** In every interleaving of requests, processing, asynchronous output and delivery, also when the backend
      stops in the middle of a command: no answer finds the wrong request, and each resolves the very
      request it was made for. */
  lemma AnswersMatchRequests(steps: seq<Step>, t: System)
    requires Run(START, steps, t)
    ensures t.frontend.unreachable == 0
    ensures forall p :: p in t.frontend.fulfilled ==> p.0 == p.1
    ensures forall q :: t.frontend.Waiting(q) == Expected(t, q)
  {
    assert InStep(START);
    RunStaysInStep(START, steps, t);
  }

  // ---------------------------------------------------------------- every request is accounted for

  /** The tickets that commands seeking an answer are issued with, the first ticket being `next`. */
  function Sought(next: nat, steps: seq<Step>): set<nat>
    decreases |steps|
  {
    if steps == [] then
      {}
    else if steps[0].Issue? then
      (if SoughtFor(steps[0].command).Some? then {next} else {}) + Sought(next + 1, steps[1..])
    else
      Sought(next, steps[1..])
  }

  function Tickets(requests: seq<Request>): seq<nat> {
    seq(|requests|, i requires 0 <= i < |requests| => requests[i].ticket)
  }

  function Resolved(fulfilled: seq<(nat, nat)>): seq<nat> {
    seq(|fulfilled|, i requires 0 <= i < |fulfilled| => fulfilled[i].0)
  }

  /** Every ticket that is waiting or resolved, as often as it is. */
  function Accounted(f: Frontend): multiset<nat> {
    multiset(Resolved(f.fulfilled)) + multiset(Tickets(f.queue)) + multiset(Tickets(f.pending))
  }

  /** What happened in between, as far as it has not been delivered. */
  function Texts(outputs: seq<Output>): seq<string> {
    if outputs == [] then
      []
    else
      (match outputs[0] case Event(text) => [text] case Answer(_, _) => []) + Texts(outputs[1..])
  }

  function Happened(steps: seq<Step>): seq<string> {
    if steps == [] then
      []
    else
      (match steps[0] case Happen(text) => [text] case _ => []) + Happened(steps[1..])
  }

  lemma {:induction false} TextsSnoc(outputs: seq<Output>, output: Output)
    ensures Texts(outputs + [output]) == Texts(outputs) + (if output.Event? then [output.text] else [])
  {
    if outputs == [] {
      assert outputs + [output] == [output];
    } else {
      TextsSnoc(outputs[1..], output);
      assert (outputs + [output])[1..] == outputs[1..] + [output];
    }
  }

  lemma PushingAccounts(f: Frontend, command: Command, ticket: nat)
    ensures Accounted(Pushed(f, command, ticket)) ==
            Accounted(f) + (if SoughtFor(command).Some? then multiset{ticket} else multiset{})
    ensures Pushed(f, command, ticket).delivered == f.delivered
  {
    match SoughtFor(command) {
      case Some(kind) =>
        var waiting := f.Waiting(QueueOf(kind));
        assert Tickets(waiting + [Request(kind, ticket)]) == Tickets(waiting) + [ticket];
      case None =>
    }
  }

  lemma ShiftingAccounts(requests: seq<Request>)
    requires requests != []
    ensures multiset(Tickets(requests)) == multiset{requests[0].ticket} + multiset(Tickets(requests[1..]))
  {
    assert Tickets(requests) == [requests[0].ticket] + Tickets(requests[1..]);
  }

  /** An answer of the kind that is waited for moves the oldest ticket from the waiting to the resolved ones. */
  lemma ParsingAccounts(f: Frontend, output: Output)
    requires Parsed(f, output).unreachable == f.unreachable
    ensures Accounted(Parsed(f, output)) == Accounted(f)
    ensures Parsed(f, output).delivered == f.delivered + (if output.Event? then [output.text] else [])
  {
    if output.Answer? {
      var waiting := f.Waiting(QueueOf(output.kind));
      var pair := (waiting[0].ticket, output.ticket);
      ShiftingAccounts(waiting);
      assert Resolved(f.fulfilled + [pair]) == Resolved(f.fulfilled) + [pair.0];
    }
  }

  /** One step: a ticket is added when a command that seeks an answer is issued, and none is ever lost. */
  lemma StepAccounts(s: System, step: Step)
    requires InStep(s) && Enabled(s, step)
    ensures var t := Apply(s, step);
            && Accounted(t.frontend) == Accounted(s.frontend) +
               (if step.Issue? && SoughtFor(step.command).Some? then multiset{s.next} else multiset{})
            && t.next == (if step.Issue? then s.next + 1 else s.next)
            && t.frontend.delivered + Texts(t.stdout) ==
               s.frontend.delivered + Texts(s.stdout) + (if step.Happen? then [step.text] else [])
  {
    hide Accounted, Expected, SoughtFor, AnsweredWith;
    match step {
      case Issue(command) => PushingAccounts(s.frontend, command, s.next);
      case Finish =>
        match AnsweredWith(s.current.value.command) {
          case Some(kind) => TextsSnoc(s.stdout, Answer(kind, s.current.value.ticket));
          case None => assert s.stdout + [] == s.stdout;
        }
      case Deliver =>
        DeliverKeepsInStep(s);
        ParsingAccounts(s.frontend, s.stdout[0]);
      case Happen(text) => TextsSnoc(s.stdout, Event(text));
      case _ =>
    }
  }

  lemma {:induction false} SoughtAreLater(next: nat, steps: seq<Step>)
    ensures forall x :: x in Sought(next, steps) ==> next <= x
    decreases |steps|
  {
    if steps != [] {
      SoughtAreLater(next, steps[1..]);
      SoughtAreLater(next + 1, steps[1..]);
    }
  }

  lemma SoughtOneMore(next: nat, steps: seq<Step>)
    requires steps != []
    ensures multiset(Sought(next, steps)) ==
            (if steps[0].Issue? && SoughtFor(steps[0].command).Some? then multiset{next} else multiset{}) +
            multiset(Sought(if steps[0].Issue? then next + 1 else next, steps[1..]))
  {
    SoughtAreLater(next + 1, steps[1..]);
  }

  lemma {:induction false} RunAccounts(s: System, steps: seq<Step>, t: System)
    requires InStep(s) && Run(s, steps, t)
    ensures Accounted(t.frontend) == Accounted(s.frontend) + multiset(Sought(s.next, steps))
    ensures t.frontend.delivered + Texts(t.stdout) == s.frontend.delivered + Texts(s.stdout) + Happened(steps)
    decreases |steps|
  {
    hide Accounted, InStep, Apply, Enabled, SoughtFor, Texts;
    if steps != [] {
      hide Sought;
      StepKeepsInStep(s, steps[0]);
      StepAccounts(s, steps[0]);
      RunAccounts(Apply(s, steps[0]), steps[1..], t);
      SoughtOneMore(s.next, steps);
    }
  }

  /** In every interleaving, every ticket issued with a command that seeks an answer is waiting or has been
      resolved with its own answer, and exactly once; no other ticket is either. What happened in between is
      delivered in order, as far as it has been delivered. */
  lemma EveryRequestIsAccountedFor(steps: seq<Step>, t: System)
    requires Run(START, steps, t)
    ensures Accounted(t.frontend) == multiset(Sought(0, steps))
    ensures forall p :: p in t.frontend.fulfilled ==> p.0 == p.1
    ensures t.frontend.delivered + Texts(t.stdout) == Happened(steps)
  {
    assert InStep(START);
    RunAccounts(START, steps, t);
    AnswersMatchRequests(steps, t);
  }

  // ---------------------------------------------------------------- every command is served

  /** The commands issued, in order, with the tickets they get. */
  function Lines(next: nat, steps: seq<Step>): seq<Line>
    decreases |steps|
  {
    if steps == [] then
      []
    else if steps[0].Issue? then
      [Line(steps[0].command, next)] + Lines(next + 1, steps[1..])
    else
      Lines(next, steps[1..])
  }

  /** The commands that are done, the one at hand, and those still to be read. */
  function Taken(s: System): seq<Line> {
    s.served + (if s.current.Some? then [s.current.value] else []) + s.stdin
  }

  lemma StepTakes(s: System, step: Step)
    requires Enabled(s, step)
    ensures var t := Apply(s, step);
            && Taken(t) == Taken(s) + (if step.Issue? then [Line(step.command, s.next)] else [])
            && t.next == (if step.Issue? then s.next + 1 else s.next)
            && s.served <= t.served && (s.aborted || step.Abort? <==> t.aborted)
            && (s.aborted ==> t.served == s.served && t.current == s.current)
  {
    hide Pushed, Parsed, AnsweredWith;
  }

  lemma {:induction false} RunTakes(s: System, steps: seq<Step>, t: System)
    requires Run(s, steps, t)
    ensures Taken(t) == Taken(s) + Lines(s.next, steps)
    ensures t.aborted <==> s.aborted || Abort in steps
    ensures s.aborted ==> t.served == s.served && t.current == s.current
    decreases |steps|
  {
    hide Taken, Apply, Enabled;
    if steps != [] {
      StepTakes(s, steps[0]);
      RunTakes(Apply(s, steps[0]), steps[1..], t);
      assert steps == [steps[0]] + steps[1..];
    }
  }

  /** In every interleaving the commands that are done, the one at hand and those still to be read are all commands
      issued so far, in the order they were issued: none is lost, repeated or overtaken. */
  lemma CommandsAreServedInOrder(steps: seq<Step>, t: System)
    requires Run(START, steps, t)
    ensures Taken(t) == Lines(0, steps)
  {
    RunTakes(START, steps, t);
  }

  /** Once the backend has stopped in the middle of a command, it serves nothing more. */
  lemma AbortIsFinal(before: seq<Step>, s: System, after: seq<Step>, t: System)
    requires Run(START, before, s) && Abort in before && Run(s, after, t)
    ensures t.served == s.served && t.current == s.current && t.aborted
  {
    RunTakes(START, before, s);
    RunTakes(s, after, t);
  }

  /** When everything has been read, done and delivered, no request is left waiting: each has been resolved,
      everything that happened in between has been delivered, and every command is done. */
  lemma QuietMeansAnswered(steps: seq<Step>, t: System)
    requires Run(START, steps, t)
    requires t.stdin == [] && t.current.None? && t.stdout == []
    ensures t.frontend.queue == t.frontend.pending == []
    ensures multiset(Resolved(t.frontend.fulfilled)) == multiset(Sought(0, steps))
    ensures forall p :: p in t.frontend.fulfilled ==> p.0 == p.1
    ensures t.frontend.delivered == Happened(steps)
    ensures t.served == Lines(0, steps)
  {
    CommandsAreServedInOrder(steps, t);
    AnswersMatchRequests(steps, t);
    EveryRequestIsAccountedFor(steps, t);
    assert t.frontend.Waiting(Main) == Expected(t, Main) == [];
    assert t.frontend.Waiting(Pending) == Expected(t, Pending) == [];
  }
}
