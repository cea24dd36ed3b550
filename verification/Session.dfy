/** A flashing session: the table of commands is sent phase by phase, and every command waits for its reply. */
module Session {
  import opened CTypes
  import opened Sequences
  import opened Wrappers

  datatype Value = ACK | NAK | OTHER

  /** What comes back when the host waits: a log line, a response, or nothing in time. */
  datatype Reply = Log | Response(value: Value, raw: bool, maxPayload: nat) | Timeout

  /** One transfer of a program entry: how far its start sector lies behind the one before, the pieces of data, and
      whether the file could be sent to its end. */
  datatype Leg = Leg(gap: nat, pieces: seq<seq<byte>>, whole: bool)

  datatype Entry =
    | Erase(firstSector: nat, sectorSize: nat)
    | Vendor
    | Program(startSector: nat, sectors: nat, legs: seq<Leg>)
    | Patch

  datatype Event =
    | SendConfigure
    | SendErase(x: nat)
    | SendVendor(x: nat)
    | SendProgram(x: nat, leg: nat, startSector: nat)
    | Data(piece: seq<byte>)
    | SendPatch(x: nat)
    | SendBoot
    | SendReset
    | Got(reply: Reply)

  datatype Task = Erased(x: nat) | Vended(x: nat) | Programmed(x: nat, leg: nat) | Patched(x: nat)

  // ---------- The monitor: what a session may send, and when ----------

  datatype Link =
    | Quiet
    | AwaitConfigure(first: bool)
    | Reconfigure
    | AwaitAck(task: Task)
    | AwaitRaw(x: nat, leg: nat)
    | Streaming(x: nat, leg: nat)
    | AwaitAny
    | Over

  /** What the link is doing, the phase reached, the tasks acknowledged, and whether all was in order so far. */
  datatype Monitor = Monitor(link: Link, phase: nat, done: seq<Task>, ok: bool)

  /** The table as it was at the start, and whether the storage is nand. */
  datatype Config = Config(table: seq<Entry>, nand: bool)

  const INITIAL: Monitor := Monitor(Quiet, 0, [], true)

  predicate StartsAtZero(e: Entry)
  {
    e.Program? && e.startSector == 0
  }

  /** Every transfer of every entry that does not start at sector 0 has been acknowledged. */
  ghost predicate OthersDone(cfg: Config, done: seq<Task>)
  {
    forall x: nat, k: nat ::
      x < |cfg.table| && cfg.table[x].Program? && cfg.table[x].startSector != 0 && k < |cfg.table[x].legs|
      ==> Programmed(x, k) in done
  }

  /** A command may only be sent on a quiet link, and never after a later phase. */
  function Open(m: Monitor, phase: nat, link: Link): Monitor
  {
    Monitor(link, phase, m.done, m.ok && m.link.Quiet? && m.phase <= phase)
  }

  function OnReply(m: Monitor, r: Reply): Monitor
  {
    if r.Log? then m
    else
      var acked := r.Response? && r.value.ACK?;
      match m.link
      case Quiet => m
      case Over => m
      case Reconfigure => m
      case AwaitConfigure(first) =>
        if acked then m.(link := Quiet)
        else if first && r.Response? && r.value.NAK? && r.maxPayload > 0 then m.(link := Reconfigure)
        else m.(link := Over)
      case AwaitAck(task) => if acked then m.(link := Quiet, done := m.done + [task]) else m.(link := Over)
      case AwaitRaw(x, k) => if acked && r.raw then m.(link := Streaming(x, k)) else m.(link := Over)
      case Streaming(x, k) =>
        if acked && !r.raw then m.(link := Quiet, done := m.done + [Programmed(x, k)]) else m.(link := Over)
      case AwaitAny => if r.Timeout? then m.(link := Over) else m.(link := Quiet)
  }

  ghost function Next(cfg: Config, m: Monitor, e: Event): Monitor
  {
    match e
    case Got(r) => OnReply(m, r)
    case Data(_) => m.(ok := m.ok && m.link.Streaming?)
    case SendConfigure =>
      if m.link.Reconfigure? then m.(link := AwaitConfigure(false)) else Open(m, 0, AwaitConfigure(true))
    case SendErase(x) => Open(m, 1, AwaitAck(Erased(x)))
    case SendVendor(x) => Open(m, 1, AwaitAck(Vended(x)))
    case SendProgram(x, k, _) =>
      var inOrder := x < |cfg.table| && (cfg.nand && StartsAtZero(cfg.table[x]) ==> OthersDone(cfg, m.done));
      Open(m, 2, AwaitRaw(x, k)).(ok := m.ok && m.link.Quiet? && m.phase <= 2 && inOrder)
    case SendPatch(x) => Open(m, 3, AwaitAck(Patched(x)))
    case SendBoot => Open(m, 4, AwaitAny)
    case SendReset => Open(m, 5, AwaitAny)
  }

  ghost function After(cfg: Config, trace: seq<Event>): Monitor
  {
    if trace == [] then INITIAL else Next(cfg, After(cfg, trace[..|trace| - 1]), trace[|trace| - 1])
  }

  lemma AfterOneMore(cfg: Config, trace: seq<Event>, e: Event)
    ensures After(cfg, trace + [e]) == Next(cfg, After(cfg, trace), e)
  {
    assert (trace + [e])[..|trace|] == trace;
  }

  // ---------- What the monitor means for the trace ----------

  lemma NextKeeps(cfg: Config, m: Monitor, e: Event)
    requires Next(cfg, m, e).ok
    ensures m.ok && m.phase <= Next(cfg, m, e).phase
  {
    hide OthersDone;
  }

  lemma {:induction false} OkBefore(cfg: Config, trace: seq<Event>, i: nat)
    requires i <= |trace| && After(cfg, trace).ok
    ensures After(cfg, trace[..i]).ok && After(cfg, trace[..i]).phase <= After(cfg, trace).phase
    decreases |trace|
  {
    hide Next;
    if i == |trace| {
      assert trace[..i] == trace;
    } else {
      var before := trace[..|trace| - 1];
      assert before[..i] == trace[..i];
      NextKeeps(cfg, After(cfg, before), trace[|before|]);
      OkBefore(cfg, before, i);
    }
  }

  /** One step of a run that is in order. */
  lemma StepAt(cfg: Config, trace: seq<Event>, i: nat)
    requires i < |trace| && After(cfg, trace).ok
    ensures After(cfg, trace[..i + 1]) == Next(cfg, After(cfg, trace[..i]), trace[i])
    ensures After(cfg, trace[..i]).ok && After(cfg, trace[..i + 1]).ok
    ensures After(cfg, trace[..i + 1]).phase <= After(cfg, trace).phase
  {
    hide Next;
    OkBefore(cfg, trace, i);
    OkBefore(cfg, trace, i + 1);
    assert trace[..i + 1][..i] == trace[..i];
  }

  function Rank(e: Event): (r: Option<nat>)
  {
    match e
    case SendErase(_) => Some(1)
    case SendVendor(_) => Some(1)
    case SendProgram(_, _, _) => Some(2)
    case SendPatch(_) => Some(3)
    case SendBoot => Some(4)
    case SendReset => Some(5)
    case _ => None
  }

  /** Erases and vendor commands come before programs, programs before patches, and the reset comes last. */
  lemma PhasesInOrder(cfg: Config, trace: seq<Event>, i: nat, j: nat)
    requires After(cfg, trace).ok && i < j < |trace| && Rank(trace[i]).Some? && Rank(trace[j]).Some?
    ensures Rank(trace[i]).value <= Rank(trace[j]).value
  {
    hide OthersDone, After;
    StepAt(cfg, trace, j);
    StepAt(cfg, trace[..j], i);
    assert trace[..j][..i + 1] == trace[..i + 1] && trace[..j][..i] == trace[..i];
  }

  ghost predicate OnlyLogs(trace: seq<Event>, from: nat, to: nat)
  {
    forall l :: from <= l < to && l < |trace| ==> trace[l] == Got(Log)
  }

  ghost predicate OnlyData(trace: seq<Event>, from: nat, to: nat)
  {
    forall l :: from <= l < to && l < |trace| ==> trace[l].Data? || trace[l] == Got(Log)
  }

  predicate IsAck(e: Event, raw: bool)
  {
    e.Got? && e.reply.Response? && e.reply.value.ACK? && e.reply.raw == raw
  }

  /** The link waits for raw mode only behind a program command. */
  lemma {:induction false} AwaitingSince(cfg: Config, trace: seq<Event>) returns (a: nat)
    requires After(cfg, trace).link.AwaitRaw? && After(cfg, trace).ok
    ensures a < |trace| && trace[a].SendProgram? && OnlyLogs(trace, a + 1, |trace|)
    ensures trace[a].x == After(cfg, trace).link.x && trace[a].leg == After(cfg, trace).link.leg
    decreases |trace|
  {
    hide OthersDone;
    var before, e := trace[..|trace| - 1], trace[|trace| - 1];
    if e.SendProgram? {
      a := |trace| - 1;
    } else {
      a := AwaitingSince(cfg, before);
      assert forall l :: 0 <= l < |before| ==> before[l] == trace[l];
    }
  }

  /** The link streams only behind an acknowledgement of raw mode, itself behind a program command. */
  lemma {:induction false} StreamingSince(cfg: Config, trace: seq<Event>) returns (a: nat, j: nat)
    requires After(cfg, trace).link.Streaming? && After(cfg, trace).ok
    ensures a < j < |trace| && trace[a].SendProgram? && OnlyLogs(trace, a + 1, j)
    ensures IsAck(trace[j], true) && OnlyData(trace, j + 1, |trace|)
    ensures trace[a].x == After(cfg, trace).link.x && trace[a].leg == After(cfg, trace).link.leg
    decreases |trace|
  {
    hide OthersDone;
    var before, e := trace[..|trace| - 1], trace[|trace| - 1];
    assert forall l :: 0 <= l < |before| ==> before[l] == trace[l];
    if e.Data? || e == Got(Log) {
      a, j := StreamingSince(cfg, before);
    } else {
      a := AwaitingSince(cfg, before);
      j := |before|;
    }
  }

  /** Raw data flows only between an acknowledgement of raw mode for a program command and ... */
  lemma DataFollowsAck(cfg: Config, trace: seq<Event>, i: nat) returns (a: nat, j: nat)
    requires After(cfg, trace).ok && i < |trace| && trace[i].Data?
    ensures a < j < i && trace[a].SendProgram? && OnlyLogs(trace, a + 1, j)
    ensures IsAck(trace[j], true) && OnlyData(trace, j + 1, i)
  {
    hide OthersDone, After;
    StepAt(cfg, trace, i);
    a, j := StreamingSince(cfg, trace[..i]);
    assert forall l :: 0 <= l < i ==> trace[..i][l] == trace[l];
  }

  predicate IsCommand(e: Event)
  {
    !e.Got? && !e.Data?
  }

  /** ... the acknowledgement that raw mode is over: no command follows data without it. */
  lemma DataEndsWithAck(cfg: Config, trace: seq<Event>, i: nat, j: nat) returns (l: nat)
    requires After(cfg, trace).ok && i < j < |trace| && trace[i].Data? && IsCommand(trace[j])
    ensures i < l < j && IsAck(trace[l], false)
  {
    hide OthersDone, After;
    StepAt(cfg, trace, i);
    StepAt(cfg, trace, j);
    l := i + 1;
    while l < j && !IsAck(trace[l], false)
      invariant i < l <= j && (After(cfg, trace[..l]).link.Streaming? || After(cfg, trace[..l]).link.Over?)
    {
      StepAt(cfg, trace, l);
      StreamsOn(cfg, After(cfg, trace[..l]), trace[l]);
      l := l + 1;
    }
  }

  lemma StreamsOn(cfg: Config, m: Monitor, e: Event)
    requires (m.link.Streaming? || m.link.Over?) && !IsAck(e, false) && Next(cfg, m, e).ok
    ensures Next(cfg, m, e).link.Streaming? || Next(cfg, m, e).link.Over?
  {
    hide OthersDone;
  }

  /** A transfer counts as done only behind an acknowledgement that ended its own streaming. */
  lemma {:induction false} DoneMeansAcked(cfg: Config, trace: seq<Event>, x: nat, k: nat) returns (j: nat)
    requires Programmed(x, k) in After(cfg, trace).done && After(cfg, trace).ok
    ensures j < |trace| && IsAck(trace[j], false) && After(cfg, trace[..j]).link == Streaming(x, k)
    decreases |trace|
  {
    hide OthersDone, Next;
    var before := trace[..|trace| - 1];
    OkBefore(cfg, trace, |before|);
    if Programmed(x, k) in After(cfg, before).done {
      j := DoneMeansAcked(cfg, before, x, k);
      assert before[..j] == trace[..j];
    } else {
      j := |before|;
      AwaitedTask(cfg, before);
      BecomesDone(cfg, After(cfg, before), trace[j], x, k);
    }
  }

  lemma {:induction false} AwaitedTask(cfg: Config, trace: seq<Event>)
    ensures After(cfg, trace).link.AwaitAck? ==> !After(cfg, trace).link.task.Programmed?
    decreases |trace|
  {
    hide OthersDone;
    if trace != [] {
      AwaitedTask(cfg, trace[..|trace| - 1]);
    }
  }

  lemma BecomesDone(cfg: Config, m: Monitor, e: Event, x: nat, k: nat)
    requires Programmed(x, k) !in m.done && Programmed(x, k) in Next(cfg, m, e).done && m.ok
    requires !m.link.AwaitAck? || !m.link.task.Programmed?
    ensures IsAck(e, false) && m.link == Streaming(x, k)
  {
    hide OthersDone;
  }

  /** On nand, when an entry at sector 0 is announced, every transfer of the others has been acknowledged. */
  lemma SectorZeroLast(cfg: Config, trace: seq<Event>, i: nat, x: nat, k: nat) returns (j: nat)
    requires After(cfg, trace).ok && cfg.nand && i < |trace| && trace[i].SendProgram?
    requires trace[i].x < |cfg.table| && StartsAtZero(cfg.table[trace[i].x])
    requires x < |cfg.table| && cfg.table[x].Program? && cfg.table[x].startSector != 0 && k < |cfg.table[x].legs|
    ensures j < i && IsAck(trace[j], false) && After(cfg, trace[..j]).link == Streaming(x, k)
  {
    hide After;
    StepAt(cfg, trace, i);
    j := DoneMeansAcked(cfg, trace[..i], x, k);
    assert trace[..i][..j] == trace[..j];
  }

  // ---------- What a successful session has done ----------

  datatype Kind = ErasesAtZero | Vendors | SizedErases | AllPrograms | ProgramsOffZero | ProgramsAtZero | Patches

  predicate Chosen(e: Entry, kind: Kind)
  {
    match kind
    case ErasesAtZero => e.Erase? && e.firstSector == 0
    case Vendors => e.Vendor?
    case SizedErases => e.Erase? && e.sectorSize != 0
    case AllPrograms => e.Program?
    case ProgramsOffZero => e.Program? && e.startSector != 0
    case ProgramsAtZero => StartsAtZero(e)
    case Patches => e.Patch?
  }

  function LegTasks(x: nat, n: nat): seq<Task>
  {
    seq(n, k requires 0 <= k < n => Programmed(x, k))
  }

  /** The tasks of entry x. */
  function TasksOf(e: Entry, x: nat): seq<Task>
  {
    match e
    case Erase(_, _) => [Erased(x)]
    case Vendor => [Vended(x)]
    case Program(_, _, legs) => LegTasks(x, |legs|)
    case Patch => [Patched(x)]
  }

  /** The tasks of the chosen ones of the first n entries, in table order. */
  function Pass(table: seq<Entry>, n: nat, kind: Kind): seq<Task>
    requires n <= |table|
  {
    if n == 0 then []
    else Pass(table, n - 1, kind) + if Chosen(table[n - 1], kind) then TasksOf(table[n - 1], n - 1) else []
  }

  /** The start sector left in an entry by its first n transfers. */
  function StartAfter(start: nat, legs: seq<Leg>, n: nat): nat
    requires n <= |legs|
  {
    if n <= 1 then start else (StartAfter(start, legs, n - 1) + legs[n - 1].gap) % TWO32
  }

  function Worked(e: Entry, kind: Kind): Entry
  {
    if Chosen(e, kind) && e.Program? then e.(startSector := StartAfter(e.startSector, e.legs, |e.legs|)) else e
  }

  /** The table after the program entries of a kind have been processed. */
  function WorkedTable(table: seq<Entry>, kind: Kind): (r: seq<Entry>)
    ensures |r| == |table|
  {
    seq(|table|, x requires 0 <= x < |table| => Worked(table[x], kind))
  }

  function ExpectedPrograms(table: seq<Entry>, nand: bool): seq<Task>
  {
    if nand then Pass(table, |table|, ProgramsOffZero) + Pass(table, |table|, ProgramsAtZero)
    else Pass(table, |table|, AllPrograms)
  }

  /** An entry not at sector 0 whose start sector is moved on to 0 by its own transfers. */
  predicate MovesToZero(e: Entry)
  {
    e.Program? && e.startSector != 0 && StartAfter(e.startSector, e.legs, |e.legs|) == 0
  }

  /** On nand such an entry is taken up again by the second loop over program entries. */
  ghost predicate TakenTwice(table: seq<Entry>, nand: bool)
  {
    nand && exists x :: 0 <= x < |table| && MovesToZero(table[x])
  }

  function ExpectedErases(table: seq<Entry>, nand: bool, eraseAll: bool): seq<Task>
  {
    (if nand || eraseAll then Pass(table, |table|, ErasesAtZero) else [])
    + Pass(table, |table|, Vendors)
    + (if eraseAll then [] else Pass(table, |table|, SizedErases))
  }

  /** The tasks of a session that succeeds, in order. */
  function Expected(table: seq<Entry>, nand: bool, eraseAll: bool): seq<Task>
  {
    ExpectedErases(table, nand, eraseAll) + ExpectedPrograms(table, nand) + Pass(table, |table|, Patches)
  }

  // ---------- What a session sends ----------

  /** Everything sent, in order: the trace without what came back. */
  function Sends(trace: seq<Event>): seq<Event>
  {
    if trace == [] then []
    else
      var last := trace[|trace| - 1];
      Sends(trace[..|trace| - 1]) + if last.Got? then [] else [last]
  }

  lemma SendsOneMore(trace: seq<Event>, e: Event)
    ensures Sends(trace + [e]) == Sends(trace) + if e.Got? then [] else [e]
  {
    assert (trace + [e])[..|trace|] == trace;
  }

  /** The proposals of a payload size: a second one if the first was refused. */
  function Proposals(twice: bool): seq<Event>
  {
    if twice then [SendConfigure, SendConfigure] else [SendConfigure]
  }

  function Datas(pieces: seq<seq<byte>>): seq<Event>
  {
    seq(|pieces|, i requires 0 <= i < |pieces| => Data(pieces[i]))
  }

  /** The first n transfers of program entry x: each announced at its own start sector, with its pieces behind. */
  function LegSends(e: Entry, x: nat, n: nat): seq<Event>
    requires e.Program? && n <= |e.legs|
  {
    if n == 0 then []
    else
      LegSends(e, x, n - 1)
      + ([SendProgram(x, n - 1, StartAfter(e.startSector, e.legs, n))] + Datas(e.legs[n - 1].pieces))
  }

  /** What is sent for entry x. */
  function SendsOf(e: Entry, x: nat): seq<Event>
  {
    match e
    case Erase(_, _) => [SendErase(x)]
    case Vendor => [SendVendor(x)]
    case Program(_, _, legs) => LegSends(e, x, |legs|)
    case Patch => [SendPatch(x)]
  }

  /** What is sent for the chosen ones of the first n entries, in table order. */
  function PassSends(table: seq<Entry>, n: nat, kind: Kind): seq<Event>
    requires n <= |table|
  {
    if n == 0 then []
    else PassSends(table, n - 1, kind) + if Chosen(table[n - 1], kind) then SendsOf(table[n - 1], n - 1) else []
  }

  function EraseSends(table: seq<Entry>, nand: bool, eraseAll: bool): seq<Event>
  {
    (if nand || eraseAll then PassSends(table, |table|, ErasesAtZero) else [])
    + PassSends(table, |table|, Vendors)
    + (if eraseAll then [] else PassSends(table, |table|, SizedErases))
  }

  function ProgramSends(table: seq<Entry>, nand: bool): seq<Event>
  {
    if nand then PassSends(table, |table|, ProgramsOffZero) + PassSends(table, |table|, ProgramsAtZero)
    else PassSends(table, |table|, AllPrograms)
  }

  /** The boot drive, which nand does not have, and the reset. */
  function LastSends(nand: bool): seq<Event>
  {
    if nand then [SendReset] else [SendBoot, SendReset]
  }

  /** All that a session which succeeds sends behind its proposals. */
  function ExpectedSends(table: seq<Entry>, nand: bool, eraseAll: bool): seq<Event>
  {
    EraseSends(table, nand, eraseAll)
    + (ProgramSends(table, nand) + (PassSends(table, |table|, Patches) + LastSends(nand)))
  }

  /** There is something to send, and every program entry has sectors. */
  predicate SectorsGiven(table: seq<Entry>)
  {
    |table| > 0 && forall x :: 0 <= x < |table| && table[x].Program? ==> table[x].sectors > 0
  }

  /** The link of a session that has come to a stop: a reply was not the one expected, or a file could not be sent to
      its end. */
  predicate Stopped(table: seq<Entry>, link: Link)
  {
    || link.Over?
    || (&& link.Streaming? && link.x < |table| && table[link.x].Program? && link.leg < |table[link.x].legs|
        && !table[link.x].legs[link.leg].whole)
  }

  /** The entries of a kind are those of the initial table, apart from those whose filename has been freed. */
  ghost predicate Fresh(initial: seq<Entry>, table: seq<Entry>, freed: set<nat>, kind: Kind)
  {
    && |initial| == |table|
    && forall x :: 0 <= x < |table| ==>
         && (Chosen(initial[x], kind) <==> Chosen(table[x], kind) && x !in freed)
         && (Chosen(initial[x], kind) ==> table[x] == initial[x])
  }

  // ---------- The session ----------

  /** Log lines, and then this reply. */
  predicate LogsThen(before: seq<Event>, after: seq<Event>, r: Reply)
  {
    && before < after && after[|after| - 1] == Got(r)
    && forall i :: |before| <= i < |after| - 1 ==> after[i] == Got(Log)
  }

  /** The payload size of an exchange that starts at event from: the one proposed, or the one the last refusal
      names. */
  function Agreed(trace: seq<Event>, from: nat, proposed: nat): nat
    requires from <= |trace|
  {
    if |trace| == from then proposed
    else
      var last := trace[|trace| - 1];
      if last.Got? && Names(last.reply) then last.reply.maxPayload
      else Agreed(trace[..|trace| - 1], from, proposed)
  }

  /** A refusal that names a payload size. */
  predicate Names(r: Reply)
  {
    r.Response? && r.value.NAK? && r.maxPayload > 0
  }

  lemma {:induction false} AgreedThrough(before: seq<Event>, after: seq<Event>, r: Reply, from: nat, proposed: nat)
    requires LogsThen(before, after, r) && from <= |before|
    ensures Agreed(after, from, proposed) == if Names(r) then r.maxPayload else Agreed(before, from, proposed)
    decreases |after|
  {
    var front := after[..|after| - 1];
    if |front| > |before| {
      AgreedThrough(before, front, Log, from, proposed);
    } else {
      assert front == before;
    }
  }

  lemma NothingAgreed(trace: seq<Event>, proposed: nat)
    ensures Agreed(trace, |trace|, proposed) == proposed
  {
  }

  lemma AgreedAfterSend(trace: seq<Event>, from: nat, proposed: nat)
    requires from <= |trace|
    ensures Agreed(trace + [SendConfigure], from, proposed) == Agreed(trace, from, proposed)
  {
    assert (trace + [SendConfigure])[..|trace|] == trace;
  }

  class Session {
    const nand: bool
    const eraseAll: bool
    ghost const initial: seq<Entry>
    var table: seq<Entry>
    var replies: seq<Reply>
    var trace: seq<Event>
    var payload: nat
    /** The entries whose filename has been freed, and whether a freed one was read: from there on the program has no
        meaning, and the session here stops. */
    var freed: set<nat>
    var readFreed: bool

    /** The replies are those that will come; when they are used up, every wait runs into its timeout. */
    constructor (nand: bool, eraseAll: bool, table: seq<Entry>, replies: seq<Reply>)
      ensures this.nand == nand && this.eraseAll == eraseAll && this.initial == table && this.table == table
      ensures this.replies == replies && trace == [] && M() == INITIAL && freed == {} && !readFreed
    {
      this.nand := nand;
      this.eraseAll := eraseAll;
      initial := table;
      this.table := table;
      this.replies := replies;
      trace := [];
      payload := 0;
      freed, readFreed := {}, false;
    }

    ghost function M(): Monitor
      reads `trace
    {
      After(Config(initial, nand), trace)
    }

    ghost function S(): seq<Event>
      reads `trace
    {
      Sends(trace)
    }

    method Emit(e: Event)
      modifies `trace
      ensures trace == old(trace) + [e] && M() == Next(Config(initial, nand), old(M()), e)
      ensures S() == old(S()) + if e.Got? then [] else [e]
    {
      AfterOneMore(Config(initial, nand), trace, e);
      SendsOneMore(trace, e);
      trace := trace + [e];
    }

    /** fh_recv_cmd: the next message, if one comes in time. */
    method Recv() returns (r: Reply)
      modifies `trace, `replies
      ensures trace == old(trace) + [Got(r)] && M() == OnReply(old(M()), r) && S() == old(S())
      ensures old(M()).link.Quiet? ==> M() == old(M())
      ensures old(replies) == [] ==> r.Timeout? && replies == []
      ensures old(replies) != [] ==> replies == old(replies)[1..]
    {
      if replies == [] {
        r := Timeout;
      } else {
        r := replies[0];
        replies := replies[1..];
      }
      Emit(Got(r));
    }

    /** fh_wait_response_cmd: the next message that is not a log line. */
    method Wait() returns (r: Reply)
      modifies `trace, `replies
      ensures !r.Log? && LogsThen(old(trace), trace, r) && M() == OnReply(old(M()), r) && S() == old(S())
    {
      r := Recv();
      while r.Log?
        invariant LogsThen(old(trace), trace, r) && M() == OnReply(old(M()), r) && S() == old(S())
        decreases |replies|, r.Log?
      {
        r := Recv();
      }
    }

    /** Everything that has come is taken and dropped. */
    method Drain()
      requires M().link.Quiet?
      modifies `trace, `replies
      ensures old(trace) <= trace && M() == old(M()) && S() == old(S())
    {
      var r := Recv();
      while !r.Timeout?
        invariant old(trace) <= trace && M() == old(M()) && S() == old(S())
        decreases |replies|, !r.Timeout?
      {
        r := Recv();
      }
    }

    /** A reply in the exchange that settles the payload size. */
    method Answered(ghost from: nat, ghost proposed: nat) returns (r: Reply)
      requires from <= |trace|
      modifies `trace, `replies
      ensures !r.Log? && old(trace) <= trace && M() == OnReply(old(M()), r) && S() == old(S())
      ensures Agreed(trace, from, proposed) == if Names(r) then r.maxPayload else Agreed(old(trace), from, proposed)
    {
      r := Wait();
      AgreedThrough(old(trace), trace, r, from, proposed);
    }

    /** fh_send_cfg_cmd: the payload size kept is the one proposed, or the one a first refusal names. */
    method SendCfg(proposed: nat) returns (ok: bool, ghost twice: bool)
      requires M().ok && M().link.Quiet? && M().phase == 0
      modifies `trace, `replies, `payload
      ensures old(trace) <= trace && M().ok && M().phase == 0 && M().done == old(M().done)
      ensures ok ==> M().link.Quiet? && payload == Agreed(trace, |old(trace)|, proposed)
      ensures !ok ==> payload == old(payload) && M().link.Over?
      ensures S() == old(S()) + Proposals(twice)
    {
      hide M, S, OthersDone, Agreed, LogsThen;
      twice := false;
      ghost var from := |trace|;
      var size := proposed;
      AgreedAfterSend(trace, from, proposed);
      NothingAgreed(trace, proposed);
      Emit(SendConfigure);
      var r := Answered(from, proposed);
      if r.Timeout? {
        return false, twice;
      }
      if r.value.NAK? && r.maxPayload > 0 {
        size := r.maxPayload;
        AgreedAfterSend(trace, from, proposed);
        Emit(SendConfigure);
        twice := true;
        r := Answered(from, proposed);
        if r.Timeout? {
          return false, twice;
        }
      }
      if !r.value.ACK? {
        return false, twice;
      }
      payload := size;
      return true, twice;
    }

    /** A command that is done when it is acknowledged: an erase, a vendor command or a patch. */
    method Process(e: Event, ghost task: Task, ghost phase: nat) returns (ok: bool)
      requires M().ok && M().link.Quiet? && M().phase <= phase
      requires Next(Config(initial, nand), M(), e) == Open(M(), phase, AwaitAck(task)) && !e.Got?
      modifies `trace, `replies
      ensures old(trace) <= trace && M().ok && M().phase == phase && S() == old(S()) + [e]
      ensures if ok then M().link.Quiet? && M().done == old(M().done) + [task] else M().link.Over?
    {
      hide M, S, OthersDone, Next;
      Emit(e);
      var r := Wait();
      return r.Response? && r.value.ACK?;
    }

    /** fh_process_program: every transfer is announced, acknowledged, streamed and acknowledged again. The start
        sector of the entry moves on from transfer to transfer. The filename is read for every transfer, and freed at
        the end. */
    method ProcessProgram(x: nat) returns (ok: bool)
      requires x < |table| && table[x].Program? && |initial| == |table|
      requires M().ok && M().link.Quiet? && M().phase <= 2 && !readFreed
      requires nand && StartsAtZero(initial[x]) ==> OthersDone(Config(initial, nand), M().done)
      requires x !in freed ==> table[x] == initial[x]
      modifies `trace, `replies, `table, `freed, `readFreed
      ensures old(trace) <= trace && M().ok && M().phase <= 2
      ensures readFreed <==> x in old(freed)
      ensures readFreed ==> !ok && M().link.Quiet? && S() == old(S())
      ensures !ok && !readFreed ==> Stopped(initial, M().link)
      ensures !readFreed ==> S() <= old(S()) + SendsOf(initial[x], x)
      ensures ok ==> S() == old(S()) + SendsOf(initial[x], x)
      ensures ok ==> !readFreed && freed == old(freed) + {x}
      ensures ok ==> M().link.Quiet? && M().done == old(M().done) + TasksOf(old(table)[x], x)
      ensures ok ==> table == old(table)[x := Worked(old(table)[x], AllPrograms)]
    {
      hide M, S, OthersDone, StartAfter, LegTasks, OnReply, LegSends;
      ghost var entry, done, cfg := table[x], M().done, Config(initial, nand);
      ghost var sent := S();
      if x in freed {
        readFreed := true;
        return false;
      }
      var legs := table[x].legs;
      var k := 0;
      LegTasksGrow(x, 0);
      StartAtFirst(entry.startSector, legs);
      LegSendsFront(entry, x, 0, |legs|);
      while k < |legs|
        invariant k <= |legs| && |table| == |old(table)| && old(trace) <= trace
        invariant table == old(table)[x := entry.(startSector := StartAfter(entry.startSector, legs, k))]
        invariant M().ok && M().link.Quiet? && M().phase <= 2 && M().done == done + LegTasks(x, k)
        invariant freed == old(freed) && !readFreed && S() == sent + LegSends(entry, x, k)
      {
        StartMoves(entry.startSector, legs, k);
        if k > 0 {
          table := table[x := table[x].(startSector := (table[x].startSector + legs[k].gap) % TWO32)];
        }
        OthersStillDone(cfg, done, LegTasks(x, k));
        ok := Transfer(x, k);
        LegSendsGrow(entry, x, k, sent, S());
        if !ok {
          return false;
        }
        LegTasksGrow(x, k);
        ConcatAssociates(done, LegTasks(x, k), [Programmed(x, k)]);
        k := k + 1;
      }
      freed := freed + {x};
      return true;
    }

    /** One transfer of a program entry. */
    method Transfer(x: nat, k: nat) returns (ok: bool)
      requires x < |table| && table[x].Program? && k < |table[x].legs| && |initial| == |table|
      requires M().ok && M().link.Quiet? && M().phase <= 2
      requires nand && StartsAtZero(initial[x]) ==> OthersDone(Config(initial, nand), M().done)
      modifies `trace, `replies
      ensures old(trace) <= trace && M().ok && M().phase <= 2
      ensures ok ==> M().link.Quiet? && M().done == old(M().done) + [Programmed(x, k)]
      ensures !ok ==> M().link.Over? || (M().link == Streaming(x, k) && !table[x].legs[k].whole)
      ensures S() <= old(S()) + ([SendProgram(x, k, table[x].startSector)] + Datas(table[x].legs[k].pieces))
      ensures ok ==> S() == old(S()) + ([SendProgram(x, k, table[x].startSector)] + Datas(table[x].legs[k].pieces))
    {
      hide M, S, OthersDone;
      Emit(SendProgram(x, k, table[x].startSector));
      var r := Wait();
      if r.Timeout? || !r.value.ACK? || !r.raw {
        return false;
      }
      var pieces := table[x].legs[k].pieces;
      var i := 0;
      while i < |pieces|
        invariant i <= |pieces| && old(trace) <= trace
        invariant M() == Monitor(Streaming(x, k), 2, old(M().done), true)
        invariant S() == old(S()) + ([SendProgram(x, k, table[x].startSector)] + Datas(pieces)[..i])
      {
        Emit(Data(pieces[i]));
        i := i + 1;
      }
      if !table[x].legs[k].whole {
        return false;
      }
      r := Wait();
      return r.Response? && r.value.ACK? && !r.raw;
    }

    /** One pass over the table that processes the program entries of a kind. It comes to its end only if no filename
        of theirs had been freed. */
    method ProgramPass(kind: Kind) returns (ok: bool)
      requires kind in {AllPrograms, ProgramsOffZero, ProgramsAtZero} && |initial| == |table|
      requires M().ok && M().link.Quiet? && M().phase <= 2 && !readFreed
      requires nand ==> (kind.ProgramsOffZero? && table == initial) || OthersDone(Config(initial, nand), M().done)
      requires Fresh(initial, table, freed, kind)
      modifies `trace, `replies, `table, `freed, `readFreed
      ensures old(trace) <= trace && M().ok && M().phase <= 2
      ensures !ok ==> if readFreed then M().link.Quiet? else Stopped(initial, M().link)
      ensures S() <= old(S()) + PassSends(initial, |initial|, kind)
      ensures ok ==> S() == old(S()) + PassSends(initial, |initial|, kind)
      ensures ok ==> M().link.Quiet? && M().done == old(M().done) + Pass(old(table), |old(table)|, kind)
      ensures ok ==> table == WorkedTable(old(table), kind)
      ensures readFreed ==> !ok && exists y :: 0 <= y < |old(table)| && Chosen(old(table)[y], kind) && y in old(freed)
      ensures ok ==> forall x :: 0 <= x < |table| && Chosen(old(table)[x], kind) ==> x !in old(freed)
      ensures ok ==> freed == old(freed) + ChosenOnes(old(table), |old(table)|, kind)
    {
      hide M, S, OthersDone, Pass, Worked, TasksOf, ChosenOnes, PassSends, SendsOf, Stopped, OnReply, StartAfter;
      ghost var before, done, cfg := table, M().done, Config(initial, nand);
      ghost var sent := S();
      var x := 0;
      PassSendsSkip(initial, 0, kind);
      PassGrows(before, 0, kind);
      ChosenGrow(before, 0, kind);
      while x < |table|
        invariant x <= |table| == |before| && old(trace) <= trace
        invariant forall y :: x <= y < |table| ==> table[y] == before[y]
        invariant forall y :: 0 <= y < x ==> table[y] == Worked(before[y], kind)
        invariant M().ok && M().link.Quiet? && M().phase <= 2 && M().done == done + Pass(before, x, kind)
        invariant !readFreed && freed == old(freed) + ChosenOnes(before, x, kind)
        invariant S() == sent + PassSends(initial, x, kind)
        invariant forall y :: 0 <= y < x && Chosen(before[y], kind) ==> y !in old(freed)
      {
        PassGrows(before, x, kind);
        ChosenGrow(before, x, kind);
        OthersStillDone(cfg, done, Pass(before, x, kind));
        WorkedAsChosen(before[x], kind);
        if Selected(table[x], kind) {
          ok := ProcessProgram(x);
          PassSendsStep(initial, x, kind, sent, S());
          if !ok {
            return false;
          }
          ConcatAssociates(done, Pass(before, x, kind), TasksOf(before[x], x));
        }
        PassSendsSkip(initial, x, kind);
        x := x + 1;
      }
      return true;
    }

    /** One pass over the table that processes the erases, vendor commands or patches of a kind. */
    method CommandPass(kind: Kind) returns (ok: bool)
      requires kind in {ErasesAtZero, Vendors, SizedErases, Patches}
      requires M().ok && M().link.Quiet? && M().phase <= PhaseOf(kind)
      modifies `trace, `replies
      ensures old(trace) <= trace && M().ok && M().phase <= PhaseOf(kind)
      ensures ok ==> M().link.Quiet? && M().done == old(M().done) + Pass(table, |table|, kind)
      ensures !ok ==> M().link.Over?
      ensures S() <= old(S()) + PassSends(table, |table|, kind)
      ensures ok ==> S() == old(S()) + PassSends(table, |table|, kind)
    {
      hide M, S, OthersDone, Pass, TasksOf, Next, PassSends, SendsOf;
      ghost var done, sent := M().done, S();
      var x := 0;
      PassGrows(table, 0, kind);
      PassSendsSkip(table, 0, kind);
      while x < |table|
        invariant x <= |table| && old(trace) <= trace
        invariant M().ok && M().link.Quiet? && M().phase <= PhaseOf(kind) && M().done == done + Pass(table, x, kind)
        invariant S() == sent + PassSends(table, x, kind)
      {
        PassGrows(table, x, kind);
        PassSendsSkip(table, x, kind);
        if Chosen(table[x], kind) {
          CommandOpens(Config(initial, nand), M(), table[x], x, kind);
          ok := Process(CommandOf(table[x], x), TasksOf(table[x], x)[0], PhaseOf(kind));
          PassSendsStep(table, x, kind, sent, S());
          if !ok {
            return false;
          }
          ConcatAssociates(done, Pass(table, x, kind), TasksOf(table[x], x));
        }
        x := x + 1;
      }
      return true;
    }

    /** The last commands: any response will do. */
    method Finish(e: Event, ghost phase: nat) returns (ok: bool)
      requires M().ok && M().link.Quiet? && M().phase <= phase
      requires Next(Config(initial, nand), M(), e) == Open(M(), phase, AwaitAny) && !e.Got?
      modifies `trace, `replies
      ensures old(trace) <= trace && M().ok && M().phase == phase && M().done == old(M().done)
      ensures if ok then M().link.Quiet? else M().link.Over?
      ensures S() == old(S()) + [e]
    {
      hide M, S, OthersDone, Next;
      Emit(e);
      var r := Wait();
      return !r.Timeout?;
    }

    lemma AtStart()
      requires trace == []
      ensures M() == Monitor(Quiet, 0, [], true) && S() == []
    {
    }

    /** The session phases of firehose_main. Whatever comes back, the monitor has nothing to object to, and what is
        sent is a front of what the table asks for. A session that succeeds has sent all of it, and every task has been
        acknowledged in this order. One that does not succeed had nothing to send, was stopped by a reply that was not
        the one expected or by a file that could not be sent, or read a freed filename, which it does exactly when an
        entry is taken up twice. */
    method Run(proposed: nat, patchCount: nat) returns (ok: bool, ghost twice: bool)
      requires initial == table && trace == [] && freed == {} && !readFreed
      requires patchCount == 0 ==> forall x :: 0 <= x < |table| ==> !table[x].Patch?
      modifies `trace, `replies, `table, `payload, `freed, `readFreed
      ensures M().ok
      ensures S() <= Proposals(twice) + ExpectedSends(initial, nand, eraseAll)
      ensures ok ==> S() == Proposals(twice) + ExpectedSends(initial, nand, eraseAll)
      ensures ok ==> M().link.Quiet? && M().done == Expected(initial, nand, eraseAll)
      ensures ok <==> SectorsGiven(initial) && M().link.Quiet? && !readFreed
      ensures M().link.Quiet? || Stopped(initial, M().link)
      ensures ok || readFreed ==> (readFreed <==> TakenTwice(initial, nand))
    {
      hide *;
      AtStart();
      twice := false;
      ok := Checked();
      if !ok {
        return false, twice;
      }
      var _ := Recv();
      Drain();
      ok, twice := SendCfg(proposed);
      assert S() == Proposals(twice);
      WhenOver(initial, M().link);
      if !ok {
        return false, twice;
      }
      ok := RunPhases(patchCount);
      return ok, twice;
    }

    /** Everything behind the exchange that settles the payload size. */
    method RunPhases(patchCount: nat) returns (ok: bool)
      requires initial == table && freed == {} && !readFreed
      requires patchCount == 0 ==> forall x :: 0 <= x < |table| ==> !table[x].Patch?
      requires M().ok && M().link.Quiet? && M().phase == 0 && M().done == []
      modifies `trace, `replies, `table, `freed, `readFreed
      ensures M().ok && (M().link.Quiet? <==> ok || readFreed)
      ensures M().link.Quiet? || Stopped(initial, M().link)
      ensures S() <= old(S()) + ExpectedSends(initial, nand, eraseAll)
      ensures ok ==> S() == old(S()) + ExpectedSends(initial, nand, eraseAll)
      ensures ok ==> M().done == Expected(initial, nand, eraseAll)
      ensures !(ok && readFreed)
      ensures ok || readFreed ==> (readFreed <==> TakenTwice(initial, nand))
    {
      hide M, S, OthersDone, Pass, ExpectedErases, ExpectedPrograms, TakenTwice, OnReply;
      hide PassSends, EraseSends, ProgramSends, LastSends, ExpectedSends;
      ghost var sent := S();
      ok := RunErases();
      FrontOfSession(initial, nand, eraseAll, sent, S());
      if !ok {
        return false;
      }
      ok := RunPrograms();
      FrontOfSession(initial, nand, eraseAll, sent, S());
      if !ok {
        return false;
      }
      NoPatches(initial, |initial|);
      ok := RunRest(patchCount);
      FrontOfSession(initial, nand, eraseAll, sent, S());
    }

    /** Patches, the boot drive and the reset. */
    method RunRest(patchCount: nat) returns (ok: bool)
      requires M().ok && M().link.Quiet? && M().phase <= 3
      requires patchCount == 0 ==> Pass(table, |table|, Patches) == [] && PassSends(table, |table|, Patches) == []
      modifies `trace, `replies
      ensures M().ok
      ensures if ok then M().link.Quiet? else M().link.Over?
      ensures ok ==> M().done == old(M().done) + Pass(table, |table|, Patches)
      ensures S() <= old(S()) + (PassSends(table, |table|, Patches) + LastSends(nand))
      ensures ok ==> S() == old(S()) + (PassSends(table, |table|, Patches) + LastSends(nand))
    {
      hide M, S, OthersDone, Pass, PassSends;
      if patchCount > 0 {
        ok := CommandPass(Patches);
        if !ok {
          return false;
        }
      }
      if !nand {
        ok := Finish(SendBoot, 4);
        if !ok {
          return false;
        }
      }
      ok := Finish(SendReset, 5);
      if !ok {
        return false;
      }
      Drain();
      return true;
    }

    /** Nothing is sent for an empty table, or when a program entry has no sectors. */
    method Checked() returns (ok: bool)
      ensures ok <==> SectorsGiven(table)
    {
      if |table| == 0 {
        return false;
      }
      for x := 0 to |table|
        invariant forall y :: 0 <= y < x && table[y].Program? ==> table[y].sectors > 0
      {
        if table[x].Program? && table[x].sectors == 0 {
          return false;
        }
      }
      return true;
    }

    /** Erases and vendor commands. */
    method RunErases() returns (ok: bool)
      requires M().ok && M().link.Quiet? && M().phase <= 1 && M().done == []
      modifies `trace, `replies
      ensures old(trace) <= trace && M().ok && M().phase <= 1
      ensures ok ==> M().link.Quiet? && M().done == ExpectedErases(table, nand, eraseAll)
      ensures !ok ==> M().link.Over?
      ensures S() <= old(S()) + EraseSends(table, nand, eraseAll)
      ensures ok ==> S() == old(S()) + EraseSends(table, nand, eraseAll)
    {
      hide M, S, OthersDone, Pass, PassSends;
      if nand || eraseAll {
        ok := CommandPass(ErasesAtZero);
        if !ok {
          return false;
        }
      }
      ok := CommandPass(Vendors);
      if !ok {
        return false;
      }
      if !eraseAll {
        ok := CommandPass(SizedErases);
      }
    }

    /** All program entries; on nand those that start at sector 0 come last. */
    method RunPrograms() returns (ok: bool)
      requires initial == table && freed == {} && !readFreed
      requires M().ok && M().link.Quiet? && M().phase <= 2
      modifies `trace, `replies, `table, `freed, `readFreed
      ensures old(trace) <= trace && M().ok && M().phase <= 2
      ensures ok ==> M().link.Quiet? && M().done == old(M().done) + ExpectedPrograms(initial, nand)
      ensures ok ==> |table| == |initial| && Pass(table, |table|, Patches) == Pass(initial, |initial|, Patches)
      ensures ok ==> PassSends(table, |table|, Patches) == PassSends(initial, |initial|, Patches)
      ensures ok ==> !readFreed && !TakenTwice(initial, nand)
      ensures readFreed ==> TakenTwice(initial, nand)
      ensures !ok ==> if readFreed then M().link.Quiet? else Stopped(initial, M().link)
      ensures S() <= old(S()) + ProgramSends(initial, nand)
      ensures ok ==> S() == old(S()) + ProgramSends(initial, nand)
    {
      hide M, S, OthersDone, Pass, WorkedTable, ChosenOnes, StartAfter, PassSends, Stopped;
      ghost var done := M().done;
      if nand {
        ok := ProgramPass(ProgramsOffZero);
        if !ok {
          return false;
        }
        OffZeroPassCovers(Config(initial, nand), done);
        WorkedPatches(initial, ProgramsOffZero, |initial|);
        ghost var between := table;
        TakenUpAgain(initial);
        SecondPassIsFresh(initial);
        ok := ProgramPass(ProgramsAtZero);
        WorkedPatches(between, ProgramsAtZero, |initial|);
        if ok {
          SecondPass(initial, |initial|);
        }
        ConcatAssociates(done, Pass(initial, |initial|, ProgramsOffZero), Pass(between, |initial|, ProgramsAtZero));
      } else {
        ok := ProgramPass(AllPrograms);
        WorkedPatches(initial, AllPrograms, |initial|);
      }
    }
  }

  /** The chosen ones of the first n entries. */
  function ChosenOnes(table: seq<Entry>, n: nat, kind: Kind): set<nat>
    requires n <= |table|
  {
    set x: nat | x < n && Chosen(table[x], kind)
  }

  lemma ChosenGrow(table: seq<Entry>, n: nat, kind: Kind)
    requires n <= |table|
    ensures ChosenOnes(table, 0, kind) == {} && n !in ChosenOnes(table, n, kind)
    ensures n < |table| ==>
              ChosenOnes(table, n + 1, kind)
              == ChosenOnes(table, n, kind) + if Chosen(table[n], kind) then {n} else {}
  {
    hide Chosen;
  }

  /** The second loop takes up an entry whose filename the first has freed exactly when its start sector has been moved
      to 0. */
  lemma TakenUpAgain(table: seq<Entry>)
    ensures forall x :: 0 <= x < |table| ==>
              (Chosen(WorkedTable(table, ProgramsOffZero)[x], ProgramsAtZero)
               && x in ChosenOnes(table, |table|, ProgramsOffZero)
               <==> MovesToZero(table[x]))
  {
    hide StartAfter;
  }

  /** If no entry is, the second loop finds the entries at sector 0 as they were. */
  lemma {:induction false} SecondPass(table: seq<Entry>, n: nat)
    requires n <= |table| && forall x :: 0 <= x < |table| ==> !MovesToZero(table[x])
    ensures Pass(WorkedTable(table, ProgramsOffZero), n, ProgramsAtZero) == Pass(table, n, ProgramsAtZero)
  {
    hide StartAfter, TasksOf;
    if n > 0 {
      SecondPass(table, n - 1);
    }
  }

  function PhaseOf(kind: Kind): nat
  {
    if kind.Patches? then 3 else 1
  }

  function CommandOf(e: Entry, x: nat): Event
    requires !e.Program?
  {
    match e
    case Erase(_, _) => SendErase(x)
    case Vendor => SendVendor(x)
    case Patch => SendPatch(x)
  }

  lemma CommandOpens(cfg: Config, m: Monitor, e: Entry, x: nat, kind: Kind)
    requires kind in {ErasesAtZero, Vendors, SizedErases, Patches} && Chosen(e, kind)
    ensures !e.Program? && |TasksOf(e, x)| == 1 && TasksOf(e, x) == [TasksOf(e, x)[0]]
    ensures Next(cfg, m, CommandOf(e, x)) == Open(m, PhaseOf(kind), AwaitAck(TasksOf(e, x)[0]))
    ensures SendsOf(e, x) == [CommandOf(e, x)] && !CommandOf(e, x).Got?
  {
  }

  lemma {:induction false} NoPatches(table: seq<Entry>, n: nat)
    requires n <= |table|
    ensures (forall x :: 0 <= x < |table| ==> !table[x].Patch?) ==>
              Pass(table, n, Patches) == [] && PassSends(table, n, Patches) == []
  {
    if n > 0 {
      NoPatches(table, n - 1);
    }
  }

  /** Processing programs changes nothing about patches. */
  lemma {:induction false} WorkedPatches(table: seq<Entry>, kind: Kind, n: nat)
    requires n <= |table|
    ensures Pass(WorkedTable(table, kind), n, Patches) == Pass(table, n, Patches)
    ensures PassSends(WorkedTable(table, kind), n, Patches) == PassSends(table, n, Patches)
  {
    if n > 0 {
      WorkedPatches(table, kind, n - 1);
    }
  }

  lemma {:induction false} PassHas(table: seq<Entry>, n: nat, kind: Kind, x: nat, k: nat)
    requires x < n <= |table| && Chosen(table[x], kind) && table[x].Program? && k < |table[x].legs|
    ensures Programmed(x, k) in Pass(table, n, kind)
  {
    if x == n - 1 {
      assert LegTasks(x, |table[x].legs|)[k] == Programmed(x, k);
    } else {
      PassHas(table, n - 1, kind, x, k);
    }
  }

  lemma OffZeroPassCovers(cfg: Config, done: seq<Task>)
    ensures OthersDone(cfg, done + Pass(cfg.table, |cfg.table|, ProgramsOffZero))
  {
    forall x: nat, k: nat |
      x < |cfg.table| && cfg.table[x].Program? && cfg.table[x].startSector != 0 && k < |cfg.table[x].legs|
      ensures Programmed(x, k) in Pass(cfg.table, |cfg.table|, ProgramsOffZero)
    {
      PassHas(cfg.table, |cfg.table|, ProgramsOffZero, x, k);
    }
  }

  /** The tests of the two loops over program entries. */
  predicate Selected(e: Entry, kind: Kind)
  {
    e.Program? && (kind.ProgramsOffZero? ==> e.startSector != 0) && (kind.ProgramsAtZero? ==> e.startSector == 0)
  }

  lemma WorkedAsChosen(e: Entry, kind: Kind)
    requires kind in {AllPrograms, ProgramsOffZero, ProgramsAtZero}
    ensures Selected(e, kind) <==> Chosen(e, kind)
    ensures Worked(e, kind) == if Chosen(e, kind) then Worked(e, AllPrograms) else e
  {
  }

  lemma PassSendsSkip(table: seq<Entry>, n: nat, kind: Kind)
    requires n <= |table|
    ensures PassSends(table, 0, kind) == []
    ensures n < |table| && !Chosen(table[n], kind) ==> PassSends(table, n + 1, kind) == PassSends(table, n, kind)
  {
  }

  lemma {:induction false} PassSendsFront(table: seq<Entry>, n: nat, kind: Kind)
    requires n <= |table|
    ensures PassSends(table, n, kind) <= PassSends(table, |table|, kind)
    ensures n < |table| ==> PassSends(table, n + 1, kind) <= PassSends(table, |table|, kind)
    decreases |table| - n
  {
    hide SendsOf;
    if n < |table| {
      PassSendsFront(table, n + 1, kind);
    }
  }

  lemma LegSendsGrow(e: Entry, x: nat, k: nat, sent: seq<Event>, now: seq<Event>)
    requires e.Program? && k < |e.legs|
    ensures var leg := [SendProgram(x, k, StartAfter(e.startSector, e.legs, k + 1))] + Datas(e.legs[k].pieces);
            && (now <= sent + LegSends(e, x, k) + leg ==> now <= sent + LegSends(e, x, |e.legs|))
            && (now == sent + LegSends(e, x, k) + leg ==> now == sent + LegSends(e, x, k + 1))
  {
    hide StartAfter;
    var leg := [SendProgram(x, k, StartAfter(e.startSector, e.legs, k + 1))] + Datas(e.legs[k].pieces);
    LegSendsFront(e, x, k + 1, |e.legs|);
    ConcatAssociates(sent, LegSends(e, x, k), leg);
  }

  lemma {:induction false} LegSendsFront(e: Entry, x: nat, n: nat, m: nat)
    requires e.Program? && n <= m <= |e.legs|
    ensures LegSends(e, x, 0) == [] && LegSends(e, x, n) <= LegSends(e, x, m)
    decreases m - n
  {
    hide StartAfter, Datas;
    if n < m {
      LegSendsFront(e, x, n, m - 1);
    }
  }

  /** What has been sent of a pass so far, with all or a front of the next entry's part behind it. */
  lemma PassSendsStep(table: seq<Entry>, n: nat, kind: Kind, sent: seq<Event>, now: seq<Event>)
    requires n < |table|
    ensures now <= sent + PassSends(table, n, kind) ==> now <= sent + PassSends(table, |table|, kind)
    ensures var part := SendsOf(table[n], n);
            && (Chosen(table[n], kind) && now <= sent + PassSends(table, n, kind) + part ==>
                  now <= sent + PassSends(table, |table|, kind))
            && (Chosen(table[n], kind) && now == sent + PassSends(table, n, kind) + part ==>
                  now == sent + PassSends(table, n + 1, kind))
  {
    hide SendsOf, Chosen;
    ConcatAssociates(sent, PassSends(table, n, kind), SendsOf(table[n], n));
    PassSendsFront(table, n, kind);
  }

  lemma WhenOver(table: seq<Entry>, link: Link)
    ensures link.Over? ==> Stopped(table, link)
  {
  }

  lemma FrontOfSession(table: seq<Entry>, nand: bool, eraseAll: bool, sent: seq<Event>, now: seq<Event>)
    ensures
      var a, b := EraseSends(table, nand, eraseAll), ProgramSends(table, nand);
      var all := ExpectedSends(table, nand, eraseAll);
      var c := PassSends(table, |table|, Patches) + LastSends(nand);
      && (now <= sent + a || now <= sent + a + b || now <= sent + a + b + c ==> now <= sent + all)
      && (now == sent + a + b + c ==> now == sent + all)
  {
    hide EraseSends, ProgramSends, PassSends, LastSends;
    FrontOfFour(sent, EraseSends(table, nand, eraseAll), ProgramSends(table, nand),
                PassSends(table, |table|, Patches) + LastSends(nand), now);
  }

  lemma FrontOfFour(a: seq<Event>, b: seq<Event>, c: seq<Event>, d: seq<Event>, now: seq<Event>)
    ensures now <= a || now <= a + b || now <= a + b + c || now <= a + b + c + d ==> now <= a + (b + (c + d))
    ensures now == a + b + c + d ==> now == a + (b + (c + d))
  {
    ConcatAssociates(a, b, c + d);
    ConcatAssociates(a + b, c, d);
  }

  /** The second loop finds the entries that started at sector 0 as they were. */
  lemma SecondPassIsFresh(table: seq<Entry>)
    ensures Fresh(table, WorkedTable(table, ProgramsOffZero), ChosenOnes(table, |table|, ProgramsOffZero),
                  ProgramsAtZero)
  {
    hide StartAfter;
  }

  lemma PassGrows(table: seq<Entry>, n: nat, kind: Kind)
    requires n <= |table|
    ensures Pass(table, 0, kind) == []
    ensures n < |table| ==>
              Pass(table, n + 1, kind)
              == Pass(table, n, kind) + if Chosen(table[n], kind) then TasksOf(table[n], n) else []
  {
  }

  lemma LegTasksGrow(x: nat, k: nat)
    ensures LegTasks(x, 0) == [] && LegTasks(x, k + 1) == LegTasks(x, k) + [Programmed(x, k)]
  {
  }

  lemma StartAtFirst(start: nat, legs: seq<Leg>)
    ensures StartAfter(start, legs, 0) == start
  {
  }

  lemma StartMoves(start: nat, legs: seq<Leg>, k: nat)
    requires k < |legs|
    ensures StartAfter(start, legs, k + 1)
         == if k > 0 then (StartAfter(start, legs, k) + legs[k].gap) % TWO32 else StartAfter(start, legs, k)
  {
  }

  lemma OthersStillDone(cfg: Config, done: seq<Task>, more: seq<Task>)
    ensures OthersDone(cfg, done) ==> OthersDone(cfg, done + more)
  {
  }

  // ---------- Every program entry exactly once ----------

  lemma {:induction false} CountInPass(table: seq<Entry>, n: nat, kind: Kind, x: nat, k: nat)
    requires n <= |table| && kind in {AllPrograms, ProgramsOffZero, ProgramsAtZero}
    ensures multiset(Pass(table, n, kind))[Programmed(x, k)]
         == if x < n && Chosen(table[x], kind) && k < |table[x].legs| then 1 else 0
  {
    hide Pass, LegTasks, TasksOf;
    PassGrows(table, 0, kind);
    if n > 0 {
      CountInPass(table, n - 1, kind, x, k);
      PassGrows(table, n - 1, kind);
      var e := table[n - 1];
      if Chosen(e, kind) {
        CountConcat(Pass(table, n - 1, kind), TasksOf(e, n - 1), Programmed(x, k));
        assert TasksOf(e, n - 1) == LegTasks(n - 1, |e.legs|) by {
          ProgramTasks(e, n - 1);
        }
        CountLegTasks(n - 1, |e.legs|, x, k);
      } else {
        assert Pass(table, n - 1, kind) + [] == Pass(table, n - 1, kind);
      }
    }
  }

  lemma ProgramTasks(e: Entry, x: nat)
    requires e.Program?
    ensures TasksOf(e, x) == LegTasks(x, |e.legs|)
  {
  }

  lemma CountConcat(a: seq<Task>, b: seq<Task>, t: Task)
    ensures multiset(a + b)[t] == multiset(a)[t] + multiset(b)[t]
  {
  }

  lemma {:induction false} CountLegTasks(y: nat, n: nat, x: nat, k: nat)
    ensures multiset(LegTasks(y, n))[Programmed(x, k)] == if x == y && k < n then 1 else 0
  {
    LegTasksGrow(y, 0);
    if n > 0 {
      LegTasksGrow(y, n - 1);
      CountLegTasks(y, n - 1, x, k);
    }
  }

  /** The tasks of a session that succeeds have every transfer of every program entry exactly once. */
  lemma EachTransferOnce(table: seq<Entry>, nand: bool, x: nat, k: nat)
    requires x < |table| && table[x].Program? && k < |table[x].legs|
    ensures multiset(ExpectedPrograms(table, nand))[Programmed(x, k)] == 1
  {
    hide StartAfter, Pass;
    CountInPass(table, |table|, AllPrograms, x, k);
    CountInPass(table, |table|, ProgramsOffZero, x, k);
    CountInPass(table, |table|, ProgramsAtZero, x, k);
  }

  /** No transfer appears that is not in the table. */
  lemma NoOtherTransfer(table: seq<Entry>, nand: bool, x: nat, k: nat)
    requires Programmed(x, k) in ExpectedPrograms(table, nand)
    ensures x < |table| && table[x].Program? && k < |table[x].legs|
  {
    hide StartAfter, Pass;
    CountInPass(table, |table|, AllPrograms, x, k);
    CountInPass(table, |table|, ProgramsOffZero, x, k);
    CountInPass(table, |table|, ProgramsAtZero, x, k);
  }

  function Gaps(legs: seq<Leg>, n: nat): nat
    requires n <= |legs|
  {
    if n <= 1 then 0 else Gaps(legs, n - 1) + legs[n - 1].gap
  }

  /** The start sector cannot come back to 0 while the image stays within 32 bits. */
  lemma {:induction false} StartStaysOffZero(start: nat, legs: seq<Leg>, n: nat)
    requires 0 < start && n <= |legs| && start + Gaps(legs, n) < TWO32
    ensures StartAfter(start, legs, n) == start + Gaps(legs, n) > 0
  {
    if n > 1 {
      StartStaysOffZero(start, legs, n - 1);
    }
  }

  /** An entry near the end of the 32-bit sectors: a raw block and a hole of one block, eight sectors each, and then its
      second transfer starts at sector 0. */
  lemma ProcessedTwice()
    ensures var e := Program(0xFFFF_FFF0, 16, [Leg(0, [], true), Leg(16, [], true)]); TakenTwice([e], true)
  {
    var e := Program(0xFFFF_FFF0, 16, [Leg(0, [], true), Leg(16, [], true)]);
    StartMoves(e.startSector, e.legs, 0);
    StartMoves(e.startSector, e.legs, 1);
    assert MovesToZero([e][0]);
  }
}
