/** The transfers of a flashing session, read off its trace: which sector each announced and what was streamed. */
module SessionTransfers {
  import opened CTypes
  import opened Sequences
  import opened Session

  /** Transfer leg of entry x: the sector announced, and the pieces streamed behind the announcement. */
  datatype Moved = Moved(x: nat, leg: nat, startSector: nat, pieces: seq<seq<byte>>)

  function Behind(moved: seq<Moved>, e: Event): seq<Moved>
  {
    match e
    case SendProgram(x, k, startSector) => moved + [Moved(x, k, startSector, [])]
    case Data(piece) =>
      if moved == [] then moved
      else
        var last := moved[|moved| - 1];
        moved[..|moved| - 1] + [last.(pieces := last.pieces + [piece])]
    case _ => moved
  }

  function Through(moved: seq<Moved>, events: seq<Event>): seq<Moved>
  {
    if events == [] then moved else Behind(Through(moved, events[..|events| - 1]), events[|events| - 1])
  }

  /** The transfers of a trace. In a trace the monitor has nothing to object to, data flows only between the
      acknowledgement of an announcement and the one that ends raw mode, so that every piece belongs to the last
      transfer announced. */
  function Transfers(trace: seq<Event>): seq<Moved>
  {
    Through([], trace)
  }

  /** The transfer of a task: announced where the transfers before it have moved the start sector, and carrying the
      pieces of its leg, all of them or a front. */
  predicate Carries(table: seq<Entry>, task: Task, t: Moved, all: bool)
  {
    && task == Programmed(t.x, t.leg) && t.x < |table| && table[t.x].Program? && t.leg < |table[t.x].legs|
    && t.startSector == StartAfter(table[t.x].startSector, table[t.x].legs, t.leg + 1)
    && t.pieces <= table[t.x].legs[t.leg].pieces
    && (all ==> t.pieces == table[t.x].legs[t.leg].pieces)
  }

  /** The transfers are those of the tasks. */
  ghost predicate AreThose(table: seq<Entry>, tasks: seq<Task>, moved: seq<Moved>)
  {
    |moved| == |tasks| && forall i :: 0 <= i < |tasks| ==> Carries(table, tasks[i], moved[i], true)
  }

  /** The transfers are a front of those of the tasks, and the last has a front of its pieces. */
  ghost predicate AreFront(table: seq<Entry>, tasks: seq<Task>, moved: seq<Moved>)
  {
    && |moved| <= |tasks|
    && forall i :: 0 <= i < |moved| ==> Carries(table, tasks[i], moved[i], i < |moved| - 1)
  }

  // ---------- The transfers of what is sent ----------

  lemma {:induction false} ThroughConcat(moved: seq<Moved>, a: seq<Event>, b: seq<Event>)
    ensures Through(moved, a + b) == Through(Through(moved, a), b)
    decreases |b|
  {
    hide Behind;
    if b == [] {
      assert a + b == a;
    } else {
      var front := b[..|b| - 1];
      assert (a + b)[..|a + b| - 1] == a + front;
      ThroughConcat(moved, a, front);
    }
  }

  lemma ThroughNothing(moved: seq<Moved>)
    ensures Through(moved, []) == moved
  {
  }

  lemma ThroughOneMore(moved: seq<Moved>, events: seq<Event>, e: Event)
    ensures Through(moved, events + [e]) == Behind(Through(moved, events), e)
  {
    hide Behind;
    assert (events + [e])[..|events|] == events;
  }

  lemma ThroughOne(moved: seq<Moved>, e: Event)
    ensures Through(moved, [e]) == Behind(moved, e)
  {
    hide Behind;
    assert [] + [e] == [e];
    ThroughOneMore(moved, [], e);
  }

  lemma {:induction false} ThroughSends(trace: seq<Event>)
    ensures Transfers(Sends(trace)) == Transfers(trace)
    decreases |trace|
  {
    if trace != [] {
      var front, last := trace[..|trace| - 1], trace[|trace| - 1];
      ThroughSends(front);
      ThroughOneMore([], Sends(front), last);
      assert last.Got? ==> Sends(trace) == Sends(front);
    }
  }

  lemma {:induction false} ThroughDatas(moved: seq<Moved>, t: Moved, pieces: seq<seq<byte>>)
    ensures Through(moved + [t], Datas(pieces)) == moved + [t.(pieces := t.pieces + pieces)]
    decreases |pieces|
  {
    if pieces == [] {
      assert t.pieces + pieces == t.pieces;
    } else {
      var front, last := pieces[..|pieces| - 1], pieces[|pieces| - 1];
      ThroughDatas(moved, t, front);
      assert Datas(pieces)[..|front|] == Datas(front);
      assert t.pieces + front + [last] == t.pieces + pieces;
    }
  }

  function MoveOf(e: Entry, x: nat, k: nat): Moved
    requires e.Program? && k < |e.legs|
  {
    Moved(x, k, StartAfter(e.startSector, e.legs, k + 1), e.legs[k].pieces)
  }

  function LegMoves(e: Entry, x: nat, n: nat): seq<Moved>
    requires e.Program? && n <= |e.legs|
  {
    seq(n, k requires 0 <= k < n => MoveOf(e, x, k))
  }

  lemma ThroughLeg(moved: seq<Moved>, x: nat, k: nat, start: nat, pieces: seq<seq<byte>>)
    ensures Through(moved, [SendProgram(x, k, start)] + Datas(pieces)) == moved + [Moved(x, k, start, pieces)]
  {
    hide Through, Datas;
    ThroughConcat(moved, [SendProgram(x, k, start)], Datas(pieces));
    ThroughOne(moved, SendProgram(x, k, start));
    ThroughDatas(moved, Moved(x, k, start, []), pieces);
    assert [] + pieces == pieces;
  }

  lemma {:induction false} ThroughLegs(moved: seq<Moved>, e: Entry, x: nat, n: nat)
    requires e.Program? && n <= |e.legs|
    ensures Through(moved, LegSends(e, x, n)) == moved + LegMoves(e, x, n)
  {
    hide StartAfter, Through, Datas;
    ThroughNothing(moved);
    if n > 0 {
      var k := n - 1;
      var soFar, start, pieces := moved + LegMoves(e, x, k), StartAfter(e.startSector, e.legs, n), e.legs[k].pieces;
      ThroughLegs(moved, e, x, k);
      ThroughConcat(moved, LegSends(e, x, k), [SendProgram(x, k, start)] + Datas(pieces));
      ThroughLeg(soFar, x, k, start, pieces);
      assert LegMoves(e, x, n) == LegMoves(e, x, k) + [MoveOf(e, x, k)];
    }
  }

  function MovesOf(e: Entry, x: nat): seq<Moved>
  {
    if e.Program? then LegMoves(e, x, |e.legs|) else []
  }

  /** The transfers of the chosen ones of the first n entries. */
  function PassMoves(table: seq<Entry>, n: nat, kind: Kind): seq<Moved>
    requires n <= |table|
  {
    if n == 0 then []
    else PassMoves(table, n - 1, kind) + if Chosen(table[n - 1], kind) then MovesOf(table[n - 1], n - 1) else []
  }

  lemma MovesGrow(table: seq<Entry>, n: nat, kind: Kind)
    requires n <= |table|
    ensures PassMoves(table, 0, kind) == []
    ensures n > 0 ==>
              PassMoves(table, n, kind)
              == PassMoves(table, n - 1, kind) + if Chosen(table[n - 1], kind) then MovesOf(table[n - 1], n - 1) else []
  {
    hide MovesOf, Chosen;
  }

  lemma ThroughEntry(moved: seq<Moved>, e: Entry, x: nat)
    ensures Through(moved, SendsOf(e, x)) == moved + MovesOf(e, x)
  {
    hide LegMoves, LegSends, Through;
    if e.Program? {
      ThroughLegs(moved, e, x, |e.legs|);
    } else {
      ThroughOne(moved, SendsOf(e, x)[0]);
    }
  }

  lemma {:induction false} ThroughPass(moved: seq<Moved>, table: seq<Entry>, n: nat, kind: Kind)
    requires n <= |table|
    ensures Through(moved, PassSends(table, n, kind)) == moved + PassMoves(table, n, kind)
  {
    hide SendsOf, LegMoves, Chosen, Through, PassMoves;
    ThroughNothing(moved);
    MovesGrow(table, n, kind);
    if n > 0 {
      var e, soFar := table[n - 1], PassSends(table, n - 1, kind);
      ThroughPass(moved, table, n - 1, kind);
      if Chosen(e, kind) {
        ThroughConcat(moved, soFar, SendsOf(e, n - 1));
        ThroughEntry(moved + PassMoves(table, n - 1, kind), e, n - 1);
        ConcatAssociates(moved, PassMoves(table, n - 1, kind), MovesOf(e, n - 1));
      } else {
        assert soFar + [] == soFar;
      }
    }
  }

  lemma {:induction false} NoMoves(table: seq<Entry>, n: nat, kind: Kind)
    requires n <= |table| && kind in {ErasesAtZero, Vendors, SizedErases, Patches}
    ensures PassMoves(table, n, kind) == []
  {
    if n > 0 {
      NoMoves(table, n - 1, kind);
    }
  }

  lemma {:induction false} MovesOfPass(table: seq<Entry>, n: nat, kind: Kind)
    requires n <= |table| && kind in {AllPrograms, ProgramsOffZero, ProgramsAtZero}
    ensures AreThose(table, Pass(table, n, kind), PassMoves(table, n, kind))
  {
    hide StartAfter, PassMoves, Pass;
    MovesGrow(table, n, kind);
    PassGrows(table, if n > 0 then n - 1 else 0, kind);
    if n > 0 {
      MovesOfPass(table, n - 1, kind);
    }
  }

  // ---------- Fronts ----------

  /** As many transfers or fewer, the same but for the pieces of the last, which are a front. */
  ghost predicate Front(a: seq<Moved>, b: seq<Moved>)
  {
    && |a| <= |b|
    && (forall i :: 0 <= i < |a| - 1 ==> a[i] == b[i])
    && (a != [] ==>
          var s, t := a[|a| - 1], b[|a| - 1];
          s.(pieces := t.pieces) == t && s.pieces <= t.pieces)
  }

  lemma {:induction false} ThroughFront(a: seq<Event>, b: seq<Event>)
    requires a <= b
    ensures Front(Transfers(a), Transfers(b))
    decreases |b|
  {
    if |a| == |b| {
      assert a == b;
    } else {
      ThroughFront(a, b[..|b| - 1]);
    }
  }

  // ---------- The transfers of a session ----------

  function ProgramMoves(table: seq<Entry>, nand: bool): seq<Moved>
  {
    if nand then PassMoves(table, |table|, ProgramsOffZero) + PassMoves(table, |table|, ProgramsAtZero)
    else PassMoves(table, |table|, AllPrograms)
  }

  lemma MovesOfPrograms(table: seq<Entry>, nand: bool)
    ensures AreThose(table, ExpectedPrograms(table, nand), ProgramMoves(table, nand))
  {
    hide Pass, PassMoves, Carries;
    MovesOfPass(table, |table|, ProgramsOffZero);
    MovesOfPass(table, |table|, ProgramsAtZero);
    MovesOfPass(table, |table|, AllPrograms);
  }

  lemma ThroughErases(table: seq<Entry>, nand: bool, eraseAll: bool)
    ensures Transfers(EraseSends(table, nand, eraseAll)) == []
  {
    hide PassSends, PassMoves, Through;
    var n := |table|;
    var first := if nand || eraseAll then PassSends(table, n, ErasesAtZero) else [];
    ThroughNothing([]);
    NoMoves(table, n, ErasesAtZero);
    NoMoves(table, n, Vendors);
    NoMoves(table, n, SizedErases);
    ThroughPass([], table, n, ErasesAtZero);
    ThroughPass([], table, n, Vendors);
    ThroughPass([], table, n, SizedErases);
    ThroughConcat([], first, PassSends(table, n, Vendors));
    ThroughConcat([], first + PassSends(table, n, Vendors), if eraseAll then [] else PassSends(table, n, SizedErases));
  }

  lemma ThroughPrograms(table: seq<Entry>, nand: bool)
    ensures Transfers(ProgramSends(table, nand)) == ProgramMoves(table, nand)
  {
    hide PassSends, PassMoves, Through;
    var n := |table|;
    if nand {
      ThroughPass([], table, n, ProgramsOffZero);
      ThroughPass(PassMoves(table, n, ProgramsOffZero), table, n, ProgramsAtZero);
      ThroughConcat([], PassSends(table, n, ProgramsOffZero), PassSends(table, n, ProgramsAtZero));
      assert [] + PassMoves(table, n, ProgramsOffZero) == PassMoves(table, n, ProgramsOffZero);
    } else {
      ThroughPass([], table, n, AllPrograms);
    }
  }

  /** The boot drive and the reset are no transfers. */
  lemma ThroughLast(moved: seq<Moved>, table: seq<Entry>, nand: bool)
    ensures Through(moved, PassSends(table, |table|, Patches) + LastSends(nand)) == moved
  {
    hide PassSends, PassMoves, Through;
    ThroughPass(moved, table, |table|, Patches);
    NoMoves(table, |table|, Patches);
    assert moved + [] == moved;
    ThroughConcat(moved, PassSends(table, |table|, Patches), LastSends(nand));
    ThroughOne(moved, SendReset);
    ThroughOne(moved, SendBoot);
    ThroughOneMore(moved, [SendBoot], SendReset);
    assert [SendBoot] + [SendReset] == [SendBoot, SendReset];
  }

  lemma ThroughProposals(twice: bool)
    ensures Transfers(Proposals(twice)) == []
  {
    ThroughOne([], SendConfigure);
    ThroughOneMore([], [SendConfigure], SendConfigure);
    assert [SendConfigure] + [SendConfigure] == [SendConfigure, SendConfigure];
  }

  lemma ThroughAll(table: seq<Entry>, nand: bool, eraseAll: bool, twice: bool)
    ensures Transfers(Proposals(twice) + ExpectedSends(table, nand, eraseAll)) == ProgramMoves(table, nand)
  {
    hide PassSends, EraseSends, ProgramSends, LastSends, Proposals, Through, ProgramMoves;
    var a, b, c := Proposals(twice), EraseSends(table, nand, eraseAll), ProgramSends(table, nand);
    var d := PassSends(table, |table|, Patches) + LastSends(nand);
    ThroughProposals(twice);
    ThroughErases(table, nand, eraseAll);
    ThroughPrograms(table, nand);
    ThroughLast(ProgramMoves(table, nand), table, nand);
    ThroughConcat([], a, b + (c + d));
    ThroughConcat([], b, c + d);
    ThroughConcat([], c, d);
  }

  /** The transfers of a session that has sent everything are those of its tasks, in their order: each is announced at
      the sector where the ones before it have left the start sector, and carries the pieces of its file. Those of a
      session that was stopped are a front, and the last of them has a front of its pieces. */
  lemma TransfersAsExpected(trace: seq<Event>, table: seq<Entry>, nand: bool, eraseAll: bool, twice: bool)
    requires Sends(trace) <= Proposals(twice) + ExpectedSends(table, nand, eraseAll)
    ensures AreFront(table, ExpectedPrograms(table, nand), Transfers(trace))
    ensures Sends(trace) == Proposals(twice) + ExpectedSends(table, nand, eraseAll) ==>
              AreThose(table, ExpectedPrograms(table, nand), Transfers(trace))
  {
    hide Sends, Transfers, ExpectedPrograms, ExpectedSends, Proposals, ProgramMoves, StartAfter;
    var all := Proposals(twice) + ExpectedSends(table, nand, eraseAll);
    ThroughSends(trace);
    ThroughAll(table, nand, eraseAll, twice);
    MovesOfPrograms(table, nand);
    ThroughFront(Sends(trace), all);
  }

  // ---------- How often a command is sent ----------

  lemma TaskOfEntry(e: Entry, y: nat, t: Task)
    ensures t in TasksOf(e, y) ==> t.x == y
    ensures multiset(TasksOf(e, y))[t] == if t in TasksOf(e, y) then 1 else 0
  {
    if e.Program? && t.Programmed? {
      CountLegTasks(y, |e.legs|, t.x, t.leg);
    }
  }

  lemma {:induction false} CountTask(table: seq<Entry>, n: nat, kind: Kind, t: Task)
    requires n <= |table|
    ensures multiset(Pass(table, n, kind))[t]
         == if t.x < n && Chosen(table[t.x], kind) && t in TasksOf(table[t.x], t.x) then 1 else 0
  {
    hide Pass, TasksOf, Chosen;
    PassGrows(table, 0, kind);
    if n > 0 {
      CountTask(table, n - 1, kind, t);
      PassGrows(table, n - 1, kind);
      TaskOfEntry(table[n - 1], n - 1, t);
      if Chosen(table[n - 1], kind) {
        CountConcat(Pass(table, n - 1, kind), TasksOf(table[n - 1], n - 1), t);
      } else {
        assert Pass(table, n - 1, kind) + [] == Pass(table, n - 1, kind);
      }
    }
  }

  lemma CountErases(table: seq<Entry>, nand: bool, eraseAll: bool, t: Task)
    ensures multiset(ExpectedErases(table, nand, eraseAll))[t]
         == (if nand || eraseAll then multiset(Pass(table, |table|, ErasesAtZero))[t] else 0)
            + multiset(Pass(table, |table|, Vendors))[t]
            + (if eraseAll then 0 else multiset(Pass(table, |table|, SizedErases))[t])
  {
    hide Pass;
    var first := if nand || eraseAll then Pass(table, |table|, ErasesAtZero) else [];
    CountConcat(first, Pass(table, |table|, Vendors), t);
    CountConcat(first + Pass(table, |table|, Vendors), if eraseAll then [] else Pass(table, |table|, SizedErases), t);
  }

  lemma CountExpected(table: seq<Entry>, nand: bool, eraseAll: bool, t: Task)
    ensures multiset(Expected(table, nand, eraseAll))[t]
         == multiset(ExpectedErases(table, nand, eraseAll))[t] + multiset(ExpectedPrograms(table, nand))[t]
            + multiset(Pass(table, |table|, Patches))[t]
  {
    hide Pass, ExpectedErases, ExpectedPrograms;
    CountConcat(ExpectedErases(table, nand, eraseAll), ExpectedPrograms(table, nand), t);
    CountConcat(ExpectedErases(table, nand, eraseAll) + ExpectedPrograms(table, nand), Pass(table, |table|, Patches),
                t);
  }

  lemma CountPrograms(table: seq<Entry>, nand: bool, t: Task)
    requires !t.Programmed?
    ensures multiset(ExpectedPrograms(table, nand))[t] == 0
  {
    hide Pass;
    CountTask(table, |table|, AllPrograms, t);
    CountTask(table, |table|, ProgramsOffZero, t);
    CountTask(table, |table|, ProgramsAtZero, t);
    CountConcat(Pass(table, |table|, ProgramsOffZero), Pass(table, |table|, ProgramsAtZero), t);
  }

  lemma CommandTimes(table: seq<Entry>, nand: bool, eraseAll: bool, t: Task)
    requires !t.Programmed? && t.x < |table|
    ensures var e := table[t.x];
            multiset(Expected(table, nand, eraseAll))[t]
              == if t !in TasksOf(e, t.x) then 0
                 else (if Chosen(e, ErasesAtZero) && (nand || eraseAll) then 1 else 0)
                      + (if Chosen(e, Vendors) then 1 else 0)
                      + (if Chosen(e, SizedErases) && !eraseAll then 1 else 0)
                      + (if Chosen(e, Patches) then 1 else 0)
  {
    hide Pass, Expected, ExpectedErases, ExpectedPrograms, Chosen, TasksOf;
    CountExpected(table, nand, eraseAll, t);
    CountErases(table, nand, eraseAll, t);
    CountPrograms(table, nand, t);
    CountTask(table, |table|, ErasesAtZero, t);
    CountTask(table, |table|, Vendors, t);
    CountTask(table, |table|, SizedErases, t);
    CountTask(table, |table|, Patches, t);
  }

  /** Every vendor command and every patch is sent once. An erase is sent when it has a sector size, and in front of
      that on nand when it starts at sector 0, so that such a one is sent twice; if everything is to be erased, the
      erases from sector 0 are the only ones. */
  lemma EachCommand(table: seq<Entry>, nand: bool, eraseAll: bool, x: nat)
    requires x < |table|
    ensures var e, tasks := table[x], multiset(Expected(table, nand, eraseAll));
            && tasks[Vended(x)] == (if e.Vendor? then 1 else 0)
            && tasks[Patched(x)] == (if e.Patch? then 1 else 0)
            && tasks[Erased(x)]
               == (if e.Erase? && e.firstSector == 0 && (nand || eraseAll) then 1 else 0)
                  + (if e.Erase? && e.sectorSize != 0 && !eraseAll then 1 else 0)
  {
    hide Expected;
    CommandTimes(table, nand, eraseAll, Erased(x));
    CommandTimes(table, nand, eraseAll, Vended(x));
    CommandTimes(table, nand, eraseAll, Patched(x));
  }
}
