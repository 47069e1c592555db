/**
 The batching response loop (dhcp/request_processor.go:43-81). What the environment decides at
 each turn of the loop (what the channel delivers, when it is momentarily empty or closed, what
 the store does, which sends fail) is a schedule; the loop's effects are logged. The batches are
 determined by the schedule alone: each is the stretch of arrivals between two quiet turns.
 */
module Processor {
  import opened Leases
  import opened Sites
  import opened SaveLeases

  /** What happens at the loop's next channel operation. */
  datatype Turn =
    | Arrive(response: Response)
    | Close
    /** Nothing to receive: a non-empty batch is flushed. The fields are the world at that moment. */
    | Quiet(known: Known, store: Store, faults: Faults, undelivered: set<nat>)

  datatype Effect =
    | Saved(batch: seq<Response>, ok: bool, known: Known, after: Store)
    | Sent(response: Response, delivered: bool)

  /** Where the loop is: at the select, blocked on the channel after a quiet turn, or returned. */
  datatype Mode = Selecting | Blocked | Returned

  // ---------------------------------------------------------------- what the schedule says

  /** The first turn from turn n on that closes the channel, or the end of the schedule. */
  function CloseFrom(turns: seq<Turn>, n: nat): (m: nat)
    requires n <= |turns|
    ensures n <= m <= |turns|
    decreases |turns| - n
  {
    if n == |turns| || turns[n].Close? then n else CloseFrom(turns, n + 1)
  }

  function End(turns: seq<Turn>): (n: nat)
    ensures n <= |turns|
  {
    CloseFrom(turns, 0)
  }

  lemma {:induction false} CloseFromExact(turns: seq<Turn>, n: nat)
    requires n <= |turns|
    ensures forall i :: n <= i < CloseFrom(turns, n) ==> !turns[i].Close?
    ensures CloseFrom(turns, n) < |turns| ==> turns[CloseFrom(turns, n)].Close?
    decreases |turns| - n
  {
    if n < |turns| && !turns[n].Close? {
      CloseFromExact(turns, n + 1);
    }
  }

  /** What arrives from turn m up to turn n. */
  function Arrivals(turns: seq<Turn>, m: nat, n: nat): seq<Response>
    requires m <= n <= |turns|
  {
    if m == n then [] else Arrivals(turns, m, n - 1) + Delivers(turns[n - 1])
  }

  function Delivers(turn: Turn): seq<Response> {
    if turn.Arrive? then [turn.response] else []
  }

  /** What the schedule delivers before it closes the channel. */
  function Received(turns: seq<Turn>): seq<Response> {
    Arrivals(turns, 0, End(turns))
  }

  /** The turn after the last quiet one before turn n. */
  function Mark(turns: seq<Turn>, n: nat): (m: nat)
    requires n <= |turns|
    ensures m <= n
  {
    if n == 0 || turns[n - 1].Quiet? then n else Mark(turns, n - 1)
  }

  lemma {:induction false} MarkExact(turns: seq<Turn>, n: nat)
    requires n <= |turns|
    ensures Mark(turns, n) > 0 ==> turns[Mark(turns, n) - 1].Quiet?
    ensures forall i :: Mark(turns, n) <= i < n ==> !turns[i].Quiet?
  {
    if n > 0 && !turns[n - 1].Quiet? {
      MarkExact(turns, n - 1);
    }
  }

  /** What arrived between the last quiet turn before turn n and turn n. */
  function Stretch(turns: seq<Turn>, n: nat): seq<Response>
    requires n <= |turns|
  {
    Arrivals(turns, Mark(turns, n), n)
  }

  /** A quiet turn that ends a non-empty stretch. */
  predicate EndsStretch(turns: seq<Turn>, n: nat) {
    n < |turns| && turns[n].Quiet? && Stretch(turns, n) != []
  }

  /** The quiet turns before turn n that end a non-empty stretch, in order. */
  function FlushTurns(turns: seq<Turn>, n: nat): seq<nat> {
    if n == 0 then []
    else if EndsStretch(turns, n - 1) then FlushTurns(turns, n - 1) + [n - 1]
    else FlushTurns(turns, n - 1)
  }

  lemma {:induction false} FlushTurnsExact(turns: seq<Turn>, n: nat)
    ensures forall i: nat :: i in FlushTurns(turns, n) <==> i < n && EndsStretch(turns, i)
    ensures forall j, k :: 0 <= j < k < |FlushTurns(turns, n)| ==> FlushTurns(turns, n)[j] < FlushTurns(turns, n)[k]
  {
    if n > 0 {
      FlushTurnsExact(turns, n - 1);
      var at := FlushTurns(turns, n - 1);
      assert forall j :: 0 <= j < |at| ==> at[j] in at;
    }
  }

  // ---------------------------------------------------------------- what a log must look like

  /** One call of the save callback, with the world after it, and the sends that follow. */
  datatype Flush = Flush(batch: seq<Response>, ok: bool, known: Known, after: Store, sends: seq<Effect>) {
    function Save(): Effect {
      Saved(batch, ok, known, after)
    }

    function Effects(): seq<Effect> {
      [Save()] + sends
    }

    /** A failed save sends nothing; a successful one sends its batch in order, each response once. */
    ghost predicate Right() {
      && batch != []
      && |sends| == (if ok then |batch| else 0)
      && forall i :: 0 <= i < |sends| ==> sends[i].Sent? && sends[i].response == batch[i]
    }

    /** The save has the outcome that the world of the turn dictates. */
    ghost predicate SavedAt(turn: Turn) {
      && turn.Quiet?
      && known == turn.known
      && (ok <==> Clean(turn.known, turn.store, LeasesOf(batch), turn.faults))
      && exists done ::
           && Handled(turn.known, turn.store, LeasesOf(batch), turn.faults, ok, done)
           && after == SaveGroups(turn.known, turn.store, LeasesOf(batch), done)
    }

    /** The sends fare as the world of the turn dictates. */
    ghost predicate SentAt(turn: Turn) {
      && turn.Quiet?
      && forall i :: 0 <= i < |sends| ==> sends[i].Sent? && (sends[i].delivered <==> i !in turn.undelivered)
    }

    ghost predicate At(turn: Turn) {
      Right() && SavedAt(turn) && SentAt(turn)
    }
  }

  /** The flush of one quiet turn of the schedule. */
  ghost predicate FlushAt(turns: seq<Turn>, n: nat, f: Flush) {
    n < |turns| && f.batch == Stretch(turns, n) && f.At(turns[n])
  }

  ghost predicate FlushesAt(turns: seq<Turn>, at: seq<nat>, fs: seq<Flush>) {
    && |at| == |fs|
    && forall k :: 0 <= k < |at| ==> FlushAt(turns, at[k], fs[k])
  }

  function LogOf(fs: seq<Flush>): seq<Effect> {
    if fs == [] then [] else LogOf(fs[..|fs| - 1]) + fs[|fs| - 1].Effects()
  }

  /** The log of the first n turns: a flush for each quiet turn that ends a non-empty stretch, and nothing else. */
  ghost predicate Logged(turns: seq<Turn>, n: nat, log: seq<Effect>) {
    exists fs :: FlushesAt(turns, FlushTurns(turns, n), fs) && log == LogOf(fs)
  }

  /** The responses handed to the callback, in order. */
  function Flushed(fs: seq<Flush>): seq<Response> {
    if fs == [] then [] else Flushed(fs[..|fs| - 1]) + fs[|fs| - 1].batch
  }

  /** The responses of the successful saves, in order. */
  function Accepted(fs: seq<Flush>): seq<Response> {
    if fs == [] then []
    else Accepted(fs[..|fs| - 1]) + if fs[|fs| - 1].ok then fs[|fs| - 1].batch else []
  }

  /** The send attempts of a log, in order. */
  function Attempts(log: seq<Effect>): seq<Response> {
    if log == [] then []
    else
      var init, e := Attempts(log[..|log| - 1]), log[|log| - 1];
      if e.Sent? then init + [e.response] else init
  }

  function LeasesOf(rs: seq<Response>): (ls: seq<Lease>)
    ensures |ls| == |rs|
    ensures forall i :: 0 <= i < |rs| ==> ls[i] == rs[i].lease
  {
    if rs == [] then [] else LeasesOf(rs[..|rs| - 1]) + [rs[|rs| - 1].lease]
  }

  // ---------------------------------------------------------------- the loop

  /** The responses received and not yet handed to the callback. */
  function Pending(mode: Mode, responses: seq<Response>): seq<Response> {
    if mode.Blocked? then [] else responses
  }

  /**
   The loop: it flushes exactly at the quiet turns that end a non-empty stretch, each time that
   stretch, with the outcome dictated by that turn's world; what it then still holds is the
   stretch up to the close.
   */
  method RunResponseProcessor(turns: seq<Turn>) returns (log: seq<Effect>, responses: seq<Response>, mode: Mode)
    ensures Logged(turns, End(turns), log)
    ensures Pending(mode, responses) == Stretch(turns, End(turns))
    ensures mode.Returned? <==> Close in turns
  {
    hide Logged, Flushes;
    log, responses, mode := [], [], Selecting;
    NothingLogged(turns);
    CloseFromExact(turns, 0);
    for n := 0 to |turns|
      invariant CloseFrom(turns, n) == End(turns)
      invariant Logged(turns, n, log)
      invariant Pending(mode, responses) == Stretch(turns, n)
      invariant !mode.Returned?
    {
      var effects;
      responses, mode, effects := TakeTurn(responses, mode, turns[n]);
      if mode.Returned? {
        return;
      }
      NextStretch(turns, n);
      NextLogged(turns, n, log, effects);
      log := log + effects;
    }
  }

  lemma NothingLogged(turns: seq<Turn>)
    ensures Logged(turns, 0, [])
  {
    assert FlushesAt(turns, FlushTurns(turns, 0), []) && LogOf([]) == [];
  }

  lemma NextStretch(turns: seq<Turn>, n: nat)
    requires n < |turns|
    ensures Stretch(turns, n + 1) == if turns[n].Quiet? then [] else Stretch(turns, n) + Delivers(turns[n])
  {
  }

  lemma NextLogged(turns: seq<Turn>, n: nat, log: seq<Effect>, effects: seq<Effect>)
    requires n < |turns| && Logged(turns, n, log) && Flushes(turns[n], Stretch(turns, n), effects)
    ensures Logged(turns, n + 1, log + effects)
  {
    hide Flush.At;
    var fs :| FlushesAt(turns, FlushTurns(turns, n), fs) && log == LogOf(fs);
    if EndsStretch(turns, n) {
      var f: Flush :| f.Effects() == effects && f.batch == Stretch(turns, n) && f.At(turns[n]);
      NextFlush(turns, n, FlushTurns(turns, n), fs, f);
    } else {
      assert log + effects == log;
    }
  }

  lemma NextFlush(turns: seq<Turn>, n: nat, at: seq<nat>, fs: seq<Flush>, f: Flush)
    requires FlushesAt(turns, at, fs) && FlushAt(turns, n, f)
    ensures FlushesAt(turns, at + [n], fs + [f])
    ensures LogOf(fs + [f]) == LogOf(fs) + f.Effects()
  {
    assert (fs + [f])[..|fs|] == fs;
  }

  /** What a turn does: flush the pending responses, if there are any and the turn is quiet. */
  ghost predicate Flushes(turn: Turn, pending: seq<Response>, effects: seq<Effect>) {
    if turn.Quiet? && pending != []
    then exists f: Flush :: f.Effects() == effects && f.batch == pending && f.At(turn)
    else effects == []
  }

  /** One channel operation of the loop and what follows it. */
  method TakeTurn(responses: seq<Response>, mode: Mode, turn: Turn)
    returns (responses': seq<Response>, mode': Mode, effects: seq<Effect>)
    requires !mode.Returned?
    ensures Flushes(turn, Pending(mode, responses), effects)
    ensures Pending(mode', responses') ==
            if turn.Quiet? then [] else Pending(mode, responses) + Delivers(turn)
    ensures mode'.Returned? <==> turn.Close?
  {
    responses', mode', effects := responses, mode, [];
    match turn
    case Arrive(r) =>
      responses' := if mode.Blocked? then [r] else responses + [r];
      mode' := Selecting;
    case Close =>
      if mode.Blocked? {
        responses' := [];
      }
      mode' := Returned;
    case Quiet(_, _, _, _) =>
      if mode.Selecting? {
        if |responses| > 0 {
          var f := FlushBatch(responses, turn);
          effects := f.Effects();
          if f.ok {
            mode' := Blocked;
          } else {
            responses' := [];
          }
        } else {
          mode' := Blocked;
        }
      }
  }

  /** A quiet turn with a non-empty batch: save it, then, if that went well, send each response. */
  method FlushBatch(responses: seq<Response>, turn: Turn) returns (f: Flush)
    requires turn.Quiet? && responses != []
    ensures f.batch == responses && f.At(turn)
  {
    var ls := LeasesOf(responses);
    var ok, after, done := CallbackSaveLeases(turn.known, turn.store, ls, turn.faults);
    var sends: seq<Effect> := [];
    if ok {
      for i := 0 to |responses|
        invariant |sends| == i
        invariant forall j :: 0 <= j < i ==> sends[j] == Sent(responses[j], j !in turn.undelivered)
      {
        sends := sends + [Sent(responses[i], i !in turn.undelivered)];
      }
    }
    f := Flush(responses, ok, turn.known, after, sends);
  }

  // ---------------------------------------------------------------- what is received, handed over, lost

  /** The batches and the last stretch are the arrivals, in order and each once. */
  lemma {:induction false} FlushedThenStretch(turns: seq<Turn>, n: nat, fs: seq<Flush>)
    requires n <= |turns| && FlushesAt(turns, FlushTurns(turns, n), fs)
    ensures Flushed(fs) + Stretch(turns, n) == Arrivals(turns, 0, n)
  {
    hide Flush.At, FlushAt, Stretch;
    if n == 0 {
      EmptyStretch(turns);
    } else {
      NextStretch(turns, n - 1);
      if EndsStretch(turns, n - 1) {
        var at := FlushTurns(turns, n - 1);
        assert at + [n - 1] == FlushTurns(turns, n) && (at + [n - 1])[..|at|] == at;
        EarlierFlushes(turns, at + [n - 1], fs);
        FlushedThenStretch(turns, n - 1, fs[..|fs| - 1]);
      } else {
        FlushedThenStretch(turns, n - 1, fs);
      }
    }
  }

  lemma EmptyStretch(turns: seq<Turn>)
    ensures Stretch(turns, 0) == []
  {
  }

  lemma EarlierFlushes(turns: seq<Turn>, at: seq<nat>, fs: seq<Flush>)
    requires at != [] && FlushesAt(turns, at, fs)
    ensures FlushesAt(turns, at[..|at| - 1], fs[..|fs| - 1])
    ensures fs[|fs| - 1].batch == Stretch(turns, at[|at| - 1])
  {
    hide Flush.At;
    assert FlushAt(turns, at[|at| - 1], fs[|fs| - 1]);
  }

  lemma ArrivalsNext(turns: seq<Turn>, m: nat, n: nat)
    requires m <= n < |turns|
    ensures Arrivals(turns, m, n + 1) == Arrivals(turns, m, n) + Delivers(turns[n])
  {
  }

  ghost predicate Silent(turns: seq<Turn>, m: nat, n: nat)
    requires m <= n <= |turns|
  {
    forall i :: m <= i < n ==> !turns[i].Arrive?
  }

  lemma NothingYet(turns: seq<Turn>, m: nat)
    requires m <= |turns|
    ensures Arrivals(turns, m, m) == [] && Silent(turns, m, m)
  {
  }

  lemma SilentNext(turns: seq<Turn>, m: nat, n: nat)
    requires m <= n < |turns|
    ensures Silent(turns, m, n + 1) <==> Silent(turns, m, n) && !turns[n].Arrive?
  {
  }

  lemma {:induction false} NoArrivalsIff(turns: seq<Turn>, m: nat, n: nat)
    requires m <= n <= |turns|
    ensures Arrivals(turns, m, n) == [] <==> Silent(turns, m, n)
  {
    hide Arrivals, Silent;
    if m == n {
      NothingYet(turns, m);
    } else {
      NoArrivalsIff(turns, m, n - 1);
      ArrivalsNext(turns, m, n - 1);
      SilentNext(turns, m, n - 1);
    }
  }

  /** Before turn n every arrival is followed by a quiet turn. */
  ghost predicate Settled(turns: seq<Turn>, n: nat)
    requires n <= |turns|
  {
    forall i :: 0 <= i < n && turns[i].Arrive? ==> exists j :: i < j < n && turns[j].Quiet?
  }

  lemma SettledIff(turns: seq<Turn>, n: nat)
    requires n <= |turns|
    ensures Stretch(turns, n) == [] <==> Settled(turns, n)
  {
    var m := Mark(turns, n);
    MarkExact(turns, n);
    NoArrivalsIff(turns, m, n);
    if Stretch(turns, n) == [] {
      forall i | 0 <= i < n && turns[i].Arrive?
        ensures exists j :: i < j < n && turns[j].Quiet?
      {
        assert i < m - 1 && turns[m - 1].Quiet?;
      }
    }
  }

  /** The flushes of a whole schedule. */
  ghost predicate FlushesOf(turns: seq<Turn>, fs: seq<Flush>) {
    FlushesAt(turns, FlushTurns(turns, End(turns)), fs)
  }

  /** Everything received reaches the callback if and only if a quiet turn follows every arrival before the close. */
  lemma AllHandedOverIff(turns: seq<Turn>, fs: seq<Flush>)
    requires FlushesOf(turns, fs)
    ensures Flushed(fs) == Received(turns) <==> Settled(turns, End(turns))
  {
    hide Flush.At;
    FlushedThenStretch(turns, End(turns), fs);
    SettledIff(turns, End(turns));
  }

  /** A response followed at once by the close is received and then neither saved nor sent. */
  lemma LostAtClose(r: Response, log: seq<Effect>)
    requires Logged([Arrive(r), Close], End([Arrive(r), Close]), log)
    ensures Received([Arrive(r), Close]) == [r] && log == []
  {
    hide Flush.At;
    var turns := [Arrive(r), Close];
    assert CloseFrom(turns, 1) == 1;
    assert Arrivals(turns, 0, 0) == [] && Arrivals(turns, 0, 1) == [r];
    assert FlushTurns(turns, 0) == [] && !EndsStretch(turns, 0);
  }

  // ---------------------------------------------------------------- save before send

  ghost predicate AllRight(fs: seq<Flush>) {
    forall i :: 0 <= i < |fs| ==> fs[i].Right()
  }

  lemma FlushesAreRight(turns: seq<Turn>, at: seq<nat>, fs: seq<Flush>)
    requires FlushesAt(turns, at, fs)
    ensures AllRight(fs)
  {
    forall i | 0 <= i < |fs|
      ensures fs[i].Right()
    {
      assert FlushAt(turns, at[i], fs[i]);
    }
  }

  lemma {:induction false} AttemptsConcat(log: seq<Effect>, more: seq<Effect>)
    ensures Attempts(log + more) == Attempts(log) + Attempts(more)
  {
    if more == [] {
      assert log + more == log;
    } else {
      assert (log + more)[..|log + more| - 1] == log + more[..|more| - 1];
      AttemptsConcat(log, more[..|more| - 1]);
    }
  }

  lemma {:induction false} AttemptsOfSends(sends: seq<Effect>, batch: seq<Response>)
    requires |sends| == |batch|
    requires forall i :: 0 <= i < |sends| ==> sends[i].Sent? && sends[i].response == batch[i]
    ensures Attempts(sends) == batch
  {
    if sends != [] {
      var n := |sends| - 1;
      AttemptsOfSends(sends[..n], batch[..n]);
      assert batch == batch[..n] + [batch[n]];
    }
  }

  lemma AttemptsOfFlush(f: Flush)
    requires f.Right()
    ensures Attempts(f.Effects()) == if f.ok then f.batch else []
  {
    AttemptsConcat([f.Save()], f.sends);
    assert [f.Save()][..0] == [];
    AttemptsOfSends(f.sends, if f.ok then f.batch else []);
  }

  /** The sends of a log are the responses of its successful saves, in arrival order, one attempt each. */
  lemma {:induction false} AttemptsAreAccepted(fs: seq<Flush>)
    requires AllRight(fs)
    ensures Attempts(LogOf(fs)) == Accepted(fs)
  {
    if fs != [] {
      var init, f := fs[..|fs| - 1], fs[|fs| - 1];
      AttemptsAreAccepted(init);
      AttemptsConcat(LogOf(init), f.Effects());
      AttemptsOfFlush(f);
    }
  }

  ghost predicate AllOk(fs: seq<Flush>) {
    forall k :: 0 <= k < |fs| ==> fs[k].ok
  }

  lemma {:induction false} AcceptedIfOk(fs: seq<Flush>)
    requires AllOk(fs)
    ensures Accepted(fs) == Flushed(fs)
  {
    if fs != [] {
      AcceptedIfOk(fs[..|fs| - 1]);
    }
  }

  lemma {:induction false} AcceptedCount(fs: seq<Flush>)
    requires AllRight(fs)
    ensures |Accepted(fs)| <= |Flushed(fs)|
    ensures |Accepted(fs)| == |Flushed(fs)| ==> AllOk(fs)
  {
    if fs != [] {
      var init, f := fs[..|fs| - 1], fs[|fs| - 1];
      AcceptedCount(init);
      assert f.Right() && f.batch != [];
      hide Flush.Right;
      if |Accepted(fs)| == |Flushed(fs)| {
        assert f.ok && AllOk(init);
      }
    }
  }

  /** At every quiet turn before turn n that ends a non-empty stretch, no subnet of the stretch meets a fault. */
  ghost predicate AllClean(turns: seq<Turn>, n: nat) {
    forall k :: 0 <= k < |FlushTurns(turns, n)| ==> CleanTurn(turns, FlushTurns(turns, n)[k])
  }

  ghost predicate CleanTurn(turns: seq<Turn>, i: nat) {
    i < |turns| && turns[i].Quiet? &&
    Clean(turns[i].known, turns[i].store, LeasesOf(Stretch(turns, i)), turns[i].faults)
  }

  lemma OkIsClean(turns: seq<Turn>, n: nat, f: Flush)
    requires FlushAt(turns, n, f)
    ensures turns[n].Quiet? && (f.ok <==> CleanTurn(turns, n))
  {
  }

  /**
   Everything received is sent if and only if a quiet turn follows every arrival before the close
   and every quiet turn with something to save saves it without a fault.
   */
  lemma AllSentIff(turns: seq<Turn>, fs: seq<Flush>)
    requires FlushesOf(turns, fs)
    ensures Attempts(LogOf(fs)) == Received(turns) <==> Settled(turns, End(turns)) && AllClean(turns, End(turns))
  {
    hide Flush.At, CleanTurn;
    var at := FlushTurns(turns, End(turns));
    FlushesAreRight(turns, at, fs);
    AttemptsAreAccepted(fs);
    AcceptedCount(fs);
    if AllOk(fs) {
      AcceptedIfOk(fs);
    }
    FlushedThenStretch(turns, End(turns), fs);
    SettledIff(turns, End(turns));
    forall k | 0 <= k < |fs|
      ensures fs[k].ok <==> CleanTurn(turns, at[k])
    {
      OkIsClean(turns, at[k], fs[k]);
    }
  }

  /** Where a flush lies in the log. */
  lemma {:induction false} FlushInLog(fs: seq<Flush>, n: nat) returns (j: nat)
    requires n < |fs|
    ensures j + |fs[n].Effects()| <= |LogOf(fs)| && LogOf(fs)[j..j + |fs[n].Effects()|] == fs[n].Effects()
  {
    var init := fs[..|fs| - 1];
    if n < |init| {
      j := FlushInLog(init, n);
      assert LogOf(fs)[..|LogOf(init)|] == LogOf(init);
      assert LogOf(fs)[j..j + |fs[n].Effects()|] == LogOf(init)[j..j + |fs[n].Effects()|];
    } else {
      j := |LogOf(init)|;
    }
  }

  /** Which flush a position of the log belongs to. */
  lemma {:induction false} FlushOfLog(fs: seq<Flush>, i: nat) returns (n: nat, j: nat)
    requires i < |LogOf(fs)|
    ensures n < |fs| && j <= i < j + |fs[n].Effects()| <= |LogOf(fs)|
    ensures LogOf(fs)[j..j + |fs[n].Effects()|] == fs[n].Effects()
  {
    var init := fs[..|fs| - 1];
    if i < |LogOf(init)| {
      n, j := FlushOfLog(init, i);
      assert LogOf(fs)[..|LogOf(init)|] == LogOf(init);
      assert LogOf(fs)[j..j + |fs[n].Effects()|] == LogOf(init)[j..j + |fs[n].Effects()|];
    } else {
      n, j := |init|, |LogOf(init)|;
    }
  }

  /** Every send comes after the successful save of its own batch, with nothing but that batch's sends between. */
  lemma SendFollowsItsSave(fs: seq<Flush>, i: nat) returns (n: nat, j: nat)
    requires AllRight(fs)
    requires i < |LogOf(fs)| && LogOf(fs)[i].Sent?
    ensures n < |fs| && j < i && LogOf(fs)[j] == fs[n].Save() && fs[n].ok
    ensures i - j - 1 < |fs[n].sends| == |fs[n].batch| && LogOf(fs)[i].response == fs[n].batch[i - j - 1]
    ensures forall m :: j < m <= i ==> LogOf(fs)[m] == fs[n].sends[m - j - 1]
  {
    n, j := FlushOfLog(fs, i);
    var es := fs[n].Effects();
    forall m | j <= m <= i
      ensures LogOf(fs)[m] == es[m - j]
    {
      assert LogOf(fs)[j + (m - j)] == LogOf(fs)[j..j + |es|][m - j];
    }
  }

  // ---------------------------------------------------------------- what of the sent is stored

  /** The addresses stored for the leases of known subnets after a successful save of agreeing subnets. */
  lemma SavedIsStored(turn: Turn, f: Flush, r: Response)
    requires f.At(turn) && f.ok && r in f.batch
    requires r.lease.subnet in turn.known && Agree(turn.known, LeasesOf(f.batch))
    ensures var l := r.lease;
            && LastIp(LeasesOf(f.batch), l.subnet, l.mac).Some?
            && Entry(f.after, turn.known[l.subnet], l.mac) == LastIp(LeasesOf(f.batch), l.subnet, l.mac)
  {
    var ls := LeasesOf(f.batch);
    var i :| 0 <= i < |f.batch| && f.batch[i] == r;
    assert ls[i] == r.lease;
    MemberNames(ls, r.lease);
    var done :| Handled(turn.known, turn.store, ls, turn.faults, f.ok, done) &&
                f.after == SaveGroups(turn.known, turn.store, ls, done);
    SavedEntry(turn.known, turn.store, ls, done, r.lease);
  }

  /**
   End to end: every send lies behind a save recorded in the log, made at a quiet turn of the
   schedule, whose batch is the stretch ending there and has the sent response. If that turn's
   known subnets agree on the batch and the lease names one of them, the store after that save
   has the client at the address of its last response for that subnet in the batch.
   */
  lemma SentIsStored(turns: seq<Turn>, fs: seq<Flush>, i: nat) returns (t: nat, j: nat)
    requires FlushesOf(turns, fs)
    requires i < |LogOf(fs)| && LogOf(fs)[i].Sent?
    ensures t < End(turns) && EndsStretch(turns, t) && CleanTurn(turns, t)
    ensures j < i && LogOf(fs)[j].Saved? && LogOf(fs)[j].ok && LogOf(fs)[j].batch == Stretch(turns, t)
    ensures LogOf(fs)[i].response in Stretch(turns, t)
    ensures var l, ls := LogOf(fs)[i].response.lease, LeasesOf(Stretch(turns, t));
            l.subnet in turns[t].known && Agree(turns[t].known, ls) ==>
              && LastIp(ls, l.subnet, l.mac).Some?
              && Entry(LogOf(fs)[j].after, turns[t].known[l.subnet], l.mac) == LastIp(ls, l.subnet, l.mac)
  {
    hide Flush.At, CleanTurn, EndsStretch, Agree;
    var at := FlushTurns(turns, End(turns));
    FlushesAreRight(turns, at, fs);
    var n;
    n, j := SendFollowsItsSave(fs, i);
    t := at[n];
    FlushTurnsExact(turns, End(turns));
    assert at[n] in at;
    OkIsClean(turns, t, fs[n]);
    var r := LogOf(fs)[i].response;
    if r.lease.subnet in turns[t].known && Agree(turns[t].known, LeasesOf(fs[n].batch)) {
      SavedIsStored(turns[t], fs[n], r);
    }
  }

  lemma UnsavedIsKept(turn: Turn, f: Flush, key: ObjectKey, mac: string)
    requires f.At(turn) && !NamesKnown(turn.known, LeasesOf(f.batch), mac)
    ensures Entry(f.after, key, mac) == Entry(turn.store, key, mac)
  {
    var ls := LeasesOf(f.batch);
    var done :| Handled(turn.known, turn.store, ls, turn.faults, f.ok, done) &&
                f.after == SaveGroups(turn.known, turn.store, ls, done);
    UnknownIsUnsaved(turn.known, turn.store, ls, done, key, mac);
  }

  /**
   The other side: a client none of whose leases in a saved batch names a known subnet (such as
   the owner of a reservation, whose leases name none) has its entries left as they were in every
   object, and every response to it is sent all the same.
   */
  lemma SentWithoutStoring(turns: seq<Turn>, fs: seq<Flush>, k: nat, mac: string) returns (t: nat, j: nat)
    requires FlushesOf(turns, fs) && k < |fs| && fs[k].ok
    requires !NamesKnown(fs[k].known, LeasesOf(fs[k].batch), mac)
    ensures t < End(turns) && EndsStretch(turns, t)
    ensures fs[k].Save() == Saved(Stretch(turns, t), true, turns[t].known, fs[k].after)
    ensures forall key :: Entry(fs[k].after, key, mac) == Entry(turns[t].store, key, mac)
    ensures |fs[k].sends| == |Stretch(turns, t)|
    ensures forall i :: 0 <= i < |fs[k].sends| ==>
              fs[k].sends[i] == Sent(Stretch(turns, t)[i], i !in turns[t].undelivered)
    ensures j + |fs[k].Effects()| <= |LogOf(fs)| && LogOf(fs)[j..j + |fs[k].Effects()|] == fs[k].Effects()
  {
    hide EndsStretch;
    var at := FlushTurns(turns, End(turns));
    FlushTurnsExact(turns, End(turns));
    t := at[k];
    assert at[k] in at && FlushAt(turns, t, fs[k]);
    j := FlushInLog(fs, k);
    forall key
      ensures Entry(fs[k].after, key, mac) == Entry(turns[t].store, key, mac)
    {
      UnsavedIsKept(turns[t], fs[k], key, mac);
    }
  }
}
