/** The three parties of a change subscription as they change their fields: the engine's cursor, the
    server's delta request, the client's pump. `final` is the committed log at some later time; whatever
    was committed when a party looked is a prefix of it. */
module Subscription {
  import opened Errors
  import opened SubscriptionModel

  const BATCH_BUDGET: nat := 0x10_0000
  const SKIP_COST: nat := 64

  /** What a look under the root lock sees: the committed records, the first one retained, and the
      committed number as read just before. */
  datatype Moment = Moment(log: seq<Rec>, tail: nat, to: nat)

  predicate MomentOk(m: Moment, final: seq<Rec>) {
    m.log <= final && m.to <= |m.log| && m.tail <= |m.log| + 1
  }

  predicate MomentsOk(looks: seq<Moment>, final: seq<Rec>) {
    forall i :: 0 <= i < |looks| ==> MomentOk(looks[i], final)
  }

  /** At one of the looks the window had left this position behind. */
  predicate SawBehind(looks: seq<Moment>, position: nat) {
    exists i :: 0 <= i < |looks| && Behind(looks[i].log, looks[i].tail, position)
  }

  lemma NothingDue(log: seq<Rec>, f: Filter, n: nat)
    ensures Matching(log, f, n, n) == []
  {
  }

  lemma OneMore(log: seq<Rec>, f: Filter, lo: nat, n: nat)
    requires lo <= n < |log|
    ensures Matching(log, f, lo, n + 1)
         == Matching(log, f, lo, n) + if Wanted(f, log[n]) then [Event(n + 1, log[n])] else []
  {
    MatchingSplit(log, f, lo, n, n + 1);
    assert Matching(log, f, n + 1, n + 1) == [];
  }

  /** What a record is charged against a scan's budget. */
  function Charge(f: Filter, cost: Rec -> nat, r: Rec): nat {
    if Wanted(f, r) then cost(r)
    else if (f.tables != {} && r.table !in f.tables) || (f.resolves(r.table) && r.kind == Mark) then SKIP_COST
    else 0
  }

  /** What the records with lo < seq <= hi are charged. */
  function Charged(log: seq<Rec>, f: Filter, cost: Rec -> nat, lo: nat, hi: nat): nat
    decreases hi - lo
  {
    if lo >= hi || hi > |log| then 0 else Charged(log, f, cost, lo, hi - 1) + Charge(f, cost, log[hi - 1])
  }

  lemma {:induction false} ChargedGrows(log: seq<Rec>, f: Filter, cost: Rec -> nat, lo: nat, a: nat, b: nat, hi: nat)
    requires lo <= a <= b <= hi && hi <= |log|
    ensures Charged(log, f, cost, a, b) <= Charged(log, f, cost, lo, hi)
    decreases hi - lo
  {
    if hi > b {
      ChargedGrows(log, f, cost, lo, a, b, hi - 1);
    } else if lo < a && a < b {
      ChargedGrows(log, f, cost, lo, a, b - 1, hi - 1);
    }
  }

  /** The whole look has been scanned, or the budget has gone on records that nobody wants. */
  predicate Seen(m: Moment, final: seq<Rec>, f: Filter, cost: Rec -> nat, lo: nat, hi: nat) {
    m.to <= hi || Charged(final, f, cost, lo, hi) >= BATCH_BUDGET
  }

  lemma SeenLater(m: Moment, final: seq<Rec>, f: Filter, cost: Rec -> nat, lo: nat, a: nat, b: nat, hi: nat)
    requires Seen(m, final, f, cost, a, b) && lo <= a <= b <= hi && (lo < hi ==> hi <= |final|)
    ensures Seen(m, final, f, cost, lo, hi)
  {
    if lo < hi { ChargedGrows(final, f, cost, lo, a, b, hi); }
  }

  datatype ChangeBatch = ChangeBatch(events: seq<Event>, lastSeq: nat)

  class ChangeCursor {
    const f: Filter
    const cost: Rec -> nat
    var position: nat

    constructor (f: Filter, cost: Rec -> nat, committed: nat)
      ensures this.f == f && this.cost == cost && position == committed
    {
      this.f, this.cost, position := f, cost, committed;
    }

    method ResetTo(seqNo: nat)
      modifies this
      ensures position == seqNo
    {
      position := seqNo;
    }

    /** One scan of the window: stops at the byte budget, skips what is not wanted but moves past it. */
    method Scan(m: Moment, ghost final: seq<Rec>) returns (status: Err, events: seq<Event>, last: nat)
      requires MomentOk(m, final) && position < m.to
      ensures status == if Behind(m.log, m.tail, position) then CursorOverflow else Ok
      ensures status == Ok ==> position < last <= m.to && events == Matching(final, f, position, last)
      ensures status == Ok ==> Seen(m, final, f, cost, position, last)
      ensures status == Ok ==> Charged(final, f, cost, position, last - 1) < BATCH_BUDGET
    {
      hide Matching;
      events, last := [], position;
      NothingDue(final, f, position);
      if last < m.to && last + 1 < m.tail { return CursorOverflow, events, last; }
      var budget := 0;
      while last < m.to
        invariant position <= last <= m.to && events == Matching(final, f, position, last)
        invariant last == position ==> budget == 0
        invariant budget == Charged(final, f, cost, position, last)
        invariant last > position ==> Charged(final, f, cost, position, last - 1) < BATCH_BUDGET
      {
        if budget >= BATCH_BUDGET { break; }
        var r := m.log[last];
        assert r == final[last];
        OneMore(final, f, position, last);
        if f.tables != {} && r.table !in f.tables {
          budget := budget + SKIP_COST;
        } else if !f.resolves(r.table) {
        } else if r.kind == Mark {
          budget := budget + SKIP_COST;
        } else if r.kind == RowWrite && !f.decodes(r) {
        } else {
          budget := budget + cost(r);
          events := events + [Event(last + 1, r)];
        }
        last := last + 1;
      }
      return Ok, events, last;
    }

    /** Waits for the first batch with an event; `looks` are the moments it wakes up at before the timeout. */
    method Next(looks: seq<Moment>, ghost final: seq<Rec>) returns (r: Result<ChangeBatch>)
      requires MomentsOk(looks, final)
      modifies this
      ensures old(position) <= position && (old(position) < position ==> position <= |final|)
      ensures r.Success? ==>
        && r.value.lastSeq == position
        && r.value.events == Matching(final, f, old(position), position)
      ensures r.Failure? ==> r.error == CursorOverflow && Matching(final, f, old(position), position) == []
      ensures r.Failure? ==> SawBehind(looks, position)
      ensures r.Success? && r.value.events == [] ==>
        forall i :: 0 <= i < |looks| ==> Seen(looks[i], final, f, cost, old(position), position)
    {
      hide Matching, Charged;
      NothingDue(final, f, position);
      var batch := ChangeBatch([], position);
      for i := 0 to |looks|
        invariant old(position) <= position && (old(position) < position ==> position <= |final|)
        invariant batch == ChangeBatch([], position) && Matching(final, f, old(position), position) == []
        invariant forall j :: 0 <= j < i ==> Seen(looks[j], final, f, cost, old(position), position)
      {
        if looks[i].to <= position { continue; }
        var status, events, last := Scan(looks[i], final);
        if status == CursorOverflow { return Failure(CursorOverflow); }
        MatchingSplit(final, f, old(position), position, last);
        forall j | 0 <= j < i ensures Seen(looks[j], final, f, cost, old(position), last) {
          SeenLater(looks[j], final, f, cost, old(position), old(position), position, last);
        }
        SeenLater(looks[i], final, f, cost, old(position), position, last, last);
        position := last;
        batch := ChangeBatch(events, last);
        if events != [] { return Success(batch); }
      }
      return Success(batch);
    }
  }

  function Sum(size: Event -> nat, events: seq<Event>): nat {
    if events == [] then 0 else Sum(size, events[..|events| - 1]) + size(events[|events| - 1])
  }

  /** One session's subscription on the server. */
  class Session {
    const cursor: ChangeCursor
    const subId: nat
    const maxDeltaBytes: nat
    const maxPayloadBytes: nat

    constructor (cursor: ChangeCursor, subId: nat, maxDeltaBytes: nat, maxPayloadBytes: nat)
      ensures this.cursor == cursor && this.subId == subId
      ensures this.maxDeltaBytes == maxDeltaBytes && this.maxPayloadBytes == maxPayloadBytes
    {
      this.cursor, this.subId, this.maxDeltaBytes, this.maxPayloadBytes := cursor, subId, maxDeltaBytes,
        maxPayloadBytes;
    }

    /** The long poll: asks the cursor slice by slice until there is an event or the time is up. */
    method Poll(start: nat, slices: seq<seq<Moment>>, ghost final: seq<Rec>) returns (e: Err, events: seq<Event>)
      requires start <= |final|
      requires forall i :: 0 <= i < |slices| ==> MomentsOk(slices[i], final)
      modifies cursor
      ensures start <= cursor.position <= |final|
      ensures e == Ok || e == CursorOverflow
      ensures e == Ok ==> events == Matching(final, cursor.f, start, cursor.position)
      ensures e == CursorOverflow ==> exists i :: 0 <= i < |slices| && SawBehind(slices[i], cursor.position)
      ensures e == Ok && events == [] ==> AllSeen(slices, |slices|, final, start)
    {
      hide Matching, Seen;
      cursor.ResetTo(start);
      events := [];
      NothingDue(final, cursor.f, start);
      for i := 0 to |slices|
        invariant start <= cursor.position <= |final| && events == []
        invariant Matching(final, cursor.f, start, cursor.position) == []
        invariant AllSeen(slices, i, final, start)
      {
        ghost var before := cursor.position;
        assert MomentsOk(slices[i], final);
        var r := cursor.Next(slices[i], final);
        MatchingSplit(final, cursor.f, start, before, cursor.position);
        if r.Failure? { return r.error, events; }
        if r.value.events != [] { return Ok, r.value.events; }
        forall a, b | 0 <= a <= i && 0 <= b < |slices[a]|
          ensures Seen(slices[a][b], final, cursor.f, cursor.cost, start, cursor.position)
        {
          SeenLater(slices[a][b], final, cursor.f, cursor.cost, start, if a < i then start else before,
            if a < i then before else cursor.position, cursor.position);
        }
      }
      e := Ok;
    }

    /** Every look of the first n slices has been scanned from `start` to the cursor, as far as its budget went. */
    predicate AllSeen(slices: seq<seq<Moment>>, n: nat, final: seq<Rec>, start: nat)
      requires n <= |slices|
      reads cursor
    {
      forall a, b :: 0 <= a < n && 0 <= b < |slices[a]| ==>
        Seen(slices[a][b], final, cursor.f, cursor.cost, start, cursor.position)
    }

    /** How many bytes of events an answer may carry. */
    function DeltaLimit(maxBytes: nat): (r: nat)
      ensures r <= maxDeltaBytes && (maxBytes <= r || r == maxDeltaBytes)
      ensures 64 <= maxBytes <= maxDeltaBytes ==> r == maxBytes
      ensures maxBytes < 64 <= maxDeltaBytes ==> r == 64
    {
      var m := if maxBytes < 64 then 64 else maxBytes;
      if m > maxDeltaBytes then maxDeltaBytes else m
    }

    /** Of the events that are due, the answer leaves out only what no longer fits; it is refused only when the first
        event is too long for any answer. */
    predicate Cut(e: Err, out: seq<Event>, due: seq<Event>, limit: nat, size: Event -> nat) {
      if e == LimitExceeded then
        due != [] && size(due[0]) + 64 > maxPayloadBytes
      else
        && |out| <= |due| && out == due[..|out|] && (due != [] ==> out != [])
        && (|out| < |due| ==> Sum(size, out) + size(due[|out|]) > limit)
    }

    /** Polls the cursor and encodes as many events as fit, at least one. The answer has every event due
        after `start` up to the number it carries. */
    method DoFetchDelta(sub: nat, from: nat, maxBytes: nat, committed: nat, slices: seq<seq<Moment>>,
                        size: Event -> nat, ghost final: seq<Rec>)
      returns (e: Err, lastSeq: nat, out: seq<Event>)
      requires committed <= |final|
      requires forall i :: 0 <= i < |slices| ==> MomentsOk(slices[i], final)
      modifies cursor
      ensures sub == 0 || sub != subId <==> e == ProtocolError
      ensures e == Ok ==>
        && var start := if from > committed then committed else from;
        && start <= lastSeq <= |final| && out == Matching(final, cursor.f, start, lastSeq)
        && (if out == [] then lastSeq == start else out[|out| - 1].seqNo == lastSeq)
      ensures e == Ok && |out| > 1 ==> Sum(size, out) <= DeltaLimit(maxBytes)
      ensures e == Ok || e == LimitExceeded ==>
        Cut(e, out, Matching(final, cursor.f, if from > committed then committed else from, cursor.position),
            DeltaLimit(maxBytes), size)
      ensures e == Ok && out == [] ==>
        AllSeen(slices, |slices|, final, if from > committed then committed else from)
      ensures e != Ok ==> e == ProtocolError || e == CursorOverflow || e == LimitExceeded
      ensures e == CursorOverflow ==> exists i :: 0 <= i < |slices| && SawBehind(slices[i], cursor.position)
    {
      hide Matching, MomentsOk, SawBehind;
      lastSeq, out := 0, [];
      if sub == 0 || sub != subId { return ProtocolError, lastSeq, out; }
      var start := if from > committed then committed else from;
      var events;
      e, events := Poll(start, slices, final);
      if e != Ok { return; }
      e, lastSeq, out := Encode(events, start, DeltaLimit(maxBytes), size);
      if e == Ok && out != [] {
        MatchingPrefix(final, cursor.f, start, cursor.position, |out|);
      } else {
        NothingDue(final, cursor.f, start);
      }
    }

    /** The encoding loop: a prefix of the events, at least one, within the byte limit from the second on. */
    method Encode(events: seq<Event>, start: nat, limit: nat, size: Event -> nat)
      returns (e: Err, lastSeq: nat, out: seq<Event>)
      ensures e == if events != [] && size(events[0]) + 64 > maxPayloadBytes then LimitExceeded else Ok
      ensures e == Ok ==> |out| <= |events| && out == events[..|out|] && (events != [] ==> out != [])
      ensures e == Ok ==> lastSeq == if out == [] then start else out[|out| - 1].seqNo
      ensures e == Ok && |out| > 1 ==> Sum(size, out) <= limit
      ensures Cut(e, out, events, limit, size)
    {
      out, lastSeq := [], start;
      var bytes := 0;
      for i := 0 to |events|
        invariant i <= |events| && out == events[..i] && bytes == Sum(size, out)
        invariant lastSeq == if out == [] then start else out[|out| - 1].seqNo
        invariant i > 1 ==> bytes <= limit
        invariant i > 0 ==> size(events[0]) + 64 <= maxPayloadBytes
      {
        var one := size(events[i]);
        if |out| == 0 && one + 64 > maxPayloadBytes { return LimitExceeded, lastSeq, out; }
        if |out| >= 1 && bytes + one > limit { break; }
        assert events[..i + 1][..i] == events[..i];
        out := out + [events[i]];
        bytes := bytes + one;
        lastSeq := events[i].seqNo;
      }
      e := Ok;
    }
  }

  /** How one callback went: it returned or threw, and meanwhile somebody may have reset the position. */
  datatype Outcome = Outcome(ok: bool, reset: Option<nat>)

  /** A fetch as the client sees it: failed, or the events due after `from` up to `last`. */
  datatype Delta = Failed(error: Err) | Events(ghost from: nat, ghost last: nat, events: seq<Event>)

  ghost predicate DeltaOk(d: Delta, final: seq<Rec>, f: Filter, position: nat) {
    d.Events? ==> d.from <= d.last <= |final| && d.from <= position && d.events == Matching(final, f, d.from, d.last)
  }

  /** The events behind position p. */
  function EventsAfter(events: seq<Event>, p: nat): seq<Event> {
    if events == [] then [] else
      EventsAfter(events[..|events| - 1], p)
      + (if events[|events| - 1].seqNo > p then [events[|events| - 1]] else [])
  }

  /** The number of the last of them, or p. */
  function LastOr(events: seq<Event>, p: nat): nat {
    if events == [] then p else events[|events| - 1].seqNo
  }

  /** One more event of a growing list: it counts from p on when it does from the last counted one on. */
  lemma {:induction false} OneAfter(events: seq<Event>, i: nat, p: nat)
    requires Increasing(events) && i < |events|
    ensures var last := LastOr(EventsAfter(events[..i], p), p);
      && (events[i].seqNo > last <==> events[i].seqNo > p) && last >= p
      && (last == p || (i > 0 && last <= events[i - 1].seqNo))
      && EventsAfter(events[..i + 1], p)
      == EventsAfter(events[..i], p) + (if events[i].seqNo > p then [events[i]] else [])
      && LastOr(EventsAfter(events[..i + 1], p), p) == (if events[i].seqNo > p then events[i].seqNo else last)
    decreases i
  {
    assert events[..i + 1][..i] == events[..i];
    if i > 0 { OneAfter(events, i - 1, p); }
  }

  lemma NoneAfter(p: nat)
    ensures EventsAfter([], p) == [] && LastOr([], p) == p
  {
  }

  /** The first k callbacks of a round returned; the next one, if there is one, threw. */
  predicate Handed(outcomes: nat -> Outcome, n: nat, k: nat) {
    k <= n && (forall j :: 0 <= j < k ==> outcomes(j).ok) && (k < n ==> !outcomes(k).ok)
  }

  /** None of the callbacks of the round, the one that threw included, reset the position. */
  predicate NoReset(outcomes: nat -> Outcome, n: nat, k: nat) {
    forall j :: 0 <= j <= k && j < n ==> outcomes(j).reset == None
  }

  /** A round of the pump thread: whether it began with a connection and ended with one, what was fetched, and how many
      callbacks returned. */
  datatype Round = Round(linked: bool, answer: Option<Delta>, handed: nat, stays: bool)

  /** A round asks for events when it has a connection or gets one, hands them out, and keeps the connection unless the
      request failed for another reason than an overflow. */
  predicate RoundOk(trace: seq<Round>, i: nat, w: World)
    requires i < |trace|
  {
    var r := trace[i];
    && r.linked == (i > 0 && trace[i - 1].stays)
    && (r.answer.Some? <==> r.linked || w.connect(i).Some?)
    && (r.answer.Some? && w.lost(i) ==> r.answer.value.Failed?)
    && (r.answer.Some? && r.answer.value.Events? ==>
          Handed((j: nat) => w.outcome(i, j), |r.answer.value.events|, r.handed))
    && r.stays == (r.answer.Some? && (r.answer.value.Events? || r.answer.value.error == CursorOverflow))
  }

  predicate HandedIn(trace: seq<Round>, i: nat, e: Event)
    requires i < |trace|
  {
    var r := trace[i];
    r.answer.Some? && r.answer.value.Events? && r.handed <= |r.answer.value.events|
      && e in r.answer.value.events[..r.handed]
  }

  ghost predicate RoundsOk(trace: seq<Round>, w: World) {
    forall i :: 0 <= i < |trace| ==> RoundOk(trace, i, w)
  }

  /** Every event that was not there before has been handed out in some round. */
  ghost predicate AllHanded(trace: seq<Round>, was: seq<Event>, now: seq<Event>) {
    forall e :: e in now && e !in was ==> exists i :: 0 <= i < |trace| && HandedIn(trace, i, e)
  }

  /** What rounds without a reset take from position p on, and where they leave it. */
  function Account(trace: seq<Round>, p: nat): (seq<Event>, nat) {
    if trace == [] then ([], p) else
      var (took, at) := Account(trace[..|trace| - 1], p);
      var r := trace[|trace| - 1];
      if r.answer.Some? && r.answer.value.Events? && r.handed <= |r.answer.value.events| then
        var more := EventsAfter(r.answer.value.events[..r.handed], at);
        (took + more, LastOr(more, at))
      else
        (took, at)
  }

  /** The account adds up. */
  predicate Balanced(trace: seq<Round>, was: seq<Event>, from: nat, now: seq<Event>, position: nat) {
    now == was + Account(trace, from).0 && position == Account(trace, from).1
  }

  lemma {:induction false} EventsAfterIn(events: seq<Event>, p: nat)
    ensures forall e :: e in EventsAfter(events, p) ==> e in events
  {
    if events != [] { EventsAfterIn(events[..|events| - 1], p); }
  }

  /** The client's subscription. `start` and `taken` are as in the protocol's steps. */
  class Pump {
    const f: Filter
    var position: nat
    var hasPosition: bool
    var resetEpoch: nat
    var stop: bool
    var ready: bool
    ghost var start: nat
    ghost var taken: seq<Event>

    /** What was taken since the start is what was due up to the position. */
    ghost predicate Valid(final: seq<Rec>)
      reads `position, `start, `taken
    {
      && taken == Matching(final, f, start, position)
      && start <= position && (position > |final| ==> position == start)
    }

    constructor (f: Filter, ghost final: seq<Rec>)
      ensures this.f == f && Valid(final) && !hasPosition && !stop && !ready && resetEpoch == 0
    {
      this.f := f;
      position, hasPosition, resetEpoch, stop, ready := 0, false, 0, false, false;
      start, taken := 0, [];
    }

    method ResetTo(seqNo: nat, ghost final: seq<Rec>)
      modifies this
      ensures Valid(final) && position == seqNo == start && taken == [] && hasPosition
      ensures resetEpoch == old(resetEpoch) + 1 && stop == old(stop) && ready == old(ready)
    {
      position := seqNo;
      hasPosition := true;
      resetEpoch := resetEpoch + 1;
      start, taken := seqNo, [];
    }

    /** A new connection starts from the server's position only when there is none yet. */
    method ConnectSubscribe(serverPosition: Option<nat>, ghost final: seq<Rec>) returns (ok: bool)
      requires Valid(final) && (serverPosition.Some? ==> serverPosition.value <= |final|)
      requires !hasPosition ==> taken == []
      modifies this
      ensures Valid(final) && ok == (serverPosition.Some? && !stop) && resetEpoch == old(resetEpoch)
        && stop == old(stop) && !ready
      ensures ok ==> hasPosition
      ensures !old(hasPosition) ==>
        && taken == [] && hasPosition == ok
        && (ok ==> position == start == serverPosition.value)
      ensures old(hasPosition) ==>
        && hasPosition && position == old(position) && start == old(start)
        && taken == old(taken)
      ensures !ok ==> position == old(position) && start == old(start) && taken == old(taken)
    {
      ready := false;
      if stop { return false; }
      if serverPosition == None { return false; }
      if !hasPosition {
        position := serverPosition.value;
        hasPosition := true;
        start, taken := position, [];
      }
      return true;
    }

    /** Hands the fetched events to the callback in order. A throw ends the round before its event is
        counted; after a reset the rest of the round no longer moves the position. */
    method PumpOnce(d: Delta, outcomes: nat -> Outcome, ghost final: seq<Rec>) returns (e: Err, ghost k: nat)
      requires Valid(final) && hasPosition && DeltaOk(d, final, f, position)
      modifies this
      ensures Valid(final) && hasPosition && stop == old(stop) && ready == old(ready)
      ensures e == if d.Failed? then d.error else Ok
      ensures d.Failed? ==> k == 0 && position == old(position) && taken == old(taken) && resetEpoch == old(resetEpoch)
      ensures resetEpoch == old(resetEpoch) ==> start == old(start) && old(position) <= position && old(taken) <= taken
      ensures resetEpoch >= old(resetEpoch)
      ensures d.Events? ==> Handed(outcomes, |d.events|, k)
      ensures d.Events? ==> (resetEpoch == old(resetEpoch) <==> NoReset(outcomes, |d.events|, k))
      ensures d.Events? && NoReset(outcomes, |d.events|, k) ==>
        && taken == old(taken) + EventsAfter(d.events[..k], old(position))
        && position == LastOr(EventsAfter(d.events[..k], old(position)), old(position))
      ensures resetEpoch != old(resetEpoch) ==>
        && taken == [] && position == start
        && exists j :: (0 <= j <= k && j < |d.events| && outcomes(j).reset == Some(position)
                        && forall m :: j < m <= k && m < |d.events| ==> outcomes(m).reset == None)
    {
      hide Matching, EventsAfter, LastOr, Increasing;
      var epochBefore := resetEpoch;
      k := 0;
      if d.Failed? { return d.error, 0; }
      NoneAfter(position);
      ghost var from: nat, at: nat := d.from, 0;
      MatchingSound(final, f, d.from, d.last);
      for i := 0 to |d.events|
        invariant Valid(final) && hasPosition && resetEpoch >= epochBefore && k == i
        invariant from <= d.last && d.events[i..] == Matching(final, f, from, d.last)
        invariant resetEpoch == epochBefore ==> from <= position
        invariant resetEpoch == epochBefore ==> start == old(start) && old(position) <= position && old(taken) <= taken
        invariant stop == old(stop) && ready == old(ready)
        invariant forall j :: 0 <= j < i ==> outcomes(j).ok
        invariant resetEpoch == epochBefore <==> forall j :: 0 <= j < i ==> outcomes(j).reset == None
        invariant resetEpoch == epochBefore ==>
          && taken == old(taken) + EventsAfter(d.events[..i], old(position))
          && position == LastOr(EventsAfter(d.events[..i], old(position)), old(position))
        invariant resetEpoch != epochBefore ==>
          && taken == [] && position == start && at < i && outcomes(at).reset == Some(position)
          && forall m :: at < m < i ==> outcomes(m).reset == None
      {
        var ev := d.events[i];
        var outcome := outcomes(i);
        if outcome.reset.Some? {
          ResetTo(outcome.reset.value, final);
          at := i;
        }
        if !outcome.ok { break; }
        TakeNext(final, f, from, d.last, start, position);
        OneAfter(d.events, i, old(position));
        if resetEpoch == epochBefore && ev.seqNo > position {
          position := ev.seqNo;
          taken := taken + [ev];
        }
        assert d.events[i..][0] == ev && d.events[i..][1..] == d.events[i + 1..];
        from := ev.seqNo;
        k := k + 1;
      }
      return Ok, k;
    }

    /** After an overflow: tell the application and wait until it resets the position or stops. `during`
        is what happens while waiting. */
    method HandleOverflow(during: seq<Outcome>, ghost final: seq<Rec>)
      requires Valid(final)
      modifies this
      ensures Valid(final) && (old(hasPosition) ==> hasPosition)
      ensures resetEpoch >= old(resetEpoch)
      ensures resetEpoch == old(resetEpoch) ==> start == old(start) && position == old(position) && taken == old(taken)
      ensures resetEpoch == old(resetEpoch) ==> hasPosition == old(hasPosition)
      ensures resetEpoch != old(resetEpoch) ==> taken == [] && position == start && exists i ::
        0 <= i < |during| && during[i].reset == Some(position) && forall j :: 0 <= j < i ==> during[j].reset == None
      ensures !stop && (exists i :: 0 <= i < |during| && during[i].reset.Some?) ==> resetEpoch > old(resetEpoch)
      ensures stop == old(stop)
    {
      var epochBefore := resetEpoch;
      var i := 0;
      while !stop && resetEpoch == epochBefore && i < |during|
        invariant Valid(final) && i <= |during| && resetEpoch >= epochBefore && stop == old(stop)
        invariant old(hasPosition) ==> hasPosition
        invariant resetEpoch == epochBefore ==> start == old(start) && position == old(position) && taken == old(taken)
        invariant resetEpoch == epochBefore ==> hasPosition == old(hasPosition)
        invariant resetEpoch > epochBefore ==> hasPosition
        invariant resetEpoch == epochBefore ==> forall j :: 0 <= j < i ==> during[j].reset == None
        invariant resetEpoch != epochBefore ==>
          && taken == [] && position == start && i > 0 && during[i - 1].reset == Some(position)
          && forall j :: 0 <= j < i - 1 ==> during[j].reset == None
        decreases |during| - i
      {
        if during[i].reset.Some? { ResetTo(during[i].reset.value, final); }
        i := i + 1;
      }
    }

    /** Asks the server for the events behind the position; the answer may get lost on the way. */
    method Fetch(session: Session, i: nat, w: World, server: Server, ghost final: seq<Rec>) returns (d: Delta)
      requires WorldOk(w, final) && session.cursor.f == f && session.subId != 0
      modifies session.cursor
      ensures DeltaOk(d, final, f, position)
      ensures w.lost(i) ==> d.Failed?
      ensures d.Failed? ==>
        d.error == CursorOverflow || d.error == LimitExceeded || (d.error == IoError && w.lost(i))
      ensures d.Events? && d.events == [] ==> session.AllSeen(w.looks(i), |w.looks(i)|, final, d.from)
      ensures d.Failed? && d.error == CursorOverflow ==> SawBehindIn(w.looks(i), session.cursor.position)
    {
      hide Matching, MomentsOk;
      var committed := w.committed(i);
      assert LooksOk(w, i, final);
      var e, last, out := session.DoFetchDelta(session.subId, position, server.maxBytes, committed, w.looks(i),
        server.size, final);
      if e != Ok { return Failed(e); }
      if w.lost(i) { return Failed(IoError); }
      return Events(if position > committed then committed else position, last, out);
    }

    /** A connection, and with it a session on the server whose cursor is its own. */
    method Link(i: nat, w: World, server: Server, ghost final: seq<Rec>) returns (session: Session?)
      requires Valid(final) && WorldOk(w, final) && (!hasPosition ==> taken == []) && !stop
      modifies this
      ensures Valid(final) && resetEpoch == old(resetEpoch) && !stop && (!hasPosition ==> taken == [])
      ensures session != null <==> w.connect(i).Some?
      ensures session != null ==> hasPosition && ready && (!old(hasPosition) ==> position == w.connect(i).value)
      ensures session != null ==>
        fresh(session.cursor) && session.cursor.f == f && session.subId != 0
      ensures old(hasPosition) ==>
        hasPosition && position == old(position) && start == old(start) && taken == old(taken)
      ensures taken == old(taken)
    {
      assert LooksOk(w, i, final);
      var linked := ConnectSubscribe(w.connect(i), final);
      if !linked { return null; }
      var cursor := new ChangeCursor(f, server.cost, w.connect(i).value);
      session := new Session(cursor, i + 1, server.maxDeltaBytes, server.maxPayloadBytes);
      ready := true;
    }

    /** The pump thread against the server: connect when not linked, fetch, hand out; wait after an overflow, reconnect
        after any other failure. Every connection gets a session with a cursor of its own. Whatever happens, the
        account holds, and without a reset it only grows. */
    method Run(rounds: nat, w: World, server: Server, ghost final: seq<Rec>) returns (ghost trace: seq<Round>)
      requires Valid(final) && WorldOk(w, final) && (!hasPosition ==> taken == [])
      modifies this
      ensures Valid(final) && !ready
      ensures |trace| == (if old(stop) then 0 else rounds) && RoundsOk(trace, w)
      ensures old(hasPosition) && resetEpoch == old(resetEpoch) ==>
                start == old(start) && old(position) <= position && old(taken) <= taken
      ensures old(hasPosition) && resetEpoch == old(resetEpoch) ==>
                Balanced(trace, old(taken), old(position), taken, position)
      ensures AllHanded(trace, old(taken), taken)
    {
      hide Matching, Account, RoundsOk, AllHanded, EventsAfter, LastOr, Valid, Handed, NoReset, SawBehindIn, Balanced;
      hide DeltaOk, LooksOk, WorldOk;
      var session: Session? := null;
      trace := [];
      NoRounds(position, w, taken);
      for i := 0 to rounds
        invariant Valid(final) && (session != null ==> hasPosition) && (!hasPosition ==> taken == [])
        invariant session != null ==> fresh(session.cursor) && session.cursor.f == f && session.subId != 0
        invariant resetEpoch >= old(resetEpoch) && (old(hasPosition) ==> hasPosition)
        invariant old(hasPosition) && resetEpoch == old(resetEpoch) ==>
                    start == old(start) && old(position) <= position && old(taken) <= taken
        invariant stop == old(stop) && |trace| == (if stop then 0 else i)
        invariant (session != null) == (i > 0 && !stop && trace[i - 1].stays)
        invariant RoundsOk(trace, w)
        invariant old(hasPosition) && resetEpoch == old(resetEpoch) ==>
                    Balanced(trace, old(taken), old(position), taken, position)
        invariant AllHanded(trace, old(taken), taken)
      {
        if stop { break; }
        ghost var linked0, before, at := session != null, trace, old(position);
        if session == null {
          session := Link(i, w, server, final);
          if session == null {
            trace := trace + [Round(false, None, 0, false)];
            NextRound(before, trace[i], w, at, old(taken), taken, position, taken);
            continue;
          }
        }
        var d := Fetch(session, i, w, server, final);
        ghost var k, took, p := 0, taken, position;
        var e;
        e, k := PumpOnce(d, (j: nat) => w.outcome(i, j), final);
        trace := trace + [Round(linked0, Some(d), k, d.Events? || d.error == CursorOverflow)];
        NextRound(before, trace[i], w, at, old(taken), took, p, taken);
        if e == Ok { continue; }
        if e == CursorOverflow {
          HandleOverflow(w.waits(i), final);
          NothingHanded(trace, old(taken));
          continue;
        }
        ready := false;
        session := null;
      }
      ready := false;
    }
  }

  lemma NoRounds(p: nat, w: World, was: seq<Event>)
    ensures Account([], p) == ([], p) && RoundsOk([], w) && AllHanded([], was, was)
    ensures Balanced([], was, p, was, p)
  {
  }

  lemma NothingHanded(trace: seq<Round>, was: seq<Event>)
    ensures AllHanded(trace, was, [])
  {
  }

  lemma RoundMade(before: seq<Round>, r: Round, w: World)
    requires r.linked == (before != [] && before[|before| - 1].stays)
    requires r.answer.Some? <==> r.linked || w.connect(|before|).Some?
    requires r.answer.Some? && w.lost(|before|) ==> r.answer.value.Failed?
    requires r.answer.Some? && r.answer.value.Events? ==>
               Handed((j: nat) => w.outcome(|before|, j), |r.answer.value.events|, r.handed)
    requires r.stays == (r.answer.Some? && (r.answer.value.Events? || r.answer.value.error == CursorOverflow))
    ensures RoundOk(before + [r], |before|, w)
    ensures r.answer.Some? && r.answer.value.Events? ==>
              forall e :: e in r.answer.value.events[..r.handed] ==> HandedIn(before + [r], |before|, e)
  {
  }

  /** One more round: it took from position p what its callbacks returned for, or nothing is left of what was taken. */
  lemma NextRound(before: seq<Round>, r: Round, w: World, at: nat, was: seq<Event>, took: seq<Event>, p: nat,
                  now: seq<Event>)
    requires RoundsOk(before, w) && AllHanded(before, was, took)
    requires r.linked == (before != [] && before[|before| - 1].stays)
    requires r.answer.Some? <==> r.linked || w.connect(|before|).Some?
    requires r.answer.Some? && w.lost(|before|) ==> r.answer.value.Failed?
    requires r.answer.Some? && r.answer.value.Events? ==>
               Handed((j: nat) => w.outcome(|before|, j), |r.answer.value.events|, r.handed)
    requires r.stays == (r.answer.Some? && (r.answer.value.Events? || r.answer.value.error == CursorOverflow))
    requires now == [] || now == took || (r.answer.Some? && r.answer.value.Events?
               && now == took + EventsAfter(r.answer.value.events[..r.handed], p))
    ensures RoundsOk(before + [r], w) && AllHanded(before + [r], was, now)
    ensures Balanced(before, was, at, took, p) ==>
      && (!(r.answer.Some? && r.answer.value.Events?) ==> Balanced(before + [r], was, at, took, p))
      && (r.answer.Some? && r.answer.value.Events? ==>
            var more := EventsAfter(r.answer.value.events[..r.handed], p);
            Balanced(before + [r], was, at, took + more, LastOr(more, p)))
  {
    var trace := before + [r];
    assert trace[..|before|] == before;
    RoundMade(before, r, w);
    forall j | 0 <= j < |before| ensures RoundOk(trace, j, w) {
      assert RoundOk(before, j, w);
    }
    forall e | e in now && e !in was ensures exists i :: 0 <= i < |trace| && HandedIn(trace, i, e) {
      if e in took {
        var i :| 0 <= i < |before| && HandedIn(before, i, e);
        assert HandedIn(trace, i, e);
      } else {
        EventsAfterIn(r.answer.value.events[..r.handed], p);
        assert HandedIn(trace, |before|, e);
      }
    }
  }

  /** The server's settings, what a record costs against the batch budget, and how long an event is when encoded. */
  datatype Server = Server(cost: Rec -> nat, size: Event -> nat, maxBytes: nat, maxDeltaBytes: nat,
    maxPayloadBytes: nat)

  /** What the log, the network and the application do in each round of the pump: the position of a new session if
      the connection comes about, what the server sees when it looks at the log, whether its answer is lost, how the
      callbacks go, and what happens during a wait. */
  datatype World = World(connect: nat -> Option<nat>, committed: nat -> nat, looks: nat -> seq<seq<Moment>>,
                         lost: nat -> bool, outcome: (nat, nat) -> Outcome, waits: nat -> seq<Outcome>)

  /** Whatever is seen of the log in a round is a prefix of the later log: what is committed stays. */
  ghost predicate LooksOk(w: World, i: nat, final: seq<Rec>) {
    && (w.connect(i).Some? ==> w.connect(i).value <= |final|) && w.committed(i) <= |final|
    && forall j :: 0 <= j < |w.looks(i)| ==> MomentsOk(w.looks(i)[j], final)
  }

  ghost predicate WorldOk(w: World, final: seq<Rec>) {
    forall i {:trigger LooksOk(w, i, final)} :: LooksOk(w, i, final)
  }

  predicate SawBehindIn(slices: seq<seq<Moment>>, position: nat) {
    exists i :: 0 <= i < |slices| && SawBehind(slices[i], position)
  }

  /** Taking the next due event keeps the account. */
  lemma TakeNext(log: seq<Rec>, f: Filter, from: nat, last: nat, start: nat, position: nat)
    requires from <= last && Matching(log, f, from, last) != []
    ensures var m := Matching(log, f, from, last);
      && from < m[0].seqNo <= last && m[1..] == Matching(log, f, m[0].seqNo, last)
      && (from <= position < m[0].seqNo && start <= position ==>
            Matching(log, f, start, m[0].seqNo) == Matching(log, f, start, position) + [m[0]])
  {
    hide Matching;
    var m := Matching(log, f, from, last);
    MatchingPrefix(log, f, from, last, 1);
    var n := m[0].seqNo;
    assert m[..1] == [m[0]];
    if from <= position < n && start <= position {
      MatchingSplit(log, f, from, position, n);
      MatchingSplit(log, f, start, position, n);
      MatchingSound(log, f, from, position);
      NoneBefore(Matching(log, f, from, position), Matching(log, f, position, n), m[0], position);
    }
  }
}
