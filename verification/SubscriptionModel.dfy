/** The change subscription as steps over a growing log (src/engine.cpp:1639-1766, src/server/server.cpp:844-923,
    src/client/rtdb_client.cpp:403-522). Committed record number i+1 is log[i]; reclaiming forgets a prefix. */
module SubscriptionModel {
  import opened Errors

  datatype Kind = RowWrite | RowDelete | Mark

  datatype Rec = Rec(table: int, kind: Kind, bytes: nat, body: nat)

  datatype Event = Event(seqNo: nat, rec: Rec)

  /** The subscribed tables (none: all), the tables that still resolve, and the payloads that decode. */
  datatype Filter = Filter(tables: set<int>, resolves: int -> bool, decodes: Rec -> bool)

  predicate Wanted(f: Filter, r: Rec) {
    && (f.tables == {} || r.table in f.tables) && f.resolves(r.table)
    && r.kind != Mark && (r.kind == RowWrite ==> f.decodes(r))
  }

  /** The events due for the records with lo < seq <= hi. */
  function Matching(log: seq<Rec>, f: Filter, lo: nat, hi: nat): seq<Event>
    decreases hi - lo
  {
    if lo >= hi || lo >= |log| then []
    else (if Wanted(f, log[lo]) then [Event(lo + 1, log[lo])] else []) + Matching(log, f, lo + 1, hi)
  }

  lemma {:induction false} MatchingSplit(log: seq<Rec>, f: Filter, lo: nat, mid: nat, hi: nat)
    requires lo <= mid <= hi
    ensures Matching(log, f, lo, hi) == Matching(log, f, lo, mid) + Matching(log, f, mid, hi)
    decreases mid - lo
  {
    if lo < mid && lo < |log| {
      MatchingSplit(log, f, lo + 1, mid, hi);
    } else if lo < mid {
      assert Matching(log, f, mid, hi) == [];
    }
  }

  lemma {:induction false} MatchingGrows(log: seq<Rec>, log': seq<Rec>, f: Filter, lo: nat, hi: nat)
    requires log <= log' && (hi <= |log| || lo >= hi)
    ensures Matching(log', f, lo, hi) == Matching(log, f, lo, hi)
    decreases hi - lo
  {
    if lo < hi {
      assert log'[lo] == log[lo];
      MatchingGrows(log, log', f, lo + 1, hi);
    }
  }

  predicate DueAt(log: seq<Rec>, f: Filter, lo: nat, hi: nat, e: Event) {
    lo < e.seqNo <= hi && e.seqNo <= |log| && e.rec == log[e.seqNo - 1] && Wanted(f, e.rec)
  }

  ghost predicate Increasing(m: seq<Event>) {
    forall i, j :: 0 <= i < j < |m| ==> m[i].seqNo < m[j].seqNo
  }

  /** Due events lie in the interval, in increasing order, and are what they claim to be. */
  lemma {:induction false} MatchingSound(log: seq<Rec>, f: Filter, lo: nat, hi: nat)
    ensures Increasing(Matching(log, f, lo, hi))
    ensures forall e :: e in Matching(log, f, lo, hi) ==> DueAt(log, f, lo, hi, e)
    decreases hi - lo
  {
    hide Matching;
    MatchingStep(log, f, lo, hi);
    if lo < hi && lo < |log| {
      MatchingSound(log, f, lo + 1, hi);
      var m, rest := Matching(log, f, lo, hi), Matching(log, f, lo + 1, hi);
      forall i, j | 0 <= i < j < |m| ensures m[i].seqNo < m[j].seqNo {
        if m != rest {
          assert m[j] == rest[j - 1] && DueAt(log, f, lo + 1, hi, rest[j - 1]);
        }
      }
    }
  }

  lemma MatchingStep(log: seq<Rec>, f: Filter, lo: nat, hi: nat)
    ensures Matching(log, f, lo, hi)
         == if lo >= hi || lo >= |log| then []
            else if Wanted(f, log[lo]) then [Event(lo + 1, log[lo])] + Matching(log, f, lo + 1, hi)
            else Matching(log, f, lo + 1, hi)
  {
  }

  /** No wanted record of the interval is missing. */
  lemma {:induction false} MatchingComplete(log: seq<Rec>, f: Filter, lo: nat, hi: nat, s: nat)
    requires lo < s <= hi && s <= |log| && Wanted(f, log[s - 1])
    ensures Event(s, log[s - 1]) in Matching(log, f, lo, hi)
    decreases hi - lo
  {
    if s > lo + 1 {
      MatchingComplete(log, f, lo + 1, hi, s);
    }
  }

  /** Cutting the due events after the k-th leaves those due up to its number: a truncated answer has no gap. */
  lemma MatchingPrefix(log: seq<Rec>, f: Filter, lo: nat, hi: nat, k: nat)
    requires 0 < k <= |Matching(log, f, lo, hi)|
    ensures var m := Matching(log, f, lo, hi);
      && lo < m[k - 1].seqNo <= hi && m[..k] == Matching(log, f, lo, m[k - 1].seqNo)
      && m[k..] == Matching(log, f, m[k - 1].seqNo, hi)
  {
    var m := Matching(log, f, lo, hi);
    MatchingSound(log, f, lo, hi);
    var s := m[k - 1].seqNo;
    assert m[k - 1] in m;
    MatchingSplit(log, f, lo, s, hi);
    var a, b := Matching(log, f, lo, s), Matching(log, f, s, hi);
    MatchingSound(log, f, lo, s);
    MatchingSound(log, f, s, hi);
    MatchingComplete(log, f, lo, s, s);
    var i :| 0 <= i < |a| && a[i] == Event(s, log[s - 1]);
    assert m[i] == a[i];
    assert i == k - 1;
    assert a[|a| - 1] in a && a[|a| - 1].seqNo <= s;
    assert |a| == k;
    assert m[..k] == a && m[k..] == b;
  }

  // ---- the protocol ----

  /** An answer being worked off: which reset epoch it was asked in, and the events still to hand out,
      due after record `from` up to record `last`. */
  datatype Batch = Batch(epoch: nat, from: nat, last: nat, todo: seq<Event>)

  /** `start` and `taken` record, for the claim, where the client last started from and the events whose
      callback succeeded since. */
  datatype Sub = Sub(log: seq<Rec>, tail: nat, has: bool, position: nat, epoch: nat, start: nat,
                     taken: seq<Event>, inflight: Option<Batch>)

  datatype Act =
    | Commit(rec: Rec)
    | Reclaim(tail: nat)
    | Connect(from: nat)
    | Answer(last: nat)
    | Overflow
    | Lost
    | Callback(ok: bool)
    | Reset(to: nat)

  function Clamp(s: Sub): nat {
    if s.position > |s.log| then |s.log| else s.position
  }

  /** The window no longer reaches back to the record after this position. */
  predicate Behind(log: seq<Rec>, tail: nat, from: nat) {
    from < |log| && from + 1 < tail
  }

  predicate Enabled(f: Filter, s: Sub, a: Act) {
    match a
    case Commit(_) => true
    case Reclaim(t) => s.tail <= t <= |s.log| + 1
    case Connect(from) => from <= |s.log|
    case Answer(last) => s.has && s.inflight == None && Clamp(s) <= last <= |s.log| && !Behind(s.log, s.tail, Clamp(s))
    case Overflow => s.has && s.inflight == None && Behind(s.log, s.tail, Clamp(s))
    case Lost => true
    case Callback(_) => s.inflight.Some? && s.inflight.value.todo != []
    case Reset(_) => true
  }

  function Do(f: Filter, s: Sub, a: Act): Sub
    requires Enabled(f, s, a)
  {
    match a
    case Commit(r) => s.(log := s.log + [r])
    case Reclaim(t) => s.(tail := t)
    case Connect(from) => if s.has then s.(inflight := None)
                          else s.(has := true, position := from, start := from, taken := [], inflight := None)
    case Answer(last) => s.(inflight := Some(Batch(s.epoch, Clamp(s), last, Matching(s.log, f, Clamp(s), last))))
    case Overflow => s
    case Lost => s.(inflight := None)
    case Callback(ok) =>
      var b := s.inflight.value;
      var e := b.todo[0];
      if !ok then s.(inflight := None)
      else
        var t := s.(inflight := Some(Batch(b.epoch, e.seqNo, b.last, b.todo[1..])));
        if b.epoch == s.epoch && e.seqNo > s.position then t.(position := e.seqNo, taken := s.taken + [e]) else t
    case Reset(x) => s.(has := true, position := x, epoch := s.epoch + 1, start := x, taken := [])
  }

  ghost predicate BatchOk(f: Filter, s: Sub, b: Batch) {
    && b.from <= b.last <= |s.log| && b.epoch <= s.epoch
    && b.todo == Matching(s.log, f, b.from, b.last)
    && (b.epoch == s.epoch ==> s.has && b.from <= s.position)
  }

  /** What has been taken since the start is exactly what was due up to the position. */
  ghost predicate Inv(f: Filter, s: Sub) {
    && s.taken == Matching(s.log, f, s.start, s.position)
    && s.start <= s.position && (s.position > |s.log| ==> s.position == s.start)
    && (s.inflight.Some? ==> BatchOk(f, s, s.inflight.value))
  }

  function Initial(): Sub {
    Sub([], 1, false, 0, 0, 0, [], None)
  }

  lemma InitialInv(f: Filter)
    ensures Inv(f, Initial())
  {
  }

  lemma CommitKeeps(f: Filter, s: Sub, r: Rec)
    requires Inv(f, s)
    ensures Inv(f, Do(f, s, Commit(r)))
  {
    MatchingGrows(s.log, s.log + [r], f, s.start, s.position);
    if s.inflight.Some? {
      MatchingGrows(s.log, s.log + [r], f, s.inflight.value.from, s.inflight.value.last);
    }
  }

  /** One successful callback: the due events up to its number are exactly the ones taken so far and it. */
  lemma CallbackKeeps(f: Filter, s: Sub)
    requires Inv(f, s) && Enabled(f, s, Callback(true))
    ensures Inv(f, Do(f, s, Callback(true)))
  {
    var b := s.inflight.value;
    var e := b.todo[0];
    MatchingPrefix(s.log, f, b.from, b.last, 1);
    assert b.todo[1..] == Matching(s.log, f, e.seqNo, b.last);
    if b.epoch == s.epoch && e.seqNo > s.position {
      MatchingSplit(s.log, f, s.start, s.position, e.seqNo);
      MatchingSplit(s.log, f, b.from, s.position, e.seqNo);
      assert b.todo[..1] == [e];
      MatchingSound(s.log, f, b.from, s.position);
      NoneBefore(Matching(s.log, f, b.from, s.position), Matching(s.log, f, s.position, e.seqNo), e, s.position);
    }
  }

  /** Of one due event none can be due before it. */
  lemma NoneBefore(head: seq<Event>, tail: seq<Event>, e: Event, p: nat)
    requires head + tail == [e] && e.seqNo > p && forall x :: x in head ==> x.seqNo <= p
    ensures head == [] && tail == [e]
  {
    assert head == (head + tail)[..|head|] == [e][..|head|];
    assert [e][..1] == [e] && e in [e];
    assert head == [] && head + tail == tail;
  }

  lemma StepKeeps(f: Filter, s: Sub, a: Act)
    requires Inv(f, s) && Enabled(f, s, a)
    ensures Inv(f, Do(f, s, a))
  {
    match a
    case Commit(r) => CommitKeeps(f, s, r);
    case Callback(ok) => if ok { CallbackKeeps(f, s); }
    case _ =>
  }

  predicate IsRun(f: Filter, s: Sub, acts: seq<Act>, s': Sub)
    decreases |acts|
  {
    if acts == [] then s == s' else Enabled(f, s, acts[0]) && IsRun(f, Do(f, s, acts[0]), acts[1..], s')
  }

  lemma {:induction false} RunKeeps(f: Filter, s: Sub, acts: seq<Act>, s': Sub)
    requires Inv(f, s) && IsRun(f, s, acts, s')
    ensures Inv(f, s')
    decreases |acts|
  {
    if acts != [] {
      StepKeeps(f, s, acts[0]);
      RunKeeps(f, Do(f, s, acts[0]), acts[1..], s');
    }
  }

  /** Over any run: since the last start, every wanted record up to the position has had a successful
      callback, and the callbacks that moved the position were theirs, in increasing order. */
  lemma NothingLost(f: Filter, acts: seq<Act>, s: Sub)
    requires IsRun(f, Initial(), acts, s)
    ensures s.start < s.position ==> s.position <= |s.log|
    ensures forall i :: s.start <= i < s.position && i < |s.log| && Wanted(f, s.log[i]) ==>
      Event(i + 1, s.log[i]) in s.taken
    ensures forall e :: e in s.taken ==> DueAt(s.log, f, s.start, s.position, e)
    ensures Increasing(s.taken)
  {
    InitialInv(f);
    RunKeeps(f, Initial(), acts, s);
    MatchingSound(s.log, f, s.start, s.position);
    forall i | s.start <= i < s.position && i < |s.log| && Wanted(f, s.log[i])
      ensures Event(i + 1, s.log[i]) in s.taken
    {
      MatchingComplete(s.log, f, s.start, s.position, i + 1);
    }
  }

  /** The same start, and more of what follows it. */
  predicate Continues(s: Sub, s': Sub) {
    && s'.has && s'.start == s.start && s'.epoch == s.epoch
    && s.taken <= s'.taken && s.position <= s'.position && s.log <= s'.log
  }

  /** Only a reset gives up what was taken, and it starts at the number it names; a connection gives a position only to
      a client that has none. */
  lemma StepContinues(f: Filter, s: Sub, a: Act)
    requires Enabled(f, s, a)
    ensures var s' := Do(f, s, a);
      && (s.has && !a.Reset? ==> Continues(s, s'))
      && (a.Reset? ==> s'.has && s'.position == s'.start == a.to && s'.taken == [] && s'.epoch > s.epoch)
      && (!s.has && a.Connect? ==> s'.has && s'.position == s'.start == a.from && s'.taken == [])
      && (!s.has && !a.Connect? && !a.Reset? ==> !s'.has)
  {
  }

  predicate WithoutReset(acts: seq<Act>) {
    forall i :: 0 <= i < |acts| ==> !acts[i].Reset?
  }

  /** Over any run without a reset, lost answers and reconnections included, what was taken only grows. */
  lemma {:induction false} RunContinues(f: Filter, s: Sub, acts: seq<Act>, s': Sub)
    requires s.has && IsRun(f, s, acts, s') && WithoutReset(acts)
    ensures Continues(s, s')
    decreases |acts|
  {
    if acts != [] {
      assert !acts[0].Reset?;
      StepContinues(f, s, acts[0]);
      assert forall i :: 0 <= i < |acts| - 1 ==> acts[1..][i] == acts[i + 1];
      RunContinues(f, Do(f, s, acts[0]), acts[1..], s');
    }
  }

  // ---- a client that is let work catches up ----

  function Callbacks(n: nat): seq<Act> {
    seq(n, _ => Callback(true))
  }

  lemma {:induction false} WorkedOff(f: Filter, s: Sub) returns (s': Sub)
    requires Inv(f, s) && s.inflight.Some? && s.inflight.value.epoch == s.epoch
    requires s.inflight.value.from == s.position
    ensures IsRun(f, s, Callbacks(|s.inflight.value.todo|), s') && s'.log == s.log
    ensures s'.taken == Matching(s.log, f, s.start, s.inflight.value.last)
    decreases |s.inflight.value.todo|
  {
    hide Matching;
    var b := s.inflight.value;
    if b.todo == [] {
      MatchingSplit(s.log, f, s.start, s.position, b.last);
      return s;
    }
    CallbackKeeps(f, s);
    MatchingSound(s.log, f, b.from, b.last);
    assert b.todo[0] in b.todo;
    assert Callbacks(|b.todo|)[1..] == Callbacks(|b.todo| - 1);
    s' := WorkedOff(f, Do(f, s, Callback(true)));
  }

  /** From any state of a run in which the window reaches back to the position: an answer up to the end of the log, and
      callbacks that return, bring everything that is due. */
  lemma CatchesUp(f: Filter, acts: seq<Act>, s: Sub) returns (more: seq<Act>, s': Sub)
    requires IsRun(f, Initial(), acts, s) && s.has && s.inflight == None && s.position <= |s.log|
    requires !Behind(s.log, s.tail, s.position)
    ensures more == [Answer(|s.log|)] + Callbacks(|Matching(s.log, f, s.position, |s.log|)|)
    ensures IsRun(f, s, more, s') && s'.log == s.log && Continues(s, s')
    ensures s'.taken == Matching(s.log, f, s.start, |s.log|)
  {
    hide Matching;
    InitialInv(f);
    RunKeeps(f, Initial(), acts, s);
    var a, rest := Answer(|s.log|), Callbacks(|Matching(s.log, f, s.position, |s.log|)|);
    StepKeeps(f, s, a);
    s' := WorkedOff(f, Do(f, s, a));
    more := [a] + rest;
    assert more[1..] == rest;
    RunContinues(f, s, more, s');
  }
}
