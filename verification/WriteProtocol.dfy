/**
 Writers on one file: any number of open handles, any number of WriteAt calls in flight, with
 replica writes and size updates arriving in any order, late, or never.

 The file has been created empty, and is not truncated, repaired, renamed or replaced meanwhile.
 A call that fails is one that never succeeds; what it sent may still arrive.
 */
module WriteProtocol {
  import opened DataNodes

  datatype Request = Request(handle: nat, offset: nat, data: Bytes) {
    function End(): nat {
      offset + |data|
    }

    predicate Covers(j: int) {
      offset <= j < End()
    }
  }

  /**
   The replicas' bytes and the requests each has executed; the recorded size; the handles' cached
   sizes; the requests begun and those every replica has acknowledged; the size updates sent.
   */
  datatype Writers = Writers(
    copies: seq<Bytes>, landed: seq<set<nat>>, recorded: nat, cached: map<nat, nat>,
    requests: map<nat, Request>, done: set<nat>, sent: set<nat>)

  datatype Step =
    | Open(handle: nat)
    | Begin(id: nat, request: Request)
    | Land(id: nat, replica: nat)
    | Succeed(id: nat)
    | Commit(size: nat)

  function Created(replicas: nat): Writers {
    Writers(seq(replicas, _ => []), seq(replicas, _ => {}), 0, map[], map[], {}, {})
  }

  function Written(c: Bytes, r: Request): Bytes {
    WriteBytes(c, r.offset, r.data)
  }

  predicate Everywhere(id: nat, s: Writers) {
    forall i | 0 <= i < |s.landed| :: id in s.landed[i]
  }

  predicate Enabled(s: Writers, step: Step) {
    match step
    case Open(h) => h !in s.cached
    case Begin(id, r) => id !in s.requests && r.handle in s.cached
    case Land(id, i) => id in s.requests && i < |s.copies| == |s.landed| && id !in s.landed[i]
    case Succeed(id) => id in s.requests && id !in s.done && s.requests[id].handle in s.cached && Everywhere(id, s)
    case Commit(n) => n in s.sent
  }

  /** A step that is not possible changes nothing. */
  function Next(s: Writers, step: Step): Writers {
    if !Enabled(s, step) then s
    else
      match step
      case Open(h) => s.(cached := s.cached[h := s.recorded])
      case Begin(id, r) => s.(requests := s.requests[id := r])
      case Land(id, i) =>
        s.(copies := s.copies[i := Written(s.copies[i], s.requests[id])], landed := s.landed[i := s.landed[i] + {id}])
      case Succeed(id) =>
        var r := s.requests[id];
        if r.End() > s.cached[r.handle] then
          s.(done := s.done + {id}, cached := s.cached[r.handle := r.End()], sent := s.sent + {r.End()})
        else s.(done := s.done + {id})
      case Commit(n) => s.(recorded := n)
  }

  /** What an enabled step changes: one part of the state each, success two. */
  lemma StepDoes(s: Writers, step: Step)
    requires Enabled(s, step)
    ensures var t := Next(s, step);
            match step
            case Open(h) => t == s.(cached := t.cached) && t.cached == s.cached[h := s.recorded]
            case Begin(id, r) => t == s.(requests := t.requests) && t.requests == s.requests[id := r]
            case Land(id, i) =>
              && t == s.(copies := t.copies, landed := t.landed)
              && t.landed == s.landed[i := s.landed[i] + {id}]
              && t.copies == s.copies[i := WriteBytes(s.copies[i], s.requests[id].offset, s.requests[id].data)]
            case Succeed(id) =>
              var h, end := s.requests[id].handle, s.requests[id].offset + |s.requests[id].data|;
              && t == s.(done := s.done + {id}, cached := t.cached, sent := t.sent)
              && (end > s.cached[h] ==> t.cached == s.cached[h := end] && t.sent == s.sent + {end})
              && (end <= s.cached[h] ==> t.cached == s.cached && t.sent == s.sent)
            case Commit(n) => t == s.(recorded := n)
  {
  }

  /** The state of a file of so many replicas after any steps. */
  function After(replicas: nat, steps: seq<Step>): Writers {
    if steps == [] then Created(replicas) else Next(After(replicas, steps[..|steps| - 1]), steps[|steps| - 1])
  }

  ghost predicate NonEmptyWrites(s: Writers) {
    forall id | id in s.requests :: s.requests[id].data != []
  }

  // ----- data before metadata -----

  ghost predicate Within(n: nat, s: Writers) {
    forall i | 0 <= i < |s.copies| :: n <= |s.copies[i]|
  }

  /** No size anywhere, cached, under way or recorded, exceeds the bytes on any replica. */
  ghost predicate DataFirst(s: Writers) {
    && Within(s.recorded, s)
    && (forall n | n in s.sent :: Within(n, s))
    && (forall h | h in s.cached :: Within(s.cached[h], s))
  }

  ghost predicate EndsAt(n: nat, ids: set<nat>, requests: map<nat, Request>) {
    exists id :: id in ids && id in requests && requests[id].End() == n
  }

  /** A replica ends where the longest write that landed on it ends; empty writes do not count. */
  ghost predicate LengthFits(c: Bytes, ids: set<nat>, requests: map<nat, Request>) {
    && (forall id | id in ids :: id in requests && (requests[id].data != [] ==> requests[id].End() <= |c|))
    && (c == [] || EndsAt(|c|, ids, requests))
  }

  ghost predicate LengthsFit(s: Writers) {
    |s.landed| == |s.copies| && forall i | 0 <= i < |s.copies| :: LengthFits(s.copies[i], s.landed[i], s.requests)
  }

  lemma LengthStep(c: Bytes, ids: set<nat>, requests: map<nat, Request>, id: nat)
    requires LengthFits(c, ids, requests) && id in requests
    ensures LengthFits(Written(c, requests[id]), ids + {id}, requests)
    ensures |Written(c, requests[id])| >= |c|
  {
    var r := requests[id];
    var d := Written(c, r);
    if r.data != [] {
      WriteBytesAt(c, r.offset, r.data, 0);
    }
    assert id in ids + {id};
    if |d| == |c| && c != [] {
      var a :| a in ids && a in requests && requests[a].End() == |c|;
      assert a in ids + {id};
    }
  }

  lemma LengthStays(c: Bytes, ids: set<nat>, requests: map<nat, Request>, id: nat, r: Request)
    requires LengthFits(c, ids, requests) && id !in requests
    ensures LengthFits(c, ids, requests[id := r])
  {
    if c != [] {
      var a :| a in ids && a in requests && requests[a].End() == |c|;
      assert a in requests[id := r] && requests[id := r][a].End() == |c|;
    }
  }

  lemma LengthsStayFitting(s: Writers, step: Step)
    requires LengthsFit(s)
    ensures LengthsFit(Next(s, step))
    ensures |Next(s, step).copies| == |s.copies|
    ensures forall i | 0 <= i < |s.copies| :: |Next(s, step).copies[i]| >= |s.copies[i]|
  {
    if Enabled(s, step) {
      if step.Land? {
        LengthStep(s.copies[step.replica], s.landed[step.replica], s.requests, step.id);
      }
      if step.Begin? {
        forall i | 0 <= i < |s.copies|
          ensures LengthFits(s.copies[i], s.landed[i], s.requests[step.id := step.request])
        {
          LengthStays(s.copies[i], s.landed[i], s.requests, step.id, step.request);
        }
      }
    }
  }

  /**
   Every step but one keeps data ahead of metadata. A succeeding WriteAt keeps it exactly when it
   wrote something, or starts within the handle's size or within every replica.
   */
  lemma StepDataFirstIff(s: Writers, step: Step)
    requires DataFirst(s) && LengthsFit(s)
    ensures DataFirst(Next(s, step)) <==>
            (step.Succeed? && Enabled(s, step) ==>
               var r := s.requests[step.id];
               r.data != [] || r.offset <= s.cached[r.handle] || Within(r.offset, s))
  {
    var t := Next(s, step);
    LengthsStayFitting(s, step);
    forall n: nat | Within(n, s)
      ensures Within(n, t)
    {
    }
    if step.Succeed? && Enabled(s, step) {
      var r := s.requests[step.id];
      if r.data != [] {
        forall i | 0 <= i < |s.copies|
          ensures r.End() <= |s.copies[i]|
        {
          assert LengthFits(s.copies[i], s.landed[i], s.requests);
        }
      }
      assert r.End() > s.cached[r.handle] ==> r.End() in t.sent;
    }
  }

  /** In every interleaving of non-empty writes the recorded size never exceeds the bytes on any replica. */
  lemma {:induction false} DataBeforeMetadata(replicas: nat, steps: seq<Step>)
    requires NonEmptyWrites(After(replicas, steps))
    ensures var s := After(replicas, steps); DataFirst(s) && |s.copies| == replicas
  {
    LengthsAlwaysFit(replicas, steps);
    if steps != [] {
      var s, step := After(replicas, steps[..|steps| - 1]), steps[|steps| - 1];
      forall id | id in s.requests
        ensures s.requests[id].data != []
      {
        assert Next(s, step).requests[id] == s.requests[id];
      }
      DataBeforeMetadata(replicas, steps[..|steps| - 1]);
      LengthsAlwaysFit(replicas, steps[..|steps| - 1]);
      StepDataFirstIff(s, step);
    }
  }

  lemma {:induction false} LengthsAlwaysFit(replicas: nat, steps: seq<Step>)
    ensures var s := After(replicas, steps); LengthsFit(s) && |s.copies| == replicas
  {
    if steps != [] {
      LengthsAlwaysFit(replicas, steps[..|steps| - 1]);
      LengthsStayFitting(After(replicas, steps[..|steps| - 1]), steps[|steps| - 1]);
    }
  }

  // ----- how exact the recorded size is -----

  /** All sizes in use were sent once, and cover the handle's own finished writes. */
  ghost predicate SizesSent(s: Writers) {
    && (s.recorded == 0 || s.recorded in s.sent)
    && (forall h | h in s.cached :: s.cached[h] == 0 || s.cached[h] in s.sent)
    && (forall id | id in s.done ::
          && id in s.requests && s.requests[id].handle in s.cached
          && s.requests[id].End() <= s.cached[s.requests[id].handle])
  }

  lemma SizesStaySent(s: Writers, step: Step)
    requires SizesSent(s)
    ensures SizesSent(Next(s, step))
  {
  }

  lemma {:induction false} SizesAreSent(replicas: nat, steps: seq<Step>)
    ensures SizesSent(After(replicas, steps))
  {
    if steps != [] {
      SizesAreSent(replicas, steps[..|steps| - 1]);
      SizesStaySent(After(replicas, steps[..|steps| - 1]), steps[|steps| - 1]);
    }
  }

  /** Begun writes have all succeeded. */
  ghost predicate AllDone(s: Writers) {
    forall id | id in s.requests :: id in s.done
  }

  /** The size the last applied update of a run carried; 0 before any. */
  function LastApplied(replicas: nat, steps: seq<Step>): nat {
    if steps == [] then 0
    else
      var init, last := steps[..|steps| - 1], steps[|steps| - 1];
      if last.Commit? && Enabled(After(replicas, init), last) then last.size else LastApplied(replicas, init)
  }

  lemma {:induction false} RecordedIsLastApplied(replicas: nat, steps: seq<Step>)
    ensures After(replicas, steps).recorded == LastApplied(replicas, steps)
  {
    if steps != [] {
      RecordedIsLastApplied(replicas, steps[..|steps| - 1]);
    }
  }

  /** n is the largest end among the writes, 0 if there are none. */
  ghost predicate LargestEnd(n: nat, requests: map<nat, Request>) {
    && (forall id | id in requests :: requests[id].End() <= n)
    && (n == 0 || exists id :: id in requests && requests[id].End() == n)
  }

  /**
   Once all writes have succeeded every replica is as long as the longest write demands, and the
   recorded size says so exactly when the last update applied was one of the longest write's size.
   */
  lemma RecordedExactIff(replicas: nat, steps: seq<Step>, i: nat)
    requires NonEmptyWrites(After(replicas, steps)) && AllDone(After(replicas, steps)) && i < replicas
    ensures var s := After(replicas, steps);
            && |s.copies| == replicas && LargestEnd(|s.copies[i]|, s.requests)
            && (s.copies[i] == [] || |s.copies[i]| in s.sent)
            && (s.recorded == |s.copies[i]| <==> LargestEnd(LastApplied(replicas, steps), s.requests))
  {
    DataBeforeMetadata(replicas, steps);
    SizesAreSent(replicas, steps);
    LengthsAlwaysFit(replicas, steps);
    RecordedIsLastApplied(replicas, steps);
    DoneIsLanded(replicas, steps);
    var s := After(replicas, steps);
    assert LengthFits(s.copies[i], s.landed[i], s.requests);
    forall id | id in s.requests
      ensures s.requests[id].End() <= |s.copies[i]|
    {
      assert Everywhere(id, s);
    }
    if s.copies[i] != [] {
      var id :| id in s.landed[i] && id in s.requests && s.requests[id].End() == |s.copies[i]|;
      assert Within(s.cached[s.requests[id].handle], s);
    }
  }

  // ----- agreement of the replicas -----

  predicate SameByteAt(a: Request, b: Request, j: nat) {
    a.Covers(j) && b.Covers(j) ==> a.data[j - a.offset] == b.data[j - b.offset]
  }

  /** Two writes that put the same bytes wherever both write. */
  ghost predicate Compatible(a: Request, b: Request) {
    forall j: nat :: SameByteAt(a, b, j)
  }

  lemma WrittenAt(c: Bytes, r: Request, j: nat)
    requires r.data != []
    ensures var d := Written(c, r);
            && |d| == (if |c| >= r.End() then |c| else r.End())
            && (j < |d| ==> d[j] == if r.Covers(j) then r.data[j - r.offset] else if j < |c| then c[j] else 0)
  {
    WriteBytesAt(c, r.offset, r.data, j);
  }

  lemma BothWrittenAt(c: Bytes, a: Request, b: Request, j: nat)
    requires a.data != [] && b.data != []
    ensures var d := Written(Written(c, a), b);
            && |d| >= a.End() && |d| >= b.End() && |d| >= |c| && (|d| == |c| || |d| == a.End() || |d| == b.End())
            && (j < |d| ==> d[j] == if b.Covers(j) then b.data[j - b.offset]
                                    else if a.Covers(j) then a.data[j - a.offset]
                                    else if j < |c| then c[j] else 0)
  {
    WrittenAt(c, a, j);
    WrittenAt(Written(c, a), b, j);
  }

  /** The order of two writes does not matter exactly when they are compatible, on any file. */
  lemma WritesCommuteIff(c: Bytes, a: Request, b: Request)
    requires a.data != [] && b.data != []
    ensures Written(Written(c, a), b) == Written(Written(c, b), a) <==> Compatible(a, b)
  {
    var ab, ba := Written(Written(c, a), b), Written(Written(c, b), a);
    BothWrittenAt(c, a, b, 0);
    BothWrittenAt(c, b, a, 0);
    forall j: nat | j < |ab|
      ensures ba[j] == ab[j] <==> SameByteAt(a, b, j)
    {
      BothWrittenAt(c, a, b, j);
      BothWrittenAt(c, b, a, j);
    }
    if ab == ba {
      forall j: nat
        ensures SameByteAt(a, b, j)
      {
        assert j < |ab| ==> ab[j] == ba[j];
      }
    }
  }

  ghost predicate Covered(j: nat, ids: set<nat>, requests: map<nat, Request>) {
    exists id :: id in ids && id in requests && requests[id].Covers(j)
  }

  ghost predicate ByteOf(c: Bytes, r: Request, j: nat) {
    r.Covers(j) ==> j < |c| && c[j] == r.data[j - r.offset]
  }

  ghost predicate Has(c: Bytes, r: Request) {
    forall j: nat :: ByteOf(c, r, j)
  }

  ghost predicate ZeroOutside(c: Bytes, ids: set<nat>, requests: map<nat, Request>, j: nat) {
    Covered(j, ids, requests) || j >= |c| || c[j] == 0
  }

  /** c holds the bytes of all the requests, with zeros in between. */
  ghost predicate ShowsAll(c: Bytes, ids: set<nat>, requests: map<nat, Request>) {
    && (forall id | id in ids :: id in requests && Has(c, requests[id]))
    && (forall j: nat :: ZeroOutside(c, ids, requests, j))
  }

  /** Length and contents of a replica are determined by the compatible writes that landed on it. */
  lemma ShownOnce(c: Bytes, d: Bytes, ids: set<nat>, requests: map<nat, Request>)
    requires ShowsAll(c, ids, requests) && ShowsAll(d, ids, requests)
    requires LengthFits(c, ids, requests) && LengthFits(d, ids, requests)
    requires forall id | id in ids :: id in requests && requests[id].data != []
    ensures c == d
  {
    assert |c| == |d|;
    forall j: nat | j < |c|
      ensures c[j] == d[j]
    {
      assert ZeroOutside(c, ids, requests, j) && ZeroOutside(d, ids, requests, j);
      if Covered(j, ids, requests) {
        var id :| id in ids && id in requests && requests[id].Covers(j);
        assert ByteOf(c, requests[id], j) && ByteOf(d, requests[id], j);
      }
    }
  }

  lemma HasStays(c: Bytes, q: Request, r: Request)
    requires r.data != [] && Has(c, q) && Compatible(q, r)
    ensures Has(Written(c, r), q)
  {
    forall j: nat
      ensures ByteOf(Written(c, r), q, j)
    {
      WrittenAt(c, r, j);
      assert ByteOf(c, q, j) && SameByteAt(q, r, j);
    }
  }

  lemma HasNow(c: Bytes, r: Request)
    requires r.data != []
    ensures Has(Written(c, r), r)
  {
    forall j: nat
      ensures ByteOf(Written(c, r), r, j)
    {
      WrittenAt(c, r, j);
    }
  }

  /** A compatible write adds itself to what a replica shows. */
  lemma OneMoreShown(c: Bytes, ids: set<nat>, requests: map<nat, Request>, id: nat)
    requires ShowsAll(c, ids, requests) && id in requests && requests[id].data != []
    requires forall a | a in ids :: a in requests && Compatible(requests[a], requests[id])
    ensures ShowsAll(Written(c, requests[id]), ids + {id}, requests)
  {
    var r, d := requests[id], Written(c, requests[id]);
    HasNow(c, r);
    forall a | a in ids
      ensures Has(d, requests[a])
    {
      HasStays(c, requests[a], r);
    }
    forall j: nat
      ensures ZeroOutside(d, ids + {id}, requests, j)
    {
      WrittenAt(c, r, j);
      assert ZeroOutside(c, ids, requests, j);
      if Covered(j, ids, requests) {
        var a :| a in ids && a in requests && requests[a].Covers(j);
        assert a in ids + {id};
      }
      assert id in ids + {id};
    }
  }

  lemma ShownStays(c: Bytes, ids: set<nat>, requests: map<nat, Request>, id: nat, r: Request)
    requires ShowsAll(c, ids, requests) && id !in requests
    ensures ShowsAll(c, ids, requests[id := r])
  {
    var rs := requests[id := r];
    forall j: nat
      ensures ZeroOutside(c, ids, rs, j)
    {
      assert ZeroOutside(c, ids, requests, j);
      if Covered(j, ids, requests) {
        var a :| a in ids && a in requests && requests[a].Covers(j);
        assert a in rs && rs[a].Covers(j);
      }
    }
  }

  ghost predicate AllCompatible(s: Writers) {
    forall a, b | a in s.requests && b in s.requests && a != b :: Compatible(s.requests[a], s.requests[b])
  }

  lemma ShownStep(s: Writers, step: Step, i: nat)
    requires i < |s.copies| == |s.landed| && ShowsAll(s.copies[i], s.landed[i], s.requests)
    requires NonEmptyWrites(s) && AllCompatible(s)
    ensures var t := Next(s, step);
            i < |t.copies| == |t.landed| && ShowsAll(t.copies[i], t.landed[i], t.requests)
  {
    if Enabled(s, step) {
      if step.Land? && step.replica == i {
        OneMoreShown(s.copies[i], s.landed[i], s.requests, step.id);
      }
      if step.Begin? {
        ShownStays(s.copies[i], s.landed[i], s.requests, step.id, step.request);
      }
    }
  }

  /** Every replica shows exactly the writes that have landed on it, in whatever order they did. */
  lemma {:induction false} ContentsAreShown(replicas: nat, steps: seq<Step>, i: nat)
    requires NonEmptyWrites(After(replicas, steps)) && AllCompatible(After(replicas, steps)) && i < replicas
    ensures var s := After(replicas, steps);
            |s.copies| == |s.landed| == replicas && ShowsAll(s.copies[i], s.landed[i], s.requests)
  {
    LengthsAlwaysFit(replicas, steps);
    if steps != [] {
      var s, step := After(replicas, steps[..|steps| - 1]), steps[|steps| - 1];
      forall id | id in s.requests
        ensures id in Next(s, step).requests && Next(s, step).requests[id] == s.requests[id]
      {
      }
      ContentsAreShown(replicas, steps[..|steps| - 1], i);
      ShownStep(s, step, i);
    }
  }

  ghost predicate DoneLanded(s: Writers) {
    forall id | id in s.done :: Everywhere(id, s)
  }

  lemma DoneStaysLanded(s: Writers, step: Step)
    requires DoneLanded(s)
    ensures DoneLanded(Next(s, step))
  {
    forall id | id in s.done
      ensures Everywhere(id, Next(s, step))
    {
      assert Everywhere(id, s);
    }
  }

  lemma {:induction false} DoneIsLanded(replicas: nat, steps: seq<Step>)
    ensures DoneLanded(After(replicas, steps))
  {
    if steps != [] {
      DoneIsLanded(replicas, steps[..|steps| - 1]);
      DoneStaysLanded(After(replicas, steps[..|steps| - 1]), steps[|steps| - 1]);
    }
  }

  /**
   Replicas agree as soon as the same compatible writes have landed on them; so once all have
   succeeded, all replicas agree, whatever the order of arrival at each.
   */
  lemma ReplicasAgree(replicas: nat, steps: seq<Step>, i: nat, k: nat)
    requires NonEmptyWrites(After(replicas, steps)) && AllCompatible(After(replicas, steps))
    requires i < replicas && k < replicas
    ensures var s := After(replicas, steps);
            && |s.copies| == |s.landed| == replicas
            && (s.landed[i] == s.landed[k] || AllDone(s) ==> s.copies[i] == s.copies[k])
  {
    var s := After(replicas, steps);
    ContentsAreShown(replicas, steps, i);
    ContentsAreShown(replicas, steps, k);
    LengthsAlwaysFit(replicas, steps);
    assert LengthFits(s.copies[i], s.landed[i], s.requests) && LengthFits(s.copies[k], s.landed[k], s.requests);
    if AllDone(s) {
      DoneIsLanded(replicas, steps);
      forall id
        ensures id in s.landed[i] <==> id in s.landed[k]
      {
        if id in s.done {
          assert Everywhere(id, s);
        }
      }
      assert s.landed[i] == s.landed[k];
    }
    if s.landed[i] == s.landed[k] {
      ShownOnce(s.copies[i], s.copies[k], s.landed[i], s.requests);
    }
  }

  // ----- what does not hold -----

  lemma Extend(replicas: nat, steps: seq<Step>, step: Step)
    ensures After(replicas, steps + [step]) == Next(After(replicas, steps), step)
  {
    var more := steps + [step];
    assert more[..|more| - 1] == steps;
  }

  /** Two requests begun on the empty file, by two handles or by one. */
  lemma TwoWriters(a: Request, b: Request) returns (steps: seq<Step>)
    ensures After(2, steps) ==
            Writers([[], []], [{}, {}], 0, map[a.handle := 0, b.handle := 0], map[1 := a, 2 := b], {}, {})
  {
    var s0 := Created(2);
    var s1 := Next(s0, Open(a.handle));
    var s2 := Next(s1, Open(b.handle));
    var s3 := Next(s2, Begin(1, a));
    var s4 := Next(s3, Begin(2, b));
    assert s0.copies == [[], []] && s0.landed == [{}, {}];
    Extend(2, [], Open(a.handle));
    Extend(2, [Open(a.handle)], Open(b.handle));
    Extend(2, [Open(a.handle), Open(b.handle)], Begin(1, a));
    Extend(2, [Open(a.handle), Open(b.handle), Begin(1, a)], Begin(2, b));
    steps := [Open(a.handle), Open(b.handle), Begin(1, a)] + [Begin(2, b)];
    assert [] + [Open(a.handle)] == [Open(a.handle)];
    assert [Open(a.handle)] + [Open(b.handle)] == [Open(a.handle), Open(b.handle)];
    assert [Open(a.handle), Open(b.handle)] + [Begin(1, a)] == [Open(a.handle), Open(b.handle), Begin(1, a)];
  }

  lemma LandBoth(s: Writers, i: nat)
    requires |s.copies| == 2 && |s.landed| == 2 && i < 2 && s.landed[i] == {} && 1 in s.requests && 2 in s.requests
    ensures var first, second := (if i == 0 then 1 else 2), (if i == 0 then 2 else 1);
            var t := Next(Next(s, Land(first, i)), Land(second, i));
            t == s.(copies := t.copies, landed := t.landed)
            && t.copies == s.copies[i := Written(Written(s.copies[i], s.requests[first]), s.requests[second])]
            && t.landed == s.landed[i := {1, 2}]
  {
    var first, second := (if i == 0 then 1 else 2), (if i == 0 then 2 else 1);
    var t := Next(s, Land(first, i));
    assert t.landed[i] == {first};
    assert t.landed[i] + {second} == {1, 2};
  }

  /** The two requests land in opposite orders on the two replicas. */
  lemma Crossed(a: Request, b: Request) returns (steps: seq<Step>)
    ensures var s := After(2, steps);
            && s.copies == [Written(Written([], a), b), Written(Written([], b), a)]
            && Everywhere(1, s) && Everywhere(2, s)
            && s.cached == map[a.handle := 0, b.handle := 0] && s.requests == map[1 := a, 2 := b] && s.done == {}
  {
    var begun := TwoWriters(a, b);
    LandBoth(After(2, begun), 0);
    Extend(2, begun, Land(1, 0));
    Extend(2, begun + [Land(1, 0)], Land(2, 0));
    var half := begun + [Land(1, 0)] + [Land(2, 0)];
    LandBoth(After(2, half), 1);
    Extend(2, half, Land(2, 1));
    Extend(2, half + [Land(2, 1)], Land(1, 1));
    steps := half + [Land(2, 1)] + [Land(1, 1)];
  }

  /** Both requests succeed, the second one first. */
  lemma BothSucceed(a: Request, b: Request) returns (steps: seq<Step>)
    requires a.End() > 0 && b.End() > 0
    ensures var s := After(2, steps);
            && s.copies == [Written(Written([], a), b), Written(Written([], b), a)]
            && s.requests == map[1 := a, 2 := b] && AllDone(s)
            && b.End() in s.sent && (a.End() > b.End() ==> a.End() in s.sent)
  {
    steps := Crossed(a, b);
    var s := After(2, steps);
    var t := Next(s, Succeed(2));
    assert t.done == {2} && Everywhere(1, t);
    assert t.cached[a.handle] == if a.handle == b.handle then b.End() else 0;
    Extend(2, steps, Succeed(2));
    Extend(2, steps + [Succeed(2)], Succeed(1));
    steps := steps + [Succeed(2)] + [Succeed(1)];
  }

  /** The recorded size can go back: of two writes in flight, the one ending later may be recorded first. */
  lemma RecordedCanRegress(a: Request, b: Request) returns (steps: seq<Step>)
    requires a.data != [] && b.data != [] && a.End() > b.End()
    ensures |steps| > 0 && After(2, steps[..|steps| - 1]).recorded == a.End()
    ensures var s := After(2, steps);
            && NonEmptyWrites(s) && AllDone(s) && s.requests == map[1 := a, 2 := b]
            && s.recorded == b.End() && forall i | 0 <= i < |s.copies| :: |s.copies[i]| == a.End()
  {
    steps := BothSucceed(a, b);
    BothWrittenAt([], a, b, 0);
    BothWrittenAt([], b, a, 0);
    Extend(2, steps, Commit(a.End()));
    steps := steps + [Commit(a.End())];
    Extend(2, steps, Commit(b.End()));
    steps := steps + [Commit(b.End())];
    assert steps[..|steps| - 1] + [Commit(b.End())] == steps;
  }

  // ----- agreement needs compatible writes -----

  ghost predicate Reachable(replicas: nat, s: Writers) {
    exists steps :: After(replicas, steps) == s
  }

  lemma ReachNext(replicas: nat, s: Writers, step: Step)
    requires Reachable(replicas, s)
    ensures Reachable(replicas, Next(s, step))
  {
    var steps :| After(replicas, steps) == s;
    Extend(replicas, steps, step);
    assert After(replicas, steps + [step]) == Next(s, step);
  }

  ghost predicate HandlesOpen(s: Writers) {
    forall id | id in s.requests :: s.requests[id].handle in s.cached
  }

  /** Any requests can have been begun, with nothing landed yet. */
  lemma {:induction false} BeginAll(replicas: nat, requests: map<nat, Request>) returns (s: Writers)
    ensures Reachable(replicas, s) && s.requests == requests && HandlesOpen(s)
    ensures |s.copies| == |s.landed| == replicas
    ensures forall i | 0 <= i < replicas :: s.copies[i] == [] && s.landed[i] == {}
    decreases |requests.Keys|
  {
    if requests == map[] {
      s := Created(replicas);
      assert After(replicas, []) == s;
    } else {
      var id :| id in requests;
      var r, fewer := requests[id], requests - {id};
      assert fewer.Keys == requests.Keys - {id};
      var s0 := BeginAll(replicas, fewer);
      ReachNext(replicas, s0, Open(r.handle));
      var s1 := Next(s0, Open(r.handle));
      ReachNext(replicas, s1, Begin(id, r));
      s := Next(s1, Begin(id, r));
      assert fewer[id := r] == requests;
    }
  }

  /** The bytes after requests have landed in this order. */
  function InOrder(order: seq<nat>, requests: map<nat, Request>): Bytes
    requires forall id | id in order :: id in requests
  {
    if order == [] then [] else Written(InOrder(order[..|order| - 1], requests), requests[order[|order| - 1]])
  }

  predicate Once(order: seq<nat>, requests: map<nat, Request>) {
    (forall i, j | 0 <= i < j < |order| :: order[i] != order[j]) && forall id | id in order :: id in requests
  }

  function Ids(order: seq<nat>): set<nat> {
    set id | id in order
  }

  lemma {:induction false} LandOrder(replicas: nat, s: Writers, i: nat, order: seq<nat>) returns (s': Writers)
    requires Reachable(replicas, s) && i < |s.copies| == |s.landed| && Once(order, s.requests)
    requires s.copies[i] == [] && s.landed[i] == {}
    ensures Reachable(replicas, s')
    ensures s' == s.(copies := s.copies[i := InOrder(order, s.requests)], landed := s.landed[i := Ids(order)])
  {
    if order == [] {
      s' := s;
      assert s.copies[i := []] == s.copies && s.landed[i := {}] == s.landed && Ids(order) == {};
    } else {
      var n := |order| - 1;
      assert order == order[..n] + [order[n]];
      var s0 := LandOrder(replicas, s, i, order[..n]);
      ReachNext(replicas, s0, Land(order[n], i));
      s' := Next(s0, Land(order[n], i));
      assert Ids(order[..n]) + {order[n]} == Ids(order);
    }
  }

  /** One order on the first replica, another on the rest. */
  lemma LandOrders(replicas: nat, s: Writers, first: seq<nat>, rest: seq<nat>) returns (s': Writers)
    requires Reachable(replicas, s) && |s.copies| == |s.landed| == replicas
    requires forall i | 0 <= i < replicas :: s.copies[i] == [] && s.landed[i] == {}
    requires Once(first, s.requests) && Once(rest, s.requests)
    ensures Reachable(replicas, s') && s' == s.(copies := s'.copies, landed := s'.landed)
    ensures |s'.copies| == |s'.landed| == replicas
    ensures forall i | 0 <= i < replicas ::
              s'.copies[i] == InOrder(if i == 0 then first else rest, s.requests) &&
              s'.landed[i] == Ids(if i == 0 then first else rest)
  {
    s' := s;
    for i := 0 to replicas
      invariant Reachable(replicas, s') && s' == s.(copies := s'.copies, landed := s'.landed)
      invariant |s'.copies| == |s'.landed| == replicas
      invariant forall k | 0 <= k < i ::
                  s'.copies[k] == InOrder(if k == 0 then first else rest, s.requests) &&
                  s'.landed[k] == Ids(if k == 0 then first else rest)
      invariant forall k | i <= k < replicas :: s'.copies[k] == [] && s'.landed[k] == {}
    {
      s' := LandOrder(replicas, s', i, if i == 0 then first else rest);
    }
  }

  /** What has landed everywhere can succeed. */
  lemma SucceedAll(replicas: nat, s: Writers) returns (s': Writers)
    requires Reachable(replicas, s) && HandlesOpen(s) && forall id | id in s.requests :: Everywhere(id, s)
    ensures Reachable(replicas, s') && s'.copies == s.copies && s'.requests == s.requests && AllDone(s')
  {
    s' := s;
    var todo := s.requests.Keys;
    while todo != {}
      invariant todo <= s.requests.Keys
      invariant Reachable(replicas, s') && HandlesOpen(s')
      invariant s'.copies == s.copies && s'.landed == s.landed && s'.requests == s.requests
      invariant forall id | id in s.requests && id !in todo :: id in s'.done
    {
      var id :| id in todo;
      assert Everywhere(id, s);
      ReachNext(replicas, s', Succeed(id));
      s' := Next(s', Succeed(id));
      todo := todo - {id};
    }
  }

  lemma {:induction false} SetOrder(ids: set<nat>) returns (order: seq<nat>)
    ensures (forall i, j | 0 <= i < j < |order| :: order[i] != order[j]) && Ids(order) == ids
  {
    if ids == {} {
      order := [];
    } else {
      var id :| id in ids;
      var fewer := SetOrder(ids - {id});
      assert id !in Ids(fewer) && Ids(fewer + [id]) == Ids(fewer) + {id};
      order := fewer + [id];
    }
  }

  lemma TwoMore(order: seq<nat>, a: nat, b: nat, requests: map<nat, Request>)
    requires Once(order, requests) && a in requests && b in requests && a != b && a !in order && b !in order
    ensures Once(order + [a] + [b], requests) && Ids(order + [a] + [b]) == Ids(order) + {a, b}
    ensures InOrder(order + [a] + [b], requests) ==
            Written(Written(InOrder(order, requests), requests[a]), requests[b])
  {
    var one := order + [a];
    var two := one + [b];
    assert one[..|order|] == order && two[..|one|] == one;
  }

  ghost predicate PairwiseCompatible(requests: map<nat, Request>) {
    forall a, b | a in requests && b in requests && a != b :: Compatible(requests[a], requests[b])
  }

  /** Two orders of all requests that end in different bytes. */
  lemma TwoOrders(requests: map<nat, Request>, a: nat, b: nat) returns (first: seq<nat>, rest: seq<nat>)
    requires a in requests && b in requests && a != b && !Compatible(requests[a], requests[b])
    requires requests[a].data != [] && requests[b].data != []
    ensures Once(first, requests) && Once(rest, requests) && Ids(first) == Ids(rest) == requests.Keys
    ensures InOrder(first, requests) != InOrder(rest, requests)
  {
    var others := Others(requests, a, b);
    first, rest := others + [a] + [b], others + [b] + [a];
    assert Once(first, requests) && Ids(first) == requests.Keys by { TwoMore(others, a, b, requests); }
    assert Once(rest, requests) && Ids(rest) == requests.Keys by { TwoMore(others, b, a, requests); }
    EndsDiffer(others, a, b, requests);
  }

  lemma Others(requests: map<nat, Request>, a: nat, b: nat) returns (others: seq<nat>)
    requires a in requests && b in requests
    ensures Once(others, requests) && a !in others && b !in others && Ids(others) + {a, b} == requests.Keys
    ensures Ids(others) + {b, a} == requests.Keys
  {
    others := SetOrder(requests.Keys - {a, b});
    forall id | id in others
      ensures id in requests && id != a && id != b
    {
      assert id in Ids(others);
    }
  }

  lemma EndsDiffer(order: seq<nat>, a: nat, b: nat, requests: map<nat, Request>)
    requires Once(order, requests) && a in requests && b in requests && a != b && a !in order && b !in order
    requires requests[a].data != [] && requests[b].data != [] && !Compatible(requests[a], requests[b])
    ensures Once(order + [a] + [b], requests) && Once(order + [b] + [a], requests)
    ensures InOrder(order + [a] + [b], requests) != InOrder(order + [b] + [a], requests)
  {
    TwoMore(order, a, b, requests);
    TwoMore(order, b, a, requests);
    WritesCommuteIff(InOrder(order, requests), requests[a], requests[b]);
  }

  /** Requests of which two are not compatible can all succeed and leave two replicas different. */
  lemma IncompatibleWritesCanDiverge(replicas: nat, requests: map<nat, Request>, a: nat, b: nat)
    returns (steps: seq<Step>)
    requires replicas >= 2 && a in requests && b in requests && a != b && !Compatible(requests[a], requests[b])
    requires forall id | id in requests :: requests[id].data != []
    ensures var s := After(replicas, steps);
            s.requests == requests && AllDone(s) && |s.copies| == replicas && s.copies[0] != s.copies[1]
  {
    var first, rest := TwoOrders(requests, a, b);
    var s0 := BeginAll(replicas, requests);
    var s1 := LandOrders(replicas, s0, first, rest);
    forall id | id in requests
      ensures Everywhere(id, s1)
    {
    }
    var s2 := SucceedAll(replicas, s1);
    steps :| After(replicas, steps) == s2;
  }

  predicate CopiesEqual(s: Writers) {
    forall i, k | 0 <= i < |s.copies| && 0 <= k < |s.copies| :: s.copies[i] == s.copies[k]
  }

  /** Every run in which exactly these requests are begun, and all succeed, leaves the replicas equal. */
  ghost predicate AlwaysAgree(replicas: nat, requests: map<nat, Request>) {
    forall steps | After(replicas, steps).requests == requests && AllDone(After(replicas, steps)) ::
      CopiesEqual(After(replicas, steps))
  }

  /** Replicas agree after all complete runs of some writes exactly when the writes are pairwise compatible. */
  lemma AlwaysAgreeIff(replicas: nat, requests: map<nat, Request>)
    requires replicas >= 2 && forall id | id in requests :: requests[id].data != []
    ensures AlwaysAgree(replicas, requests) <==> PairwiseCompatible(requests)
  {
    if PairwiseCompatible(requests) {
      forall steps | After(replicas, steps).requests == requests && AllDone(After(replicas, steps))
        ensures CopiesEqual(After(replicas, steps))
      {
        var s := After(replicas, steps);
        LengthsAlwaysFit(replicas, steps);
        forall i, k | 0 <= i < |s.copies| && 0 <= k < |s.copies|
          ensures s.copies[i] == s.copies[k]
        {
          ReplicasAgree(replicas, steps, i, k);
        }
      }
    } else {
      var a, b :| a in requests && b in requests && a != b && !Compatible(requests[a], requests[b]);
      var steps := IncompatibleWritesCanDiverge(replicas, requests, a, b);
      var s := After(replicas, steps);
      assert s.copies[0] != s.copies[1];
    }
  }
}
