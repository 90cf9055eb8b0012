/**
 An open file: reads with failover, serial or by parallel segments, and writes and
 truncations on all replicas.

 Which nodes a call cannot reach, and whether its metadata update commits, are parameters.
 */
module FileHandles {
  import opened Paths
  import opened Subtrees
  import opened Options
  import opened Metadata
  import opened Invariants
  import opened RepairLists
  import opened ReplicaLists
  import opened DataNodes
  import opened Clusters

  const MIN_PARALLEL_READ: nat := 4096

  datatype ReadResult = NegativeOffset | NoReplicas | AllReplicasFailed | Read(n: nat, eof: bool)

  datatype SegResult = SegFailed | Seg(n: nat, eof: bool)

  // ----- what a read returns when all replicas hold the same bytes -----

  /** The count and end-of-file flag of a read of len > 0 bytes of c. */
  function ReadOutcome(c: Bytes, offset: nat, len: nat): ReadResult {
    var n := |Slice(c, offset, len)|;
    Read(n, n < len)
  }

  /** What position j of the part [lo, hi) of a buffer reads after reading c at offset into it. */
  function ByteRead(c: Bytes, offset: nat, before: Bytes, lo: nat, j: nat): byte
    requires lo <= j < |before|
  {
    if offset + (j - lo) < |c| then c[offset + (j - lo)] else before[j]
  }

  /** The buffer after reading c at offset into its part [lo, hi). */
  ghost predicate Filled(c: Bytes, offset: nat, before: Bytes, after: Bytes, lo: nat, hi: nat)
    requires lo <= hi <= |before| == |after|
  {
    forall j | lo <= j < hi :: after[j] == ByteRead(c, offset, before, lo, j)
  }

  class Client {
    const nodes: Nodes
    var meta: Meta

    constructor (nodes: Nodes, meta: Meta)
      requires Separate(nodes)
      ensures Valid() && this.nodes == nodes && this.meta == meta
    {
      this.nodes, this.meta := nodes, meta;
    }

    ghost predicate Valid() {
      Separate(nodes)
    }

    function Disks(): Disks
      reads nodes.Values
    {
      DisksOf(nodes)
    }

    function Holds(r: Replica): Bytes
      reads nodes.Values
    {
      BytesOn(DisksOf(nodes), r)
    }

    predicate Up(r: Replica, down: set<Addr>) {
      Reachable(nodes, r.addr, down)
    }

    /** The UpdateSize round: refused for a missing file, a directory or a recovering file. */
    method UpdateSize(path: string, size: nat, commits: bool, now: Time) returns (ok: bool)
      modifies `meta
      ensures ok <==> commits && old(CanResize(path))
      ensures meta == if ok then Resized(old(meta), path, size, now) else old(meta)
    {
      if path == "" || !commits {
        return false;
      }
      var (m, outcome) := Apply(meta, Command.UpdateSize(path, size), now);
      meta := m;
      return outcome == Ok;
    }

    predicate CanResize(path: string)
      reads this
    {
      var t, p := meta.tree, Components(path);
      path != "" && IsFileAt(t, p) && t[p].status != RECOVERING
    }

    /** rangeRead into buf[lo..hi]. */
    method RangeRead(r: Replica, offset: nat, buf: array<byte>, lo: nat, hi: nat, down: set<Addr>)
      returns (seg: SegResult)
      requires lo < hi <= buf.Length
      modifies buf
      ensures seg == if Up(r, down) then SegOutcome(Holds(r), offset, hi - lo) else SegFailed
      ensures !Up(r, down) ==> buf[..] == old(buf[..])
      ensures Up(r, down) ==> Filled(Holds(r), offset, old(buf[..]), buf[..], lo, hi)
      ensures forall j | 0 <= j < buf.Length && !(lo <= j < hi) :: buf[j] == old(buf[j])
    {
      if !Up(r, down) {
        return SegFailed;
      }
      var ok, data, eof := nodes[r.addr].RangeRead(r.remotePath, offset, hi - lo);
      forall i | 0 <= i < |data| {
        buf[lo + i] := data[i];
      }
      return Seg(|data|, eof);
    }

    // ----- all replicas of a list -----

    /** The reachable replicas of a list. */
    function Writable(rs: seq<Replica>, down: set<Addr>): set<Replica> {
      set r | r in rs && Up(r, down)
    }

    /** The replicas of a list that can be truncated. */
    function Truncatable(rs: seq<Replica>, n: int, down: set<Addr>): set<Replica>
      reads nodes.Values
    {
      set r | r in rs && CanTruncate(Disks(), r, n, down)
    }

    /** The write sent to every replica of a list; errs tells which did not take it. */
    method WriteReplicas(rs: seq<Replica>, errs: array<bool>, data: Bytes, offset: nat, down: set<Addr>)
      requires Valid() && errs.Length == |rs|
      modifies nodes.Values, errs
      ensures forall i | 0 <= i < errs.Length :: errs[i] == (rs[i] !in Writable(rs, down))
      ensures Disks() == Sent(old(Disks()), Write(offset, data), rs, Writable(rs, down))
    {
      ghost var before, can := Disks(), Writable(rs, down);
      for i := 0 to |rs|
        invariant forall k | 0 <= k < i :: errs[k] == (rs[k] !in can)
        invariant Disks() == Sent(before, Write(offset, data), rs[..i], can)
      {
        SentNext(before, Write(offset, data), rs, can, i);
        var ok := WriteReplica(nodes, rs[i], offset, data, down);
        errs[i] := !ok;
      }
      assert rs[..|rs|] == rs;
    }

    /** The truncation sent to every replica of a list. */
    method TruncateReplicas(rs: seq<Replica>, errs: array<bool>, n: nat, down: set<Addr>)
      requires Valid() && errs.Length == |rs|
      modifies nodes.Values, errs
      ensures forall i | 0 <= i < errs.Length :: errs[i] == (rs[i] !in old(Truncatable(rs, n, down)))
      ensures Disks() == Sent(old(Disks()), Resize(n), rs, old(Truncatable(rs, n, down)))
    {
      ghost var before, can := Disks(), Truncatable(rs, n, down);
      for i := 0 to |rs|
        invariant forall k | 0 <= k < i :: errs[k] == (rs[k] !in can)
        invariant Disks() == Sent(before, Resize(n), rs[..i], can)
      {
        SentNext(before, Resize(n), rs, can, i);
        StillTruncatable(before, n, rs[..i], can, rs[i], down);
        var ok := TruncateReplica(nodes, rs[i], n, down);
        errs[i] := !ok;
      }
      assert rs[..|rs|] == rs;
    }

    /** Truncates the replicas the metadata records now for a path, not those of any handle. */
    method TruncateAllReplicas(path: string, n: nat, down: set<Addr>) returns (ok: bool)
      requires Valid()
      modifies nodes.Values
      ensures old(Recorded(path)) == None ==> !ok && Disks() == old(Disks())
      ensures old(Recorded(path)).Some? ==>
                var rs := old(Recorded(path)).value;
                && (ok <==> AllIn(rs, old(Truncatable(rs, n, down))))
                && Disks() == Sent(old(Disks()), Resize(n), rs, old(Truncatable(rs, n, down)))
    {
      var location := Recorded(path);
      if location == None {
        return false;
      }
      var errs := new bool[|location.value|];
      TruncateReplicas(location.value, errs, n, down);
      ok := NoError(errs, location.value, old(Truncatable(location.value, n, down)));
    }

    /** The write sent to every replica of a list; ok if all took it. */
    method WriteAll(rs: seq<Replica>, data: Bytes, offset: nat, down: set<Addr>) returns (ok: bool)
      requires Valid()
      modifies nodes.Values
      ensures ok <==> AllIn(rs, Writable(rs, down))
      ensures Disks() == Sent(old(Disks()), Write(offset, data), rs, Writable(rs, down))
    {
      var errs := new bool[|rs|];
      WriteReplicas(rs, errs, data, offset, down);
      ok := NoError(errs, rs, Writable(rs, down));
    }

    /** The replicas recorded for a file. */
    function Recorded(path: string): Option<seq<Replica>>
      reads this
    {
      var t, p := meta.tree, Components(path);
      if IsFileAt(t, p) then Some(t[p].replicas) else None
    }
  }

  function SegOutcome(c: Bytes, offset: nat, len: nat): SegResult {
    var n := |Slice(c, offset, len)|;
    Seg(n, n < len)
  }

  /** Only the size and modification time of one file differ. */
  function Resized(m: Meta, path: string, size: int, now: Time): Meta
    requires Components(path) in m.tree
  {
    var p := Components(path);
    m.(tree := m.tree[p := m.tree[p].(size := size, modTime := now)])
  }

  predicate AllIn(rs: seq<Replica>, can: set<Replica>) {
    forall r | r in rs :: r in can
  }

  lemma SentNext(d: Disks, op: Op, rs: seq<Replica>, can: set<Replica>, i: nat)
    requires i < |rs|
    ensures Sent(d, op, [], can) == d
    ensures var e := Sent(d, op, rs[..i], can);
            Sent(d, op, rs[..i + 1], can) == if rs[i] in can then Put(e, rs[i], OnBytes(op, BytesOn(e, rs[i]))) else e
  {
    assert rs[..i + 1][..i] == rs[..i];
  }

  /** Truncating some replicas changes nothing about which can be truncated. */
  lemma {:induction false} StillTruncatable(
    d: Disks, n: nat, rs: seq<Replica>, can: set<Replica>, r: Replica, down: set<Addr>)
    requires forall q | q in can :: CanTruncate(d, q, n, down)
    ensures CanTruncate(Sent(d, Resize(n), rs, can), r, n, down) == CanTruncate(d, r, n, down)
    ensures Sent(d, Resize(n), rs, can).Keys == d.Keys
    decreases rs
  {
    if rs != [] {
      var k := |rs| - 1;
      var e := Sent(d, Resize(n), rs[..k], can);
      StillTruncatable(d, n, rs[..k], can, r, down);
      PutAt(e, rs[k], OnBytes(Resize(n), BytesOn(e, rs[k])), r);
    }
  }

  /** Counts the calls that did not fail; can says which those are. */
  method NoError(errs: array<bool>, ghost rs: seq<Replica>, ghost can: set<Replica>) returns (ok: bool)
    requires errs.Length == |rs| && forall i | 0 <= i < errs.Length :: errs[i] == (rs[i] !in can)
    ensures ok <==> AllIn(rs, can)
  {
    var successes := 0;
    for i := 0 to errs.Length
      invariant successes <= i && (successes == i <==> forall k | 0 <= k < i :: rs[k] in can)
    {
      if !errs[i] {
        successes := successes + 1;
      }
    }
    return successes == errs.Length;
  }

  // ----- sessions: what writes and truncations do to all copies and both sizes -----

  /** The copies of the file on its replicas, the size the handle caches and the recorded size. */
  datatype Session = Session(copies: seq<Bytes>, handleSize: int, metaSize: int)

  /** A successful operation whose metadata update commits. */
  function SessionStep(s: Session, op: Op): Session {
    var copies := seq(|s.copies|, i requires 0 <= i < |s.copies| => OnBytes(op, s.copies[i]));
    match op
    case Write(offset, data) =>
      var end := offset + |data|;
      if end > s.handleSize then Session(copies, end, end) else s.(copies := copies)
    case Resize(n) => Session(copies, n, n)
  }

  /** All copies are c and both sizes are its length. */
  ghost predicate InSync(s: Session, c: Bytes) {
    (forall i | 0 <= i < |s.copies| :: s.copies[i] == c) && s.handleSize == |c| && s.metaSize == |c|
  }

  /** One operation keeps copies and sizes in step unless it writes nothing beyond the end. */
  lemma StepInSyncIff(s: Session, c: Bytes, op: Op)
    requires InSync(s, c)
    ensures InSync(SessionStep(s, op), OnBytes(op, c)) <==> !(op.Write? && op.data == [] && op.offset > |c|)
  {
    if op.Write? && op.data != [] {
      WriteBytesAt(c, op.offset, op.data, 0);
    }
  }

  function SessionAfter(s: Session, ops: seq<Op>): Session {
    if ops == [] then s else SessionStep(SessionAfter(s, ops[..|ops| - 1]), ops[|ops| - 1])
  }

  function BytesAfter(c: Bytes, ops: seq<Op>): Bytes {
    if ops == [] then c else OnBytes(ops[|ops| - 1], BytesAfter(c, ops[..|ops| - 1]))
  }

  /** Any sequence of non-empty writes and truncations keeps every copy equal to the one byte sequence. */
  lemma {:induction false} SessionStaysInSync(s: Session, c: Bytes, ops: seq<Op>)
    requires InSync(s, c) && forall i | 0 <= i < |ops| && ops[i].Write? :: ops[i].data != []
    ensures InSync(SessionAfter(s, ops), BytesAfter(c, ops))
  {
    if ops != [] {
      var n := |ops| - 1;
      SessionStaysInSync(s, c, ops[..n]);
      StepInSyncIff(SessionAfter(s, ops[..n]), BytesAfter(c, ops[..n]), ops[n]);
    }
  }

  // ----- segments -----

  function SegLo(i: nat, seg: nat): nat {
    i * seg
  }

  /** The last segment takes the remainder. */
  function SegHi(i: nat, n: nat, seg: nat, total: nat): nat {
    if i == n - 1 then total else (i + 1) * seg
  }

  /** The segment a buffer position belongs to. */
  function SegOf(j: nat, n: nat, seg: nat): nat
    requires n > 0 && seg > 0
  {
    if j / seg < n - 1 then j / seg else n - 1
  }

  lemma DivBounds(j: nat, seg: nat, i: nat)
    requires seg > 0
    ensures j / seg == i <==> i * seg <= j < (i + 1) * seg
    ensures j / seg >= i <==> i * seg <= j
  {
    var q := j / seg;
    assert q * seg <= j < q * seg + seg;
    if i <= q {
      assert i * seg <= q * seg;
    } else {
      assert (q + 1) * seg <= i * seg;
    }
    if i < q {
      assert (i + 1) * seg <= q * seg;
    }
  }

  lemma SegRange(i: nat, n: nat, total: nat)
    requires 0 <= i < n <= total
    ensures SegLo(i, total / n) < SegHi(i, n, total / n, total) <= total
    ensures i < n - 1 ==> SegHi(i, n, total / n, total) == SegLo(i + 1, total / n)
  {
    var seg := total / n;
    DivBounds(total, n, seg);
    DivBounds(total, n, 1);
    Multiples(i, n, seg);
  }

  lemma Multiples(i: nat, n: nat, seg: nat)
    requires i < n
    ensures i * seg + seg == (i + 1) * seg <= n * seg == seg * n
  {
    if i + 1 < n {
      Multiples(i, n - 1, seg);
    }
  }

  /** The segments partition the buffer: each position lies in exactly its own segment. */
  lemma SegmentsPartition(i: nat, j: nat, n: nat, total: nat)
    requires 0 <= i < n <= total && j < total
    ensures total / n > 0
    ensures SegLo(i, total / n) <= j < SegHi(i, n, total / n, total) <==> SegOf(j, n, total / n) == i
  {
    var seg := total / n;
    DivBounds(j, seg, i);
    DivBounds(j, seg, n - 1);
  }

  lemma SliceSplit(c: Bytes, offset: nat, a: nat, b: nat)
    ensures Slice(c, offset, a) + Slice(c, offset + a, b) == Slice(c, offset, a + b)
  {
  }

  /** Once a segment is short, all later ones are empty. */
  lemma ShortThenEmpty(c: Bytes, offset: nat, a: nat, b: nat)
    requires |Slice(c, offset, a)| < a
    ensures Slice(c, offset + a, b) == []
  {
  }

  ghost predicate Ascending(ends: seq<nat>) {
    forall k | 0 <= k < |ends| - 1 :: ends[k] < ends[k + 1]
  }

  /** r is what reading segment i of its source gives. */
  ghost predicate SegIs(src: seq<Bytes>, offset: nat, ends: seq<nat>, i: nat, r: SegResult)
    requires |ends| == |src| + 1 && Ascending(ends) && i < |src|
  {
    r == SegOutcome(src[i], offset + ends[i], ends[i + 1] - ends[i])
  }

  /** The bytes the first k segments read. */
  ghost function SumTo(src: seq<Bytes>, offset: nat, ends: seq<nat>, k: nat): (sum: nat)
    requires |ends| == |src| + 1 && Ascending(ends) && k <= |src|
  {
    if k == 0 then 0
    else SumTo(src, offset, ends, k - 1) + |Slice(src[k - 1], offset + ends[k - 1], ends[k] - ends[k - 1])|
  }

  /** On agreeing sources the segments add up to one undivided read. */
  lemma {:induction false} SumAgrees(src: seq<Bytes>, offset: nat, ends: seq<nat>, k: nat, c: Bytes)
    requires |ends| == |src| + 1 && Ascending(ends) && ends[0] == 0 && k <= |src|
    requires forall i | 0 <= i < |src| :: src[i] == c
    ensures SumTo(src, offset, ends, k) == |Slice(c, offset, ends[k])|
  {
    if k > 0 {
      SumAgrees(src, offset, ends, k - 1, c);
      SliceSplit(c, offset, ends[k - 1], ends[k] - ends[k - 1]);
    }
  }

  lemma RotationCovers(start: nat, i: nat, n: nat) returns (k: nat)
    requires start < n && i < n
    ensures k < n && (start + k) % n == i
  {
    k := if start <= i then i - start else i + n - start;
  }

  function Below(n: nat): (r: set<nat>)
    ensures forall i: nat :: i in r <==> i < n
  {
    if n == 0 then {} else Below(n - 1) + {n - 1}
  }

  // ----- the handle -----

  class FileHandle {
    const client: Client
    const path: string
    const replicas: seq<Replica>
    var size: int

    constructor (client: Client, path: string, replicas: seq<Replica>, size: int)
      ensures this.client == client && this.path == path && this.replicas == replicas && this.size == size
    {
      this.client, this.path, this.replicas, this.size := client, path, replicas, size;
    }

    ghost predicate NoneReachable(down: set<Addr>) {
      forall r | r in replicas :: !client.Up(r, down)
    }

    /** All replicas hold the bytes c. */
    ghost predicate AllHold(c: Bytes)
      reads client.nodes.Values
    {
      forall r | r in replicas :: client.Holds(r) == c
    }

    ghost predicate DownAt(start: nat, i: nat, down: set<Addr>)
      requires replicas != []
    {
      !client.Up(replicas[(start + i) % |replicas|], down)
    }

    /** The replica that answers when the i-th after start is tried next: the first reachable one. */
    function Server(start: nat, i: nat, down: set<Addr>): Option<Replica>
      requires start < |replicas|
      decreases |replicas| - i
    {
      if i >= |replicas| then None
      else
        var r := replicas[(start + i) % |replicas|];
        if client.Up(r, down) then Some(r) else Server(start, i + 1, down)
    }

    /** Of the replicas from the i-th after start on, the k-th is the first that can be reached. */
    ghost predicate ServesAt(start: nat, i: nat, k: nat, down: set<Addr>)
      requires start < |replicas|
    {
      && Server(start, i, down) == Some(replicas[(start + k) % |replicas|])
      && !DownAt(start, k, down) && forall j: nat | i <= j < k :: DownAt(start, j, down)
    }

    lemma FromFirst(i: nat, down: set<Addr>)
      requires i < |replicas|
      ensures Server(0, i, down) == if client.Up(replicas[i], down) then Some(replicas[i]) else Server(0, i + 1, down)
    {
      assert (0 + i) % |replicas| == i;
    }

    lemma {:induction false} ServerIs(start: nat, i: nat, down: set<Addr>)
      requires start < |replicas| && i <= |replicas|
      ensures Server(start, i, down).Some? ==>
                Server(start, i, down).value in replicas && client.Up(Server(start, i, down).value, down)
      ensures Server(start, i, down).None? ==>
                forall k: nat | i <= k < |replicas| :: DownAt(start, k, down)
      ensures Server(start, i, down).Some? ==>
                exists k: nat | i <= k < |replicas| :: ServesAt(start, i, k, down)
      decreases |replicas| - i
    {
      if i < |replicas| {
        ServerIs(start, i + 1, down);
        if client.Up(replicas[(start + i) % |replicas|], down) {
          assert ServesAt(start, i, i, down);
        } else {
          assert DownAt(start, i, down);
          if Server(start, i + 1, down).Some? {
            var k: nat :| i + 1 <= k < |replicas| && ServesAt(start, i + 1, k, down);
            assert ServesAt(start, i, k, down);
          }
        }
      }
    }

    /** The rotation reaches every replica, so some replica answers if any is reachable. */
    lemma ServerExists(start: nat, down: set<Addr>)
      requires start < |replicas|
      ensures Server(start, 0, down).None? <==> NoneReachable(down)
      ensures Server(start, 0, down).Some? ==> Server(start, 0, down).value in replicas
    {
      ServerIs(start, 0, down);
      forall r | r in replicas && Server(start, 0, down).None?
        ensures !client.Up(r, down)
      {
        var i :| 0 <= i < |replicas| && replicas[i] == r;
        var k := RotationCovers(start, i, |replicas|);
        assert DownAt(start, k, down);
      }
    }

    /** One replica after the other; the first that answers serves the whole read. */
    method ReadAtSerial(buf: array<byte>, offset: nat, down: set<Addr>) returns (res: ReadResult)
      requires buf.Length > 0 && replicas != []
      modifies buf
      ensures match Server(0, 0, down)
              case None => res == AllReplicasFailed && buf[..] == old(buf[..])
              case Some(r) =>
                && res == ReadOutcome(client.Holds(r), offset, buf.Length)
                && Filled(client.Holds(r), offset, old(buf[..]), buf[..], 0, buf.Length)
    {
      for i := 0 to |replicas|
        invariant Server(0, i, down) == Server(0, 0, down)
        invariant buf[..] == old(buf[..])
      {
        FromFirst(i, down);
        var seg := client.RangeRead(replicas[i], offset, buf, 0, buf.Length, down);
        if seg.Seg? {
          return Read(seg.n, seg.eof);
        }
      }
      return AllReplicasFailed;
    }

    /** One segment, from its own starting replica on, rotating through all of them. */
    method ReadSegmentWithFailover(offset: nat, buf: array<byte>, lo: nat, hi: nat, startReplica: nat, down: set<Addr>)
      returns (seg: SegResult)
      requires lo < hi <= buf.Length && startReplica < |replicas|
      modifies buf
      ensures match Server(startReplica, 0, down)
              case None => seg == SegFailed && buf[..] == old(buf[..])
              case Some(r) =>
                && seg == SegOutcome(client.Holds(r), offset, hi - lo)
                && Filled(client.Holds(r), offset, old(buf[..]), buf[..], lo, hi)
      ensures forall j | 0 <= j < buf.Length && !(lo <= j < hi) :: buf[j] == old(buf[j])
    {
      var n := |replicas|;
      for k := 0 to n
        invariant Server(startReplica, k, down) == Server(startReplica, 0, down)
        invariant buf[..] == old(buf[..])
      {
        var idx := (startReplica + k) % n;
        seg := client.RangeRead(replicas[idx], offset, buf, lo, hi, down);
        if seg.Seg? {
          return;
        }
      }
      return SegFailed;
    }

    /** What the replicas hold that serve the segments, segment by segment. */
    ghost function Sources(down: set<Addr>): (src: seq<Bytes>)
      reads client.nodes.Values
      ensures |src| == |replicas|
    {
      seq(|replicas|, i reads client.nodes.Values requires 0 <= i < |replicas| =>
        if Server(i, 0, down).Some? then client.Holds(Server(i, 0, down).value) else [])
    }

    /** Segment i as it must come out when its replica holds c. */
    ghost predicate SegDone(c: Bytes, offset: nat, total: nat, i: nat, r: SegResult)
      requires i < |replicas| <= total
    {
      var n, seg := |replicas|, total / |replicas|;
      SegRange(i, n, total);
      r == SegOutcome(c, offset + SegLo(i, seg), SegHi(i, n, seg, total) - SegLo(i, seg))
    }

    /** The buffer with the segments in todo still as before and the others filled from their sources. */
    ghost predicate PartFilled(src: seq<Bytes>, offset: nat, before: Bytes, now: Bytes, todo: set<nat>)
      requires 0 < |replicas| <= |before| == |now| && |src| == |replicas|
    {
      var seg := |before| / |replicas|;
      DivBounds(|before|, |replicas|, 1);
      forall j {:trigger now[j]} | 0 <= j < |before| ::
        now[j] == if SegOf(j, |replicas|, seg) in todo then before[j]
                  else ByteRead(src[SegOf(j, |replicas|, seg)], offset, before, 0, j)
    }

    /** One segment finished: the buffer stays filled outside the segments still to do. */
    lemma SegmentFills(src: seq<Bytes>, offset: nat, before: Bytes, mid: Bytes, now: Bytes, todo: set<nat>, i: nat)
      requires 0 < |replicas| <= |before| == |mid| == |now| && |src| == |replicas| && i in todo && i < |replicas|
      requires PartFilled(src, offset, before, mid, todo)
      requires var n, seg := |replicas|, |before| / |replicas|;
               var lo, hi := SegLo(i, seg), SegHi(i, n, seg, |before|);
               && lo < hi <= |before|
               && Filled(src[i], offset + lo, mid, now, lo, hi)
               && forall j | 0 <= j < |before| && !(lo <= j < hi) :: now[j] == mid[j]
      ensures PartFilled(src, offset, before, now, todo - {i})
    {
      var n, seg := |replicas|, |before| / |replicas|;
      DivBounds(|before|, n, 1);
      forall j | 0 <= j < |before|
        ensures now[j] == if SegOf(j, n, seg) in todo - {i} then before[j]
                          else ByteRead(src[SegOf(j, n, seg)], offset, before, 0, j)
      {
        SegmentsPartition(i, j, n, |before|);
        assert mid[j] == if SegOf(j, n, seg) in todo then before[j]
                         else ByteRead(src[SegOf(j, n, seg)], offset, before, 0, j);
      }
    }

    /** The state of the parallel read with the segments in todo still running. */
    ghost predicate Underway(src: seq<Bytes>, offset: nat, before: Bytes, now: Bytes, results: seq<SegResult>,
                             todo: set<nat>, down: set<Addr>)
    {
      && 0 < |replicas| <= |before| == |now| && |results| == |replicas| == |src|
      && (forall i | i in todo :: i < |replicas|)
      && (forall i: nat | i < |replicas| && i !in todo :: results[i].SegFailed? <==> NoneReachable(down))
      && (NoneReachable(down) ==> now == before)
      && (!NoneReachable(down) ==>
            && PartFilled(src, offset, before, now, todo)
            && forall i: nat | i < |replicas| && i !in todo :: SegDone(src[i], offset, |before|, i, results[i]))
    }

    lemma UnderwayNext(src: seq<Bytes>, offset: nat, before: Bytes, mid: Bytes, now: Bytes, results: seq<SegResult>,
                       todo: set<nat>, i: nat, r: SegResult, down: set<Addr>)
      requires Underway(src, offset, before, mid, results, todo, down) && i in todo && |now| == |mid|
      requires r.SegFailed? <==> NoneReachable(down)
      requires NoneReachable(down) ==> now == mid
      requires !NoneReachable(down) ==>
                 SegDone(src[i], offset, |before|, i, r) && PartFilled(src, offset, before, now, todo - {i})
      ensures Underway(src, offset, before, now, results[i := r], todo - {i}, down)
    {
    }

    /** A segment read from lo to hi has finished with r. */
    lemma SegmentEnds(src: seq<Bytes>, offset: nat, before: Bytes, mid: Bytes, now: Bytes, results: seq<SegResult>,
                      todo: set<nat>, i: nat, lo: nat, hi: nat, r: SegResult, down: set<Addr>)
      requires Underway(src, offset, before, mid, results, todo, down) && i in todo && |now| == |mid|
      requires lo == SegLo(i, |before| / |replicas|) < hi <= |mid|
      requires hi == SegHi(i, |replicas|, |before| / |replicas|, |before|)
      requires NoneReachable(down) ==> r == SegFailed && now == mid
      requires !NoneReachable(down) ==>
                 r == SegOutcome(src[i], offset + lo, hi - lo) && Filled(src[i], offset + lo, mid, now, lo, hi)
      requires forall j | 0 <= j < |before| && !(lo <= j < hi) :: now[j] == mid[j]
      ensures Underway(src, offset, before, now, results[i := r], todo - {i}, down)
    {
      if !NoneReachable(down) {
        SegmentFills(src, offset, before, mid, now, todo, i);
      }
      UnderwayNext(src, offset, before, mid, now, results, todo, i, r, down);
    }

    method SegmentBounds(i: nat, total: nat) returns (lo: nat, hi: nat)
      requires i < |replicas| <= total
      ensures lo == SegLo(i, total / |replicas|) < hi == SegHi(i, |replicas|, total / |replicas|, total) <= total
    {
      var n := |replicas|;
      SegRange(i, n, total);
      lo, hi := SegLo(i, total / n), SegHi(i, n, total / n, total);
    }

    /** Starts one segment read and records its result, whenever it happens to finish. */
    method RunSegment(buf: array<byte>, offset: nat, results: array<SegResult>, i: nat,
                      ghost before: Bytes, ghost todo: set<nat>, down: set<Addr>)
      requires Underway(Sources(down), offset, before, buf[..], results[..], todo, down) && i in todo
      modifies buf, results
      ensures Underway(Sources(down), offset, before, buf[..], results[..], todo - {i}, down)
    {
      ghost var src, mid, was := Sources(down), buf[..], results[..];
      var lo, hi := SegmentBounds(i, buf.Length);
      ServerExists(i, down);
      var r := ReadSegmentWithFailover(offset + lo, buf, lo, hi, i, down);
      ghost var now := buf[..];
      SegmentEnds(src, offset, before, mid, now, was, todo, i, lo, hi, r, down);
      results[i] := r;
      assert results[..] == was[i := r] && buf[..] == now && Sources(down) == src;
    }

    /** Where the segments begin and end. */
    ghost function Ends(total: nat): (ends: seq<nat>)
      requires 0 < |replicas| <= total
      ensures |ends| == |replicas| + 1 && Ascending(ends) && ends[0] == 0 && ends[|replicas|] == total
    {
      var n, seg := |replicas|, total / |replicas|;
      var ends := seq(n + 1, i requires 0 <= i <= n => if i < n then SegLo(i, seg) else total);
      EndsAscend(total, ends);
      ends
    }

    lemma EndsAscend(total: nat, ends: seq<nat>)
      requires 0 < |replicas| <= total && |ends| == |replicas| + 1
      requires forall i | 0 <= i <= |replicas| ::
                 ends[i] == if i < |replicas| then SegLo(i, total / |replicas|) else total
      ensures Ascending(ends) && ends[0] == 0
    {
      forall i | 0 <= i < |replicas|
        ensures ends[i] < ends[i + 1]
      {
        SegRange(i, |replicas|, total);
      }
    }

    lemma SegDoneIs(c: Bytes, offset: nat, total: nat, i: nat, r: SegResult)
      requires i < |replicas| <= total
      ensures SegDone(c, offset, total, i, r) <==>
              r == SegOutcome(c, offset + Ends(total)[i], Ends(total)[i + 1] - Ends(total)[i])
    {
      SegRange(i, |replicas|, total);
    }

    /** The loop over the results: the first failed segment fails the read. */
    method Summarize(results: array<SegResult>, total: nat, ghost ends: seq<nat>, ghost offset: nat,
                     ghost src: seq<Bytes>)
      returns (res: ReadResult)
      requires results.Length == |src| && |ends| == |src| + 1 && Ascending(ends) && ends[0] == 0 && ends[|src|] == total
      ensures (exists i | 0 <= i < results.Length :: results[i].SegFailed?) <==> res == AllReplicasFailed
      ensures (forall i: nat | i < |src| :: SegIs(src, offset, ends, i, results[i])) ==>
                var sum := SumTo(src, offset, ends, |src|); res == Read(sum, sum < total)
      ensures res.Read? || res == AllReplicasFailed
    {
      var totalRead, anyEof := 0, false;
      ghost var done := forall i: nat | i < |src| :: SegIs(src, offset, ends, i, results[i]);
      for i := 0 to results.Length
        invariant 0 <= totalRead
        invariant forall k | 0 <= k < i :: results[k].Seg?
        invariant done ==> totalRead == SumTo(src, offset, ends, i) <= ends[i]
        invariant done ==> (anyEof <==> totalRead < ends[i])
      {
        if results[i].SegFailed? {
          return AllReplicasFailed;
        }
        assert done ==> SegIs(src, offset, ends, i, results[i]);
        totalRead := totalRead + results[i].n;
        anyEof := anyEof || results[i].eof;
      }
      return Read(totalRead, anyEof || totalRead < total);
    }

    /** All replicas hold c, so all sources are c. */
    lemma SourcesAgree(down: set<Addr>, c: Bytes)
      requires AllHold(c) && !NoneReachable(down)
      ensures forall i | 0 <= i < |replicas| :: Sources(down)[i] == c
    {
      forall i | 0 <= i < |replicas|
        ensures Sources(down)[i] == c
      {
        ServerExists(i, down);
      }
    }

    /**
     All segments at once, finishing in any order. Each comes from the first reachable replica in
     its own rotation; on agreeing replicas that makes one read.
     */
    method ReadAtParallel(buf: array<byte>, offset: nat, down: set<Addr>, ghost c: Bytes) returns (res: ReadResult)
      requires buf.Length > 0 && replicas != []
      modifies buf
      ensures NoneReachable(down) ==> res == AllReplicasFailed && buf[..] == old(buf[..])
      ensures !NoneReachable(down) && AllHold(c) ==>
                res == ReadOutcome(c, offset, buf.Length) && Filled(c, offset, old(buf[..]), buf[..], 0, buf.Length)
      ensures !NoneReachable(down) && buf.Length >= |replicas| ==>
                && PartFilled(Sources(down), offset, old(buf[..]), buf[..], {})
                && var sum := SumTo(Sources(down), offset, Ends(buf.Length), |replicas|);
                res == Read(sum, sum < buf.Length)
      ensures !NoneReachable(down) ==> res.Read?
    {
      var n, total := |replicas|, buf.Length;
      DivBounds(total, n, 1);
      if total / n == 0 {
        ServerExists(0, down);
        res := ReadAtSerial(buf, offset, down);
        return;
      }
      res := ReadSegments(buf, offset, down);
      if !NoneReachable(down) && AllHold(c) {
        SourcesAgree(down, c);
        SumAgrees(Sources(down), offset, Ends(total), n, c);
      }
    }

    method ReadSegments(buf: array<byte>, offset: nat, down: set<Addr>) returns (res: ReadResult)
      requires 0 < |replicas| <= buf.Length
      modifies buf
      ensures NoneReachable(down) ==> res == AllReplicasFailed && buf[..] == old(buf[..])
      ensures !NoneReachable(down) ==>
                && PartFilled(Sources(down), offset, old(buf[..]), buf[..], {})
                && var sum := SumTo(Sources(down), offset, Ends(buf.Length), |replicas|);
                res == Read(sum, sum < buf.Length)
    {
      var n, total := |replicas|, buf.Length;
      ghost var before := buf[..];
      var results := new SegResult[n];
      var todo := Below(n);
      while todo != {}
        invariant Underway(Sources(down), offset, before, buf[..], results[..], todo, down)
      {
        var i :| i in todo;
        RunSegment(buf, offset, results, i, before, todo, down);
        todo := todo - {i};
      }
      forall i: nat | i < n
        ensures results[i] == results[..][i]
        ensures !NoneReachable(down) ==> SegIs(Sources(down), offset, Ends(total), i, results[i])
      {
        SegDoneIs(Sources(down)[i], offset, total, i, results[i]);
      }
      res := Summarize(results, total, Ends(total), offset, Sources(down));
      assert results[0] == results[..][0];
    }

    /** ReadAt chooses between the two, and the choice does not show. */
    method ReadAt(buf: array<byte>, offset: int, down: set<Addr>, ghost c: Bytes) returns (res: ReadResult)
      modifies buf
      ensures offset < 0 ==> res == NegativeOffset
      ensures offset >= 0 && replicas == [] ==> res == NoReplicas
      ensures offset >= 0 && replicas != [] && buf.Length == 0 ==> res == Read(0, false)
      ensures offset >= 0 && replicas != [] && buf.Length > 0 ==> (res == AllReplicasFailed <==> NoneReachable(down))
      ensures !res.Read? ==> buf[..] == old(buf[..])
      ensures offset >= 0 && buf.Length > 0 && AllHold(c) && res.Read? ==>
                res == ReadOutcome(c, offset, buf.Length) && Filled(c, offset, old(buf[..]), buf[..], 0, buf.Length)
    {
      if offset < 0 {
        return NegativeOffset;
      }
      if |replicas| == 0 {
        return NoReplicas;
      }
      if buf.Length == 0 {
        return Read(0, false);
      }
      if |replicas| == 1 || buf.Length < MIN_PARALLEL_READ {
        ServerExists(0, down);
        res := ReadAtSerial(buf, offset, down);
      } else {
        res := ReadAtParallel(buf, offset, down, c);
      }
    }

    // ----- writing -----

    ghost predicate Valid() {
      client.Valid()
    }

    /** The metadata knows the file at the handle's path, with the handle's replicas, open for updates. */
    ghost predicate Linked()
      reads client
    {
      && client.CanResize(path) && client.meta.tree[Components(path)].replicas == replicas
      && Distinct(Addrs(replicas))
    }

    function State(): Session
      requires client.Recorded(path).Some?
      reads this, client, client.nodes.Values
    {
      Session(CopiesOn(client.Disks(), replicas), size, client.meta.tree[Components(path)].size)
    }

    /** In a session all replicas agree, so what ReadAt promises about agreeing replicas applies. */
    lemma SyncedAgree(c: Bytes)
      requires Linked() && InSync(State(), c)
      ensures AllHold(c)
    {
      forall r | r in replicas
        ensures client.Holds(r) == c
      {
        var i :| 0 <= i < |replicas| && replicas[i] == r;
        assert State().copies[i] == c;
      }
    }

    /**
     Writes every replica, then the cached size, then the recorded one. Reported as done only if
     every replica took the write; a lost metadata update is not reported.
     */
    method WriteAt(data: Bytes, offset: int, down: set<Addr>, commits: bool, now: Time) returns (ok: bool)
      requires Valid()
      modifies this`size, client`meta, client.nodes.Values
      ensures ok <==>
              offset >= 0 && replicas != [] && forall r | r in replicas :: r.addr in client.nodes && r.addr !in down
      ensures client.Disks() ==
              if offset < 0 then old(client.Disks())
              else Sent(old(client.Disks()), Write(offset, data), replicas, client.Writable(replicas, down))
      ensures size == if ok && offset + |data| > old(size) then offset + |data| else old(size)
      ensures client.meta ==
              if ok && offset + |data| > old(size) && commits && old(client.CanResize(path))
              then Resized(old(client.meta), path, offset + |data|, now) else old(client.meta)
    {
      if offset < 0 || |replicas| == 0 {
        return false;
      }
      var written := client.WriteAll(replicas, data, offset, down);
      if !written {
        return false;
      }
      var newEnd: nat := offset + |data|;
      var needUpdate := newEnd > size;
      if needUpdate {
        size := newEnd;
        var recorded := client.UpdateSize(path, newEnd, commits, now);
      }
      return true;
    }

    /** Truncates all recorded replicas, then the recorded size, then the cached one. */
    method Truncate(n: int, down: set<Addr>, commits: bool, now: Time) returns (ok: bool)
      requires Valid()
      modifies this`size, client`meta, client.nodes.Values
      ensures size == if ok then n else old(size)
      ensures ok ==> old(client.CanResize(path)) && client.meta == Resized(old(client.meta), path, n, now)
      ensures !ok ==> client.meta == old(client.meta)
      ensures n < 0 || old(client.Recorded(path)).None? ==> !ok && client.Disks() == old(client.Disks())
      ensures n >= 0 && old(client.Recorded(path)).Some? ==>
                var rs := old(client.Recorded(path)).value;
                var can := old(client.Truncatable(rs, n, down));
                && (ok <==> AllIn(rs, can) && commits && old(client.CanResize(path)))
                && client.Disks() == Sent(old(client.Disks()), Resize(n), rs, can)
    {
      if n < 0 {
        return false;
      }
      var truncated := client.TruncateAllReplicas(path, n, down);
      if !truncated {
        return false;
      }
      ok := client.UpdateSize(path, n, commits, now);
      if ok {
        size := n;
      }
    }

    /** What a committed operation on all replicas makes of a linked handle is a session step. */
    lemma AllSentIsStep(s: Session, d: Disks, op: Op, can: set<Replica>)
      requires Distinct(Addrs(replicas)) && AllIn(replicas, can) && forall r | r in can :: r.addr in d
      requires s.copies == CopiesOn(d, replicas)
      ensures CopiesOn(Sent(d, op, replicas, can), replicas) == SessionStep(s, op).copies
    {
      SentToAll(d, op, replicas, can);
    }

    method RunWrite(offset: nat, data: Bytes, down: set<Addr>, now: Time) returns (ok: bool)
      requires Valid() && Linked()
      modifies this`size, client`meta, client.nodes.Values
      ensures Linked()
      ensures ok ==> State() == SessionStep(old(State()), Write(offset, data))
    {
      ghost var s, d := State(), client.Disks();
      ok := WriteAt(data, offset, down, true, now);
      if ok {
        AllSentIsStep(s, d, Write(offset, data), client.Writable(replicas, down));
      }
    }

    method RunResize(n: nat, down: set<Addr>, now: Time) returns (ok: bool)
      requires Valid() && Linked()
      modifies this`size, client`meta, client.nodes.Values
      ensures Linked()
      ensures ok ==> State() == SessionStep(old(State()), Resize(n))
    {
      ghost var s, d, can := State(), client.Disks(), client.Truncatable(replicas, n, down);
      ok := Truncate(n, down, true, now);
      if ok {
        AllSentIsStep(s, d, Resize(n), can);
      }
    }

    /** One operation whose metadata update commits: a session step if it succeeds. */
    method RunOp(op: Op, down: set<Addr>, now: Time) returns (ok: bool)
      requires Valid() && Linked()
      modifies this`size, client`meta, client.nodes.Values
      ensures Linked()
      ensures ok ==> State() == SessionStep(old(State()), op)
    {
      match op
      case Write(offset, data) => ok := RunWrite(offset, data, down, now);
      case Resize(n) => ok := RunResize(n, down, now);
    }

    /**
     Operations one after the other, up to the first that fails, then a read. If all succeed, the
     file is what the operations make of it, and the read returns a slice of that.
     */
    method RunSession(ops: seq<Op>, down: nat -> set<Addr>, now: nat -> Time, buf: array<byte>, offset: nat,
                      ghost c: Bytes)
      returns (ok: bool, res: ReadResult)
      requires Valid() && Linked() && InSync(State(), c)
      requires forall i | 0 <= i < |ops| && ops[i].Write? :: ops[i].data != []
      modifies this`size, client`meta, client.nodes.Values, buf
      ensures Linked()
      ensures ok ==> State() == SessionAfter(old(State()), ops) && InSync(State(), BytesAfter(c, ops))
      ensures ok && res.Read? && buf.Length > 0 ==>
                && res == ReadOutcome(BytesAfter(c, ops), offset, buf.Length)
                && Filled(BytesAfter(c, ops), offset, old(buf[..]), buf[..], 0, buf.Length)
    {
      ghost var start := State();
      for i := 0 to |ops|
        invariant Linked() && State() == SessionAfter(start, ops[..i])
        invariant buf[..] == old(buf[..])
      {
        ok := RunOp(ops[i], down(i), now(i));
        if !ok {
          return false, NoReplicas;
        }
        assert ops[..i + 1][..i] == ops[..i];
      }
      assert ops[..|ops|] == ops;
      SessionStaysInSync(start, c, ops);
      SyncedAgree(BytesAfter(c, ops));
      res := ReadAt(buf, offset, down(|ops|), BytesAfter(c, ops));
      ok := true;
    }
  }

  /** A read returns the bytes of c from offset on and leaves the rest of the buffer alone. */
  lemma ReadMeans(c: Bytes, offset: nat, before: Bytes, after: Bytes)
    requires 0 < |before| == |after| && Filled(c, offset, before, after, 0, |before|)
    ensures var n := ReadOutcome(c, offset, |before|).n;
            && after == Slice(c, offset, |before|) + before[n..]
            && (ReadOutcome(c, offset, |before|).eof <==> offset + |before| > |c|)
  {
    var n := |Slice(c, offset, |before|)|;
    forall j | 0 <= j < |before|
      ensures after[j] == (Slice(c, offset, |before|) + before[n..])[j]
    {
      assert after[j] == ByteRead(c, offset, before, 0, j);
    }
  }
}
