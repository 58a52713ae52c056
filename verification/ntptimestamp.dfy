/** The process-wide NTP time source: one client per configured server, a
    completion flag per client, and the network offset obtained by a trimmed
    mean over the clients that finished. The map from client to flag is a
    sequence of slots; a client's identity is its index. */
module NtpTimeStamp {
  import opened Common
  import NtpClient

  /** One entry of the client map: the client and whether it reported finished. */
  datatype Slot = Slot(client: NtpClient.Client, finished: bool)

  /** The coordinator's state: the configured servers, the clients, whether a
      synchronisation result is available, and that result in milliseconds. */
  datatype TimeStamp = TimeStamp(servers: seq<string>, slots: seq<Slot>, syncDone: bool, offsetTS: int)

  /** The servers `init` configures. */
  const DEFAULT_SERVERS: seq<string> := ["time.cea.fr", "time.intra.cea.fr"]

  /** The constructor followed by `init` with the given server list: one
      fresh client on the standard port per server, every flag false, no
      result. */
  function Init(servers: seq<string>): (t: TimeStamp)
    ensures |t.slots| == |servers| && t.servers == servers
    ensures forall i :: 0 <= i < |t.slots| ==>
      t.slots[i] == Slot(NtpClient.NewClient(servers[i], NtpClient.NTP_PORT), false)
    ensures !t.syncDone && t.offsetTS == 0
    ensures Inv(t)
  {
    var slots := seq(|servers|, i requires 0 <= i < |servers| =>
      Slot(NtpClient.NewClient(servers[i], NtpClient.NTP_PORT), false));
    TimeStamp(servers, slots, false, 0)
  }

  /** `init` as the source runs it: one client for each of the two
      configured servers, in order. */
  function DefaultInit(): (t: TimeStamp)
    ensures |t.slots| == 2
    ensures t.slots[0].client.host == "time.cea.fr" && t.slots[1].client.host == "time.intra.cea.fr"
    ensures forall i :: 0 <= i < 2 ==> t.slots[i].client.port == NtpClient.NTP_PORT && !t.slots[i].finished
    ensures !t.syncDone && Inv(t)
  {
    Init(DEFAULT_SERVERS)
  }

  /** `currentMSTimestamp` with the wall clock passed in: the clock corrected
      by the offset once a result is available, the clock itself before. */
  function CurrentMSTimestamp(t: TimeStamp, now: int): (ms: int)
    ensures t.syncDone ==> ms == now + t.offsetTS
    ensures !t.syncDone ==> ms == now
  {
    now + if t.syncDone then t.offsetTS else 0
  }

  /** `syncTimestamp`: clear every flag and start every client once. */
  function SyncTimestamp(t: TimeStamp): (r: TimeStamp)
    ensures |r.slots| == |t.slots|
    ensures forall i :: 0 <= i < |r.slots| ==>
      r.slots[i] == Slot(NtpClient.NtpStart(t.slots[i].client), false)
    ensures r.servers == t.servers && r.syncDone == t.syncDone && r.offsetTS == t.offsetTS
  {
    var slots := seq(|t.slots|, i requires 0 <= i < |t.slots| =>
      Slot(NtpClient.NtpStart(t.slots[i].client), false));
    t.(slots := slots)
  }

  /** `slotLocaltimeChanged`: drop the result, then resynchronise. */
  function LocaltimeChanged(t: TimeStamp): (r: TimeStamp)
    ensures !r.syncDone && r.offsetTS == 0
    ensures |r.slots| == |t.slots|
    ensures forall i :: 0 <= i < |r.slots| ==>
      !r.slots[i].finished && r.slots[i].client == NtpClient.NtpStart(t.slots[i].client)
  {
    SyncTimestamp(t.(syncDone := false, offsetTS := 0))
  }

  // ---------------------------------------------------------------------
  // Aggregation

  /** The offsets the aggregation counts: those of clients that are both
      flagged finished and done, in map order. */
  function ValidOffsets(slots: seq<Slot>): (v: seq<int>)
    ensures |v| <= |slots|
    ensures forall x :: x in v ==>
      exists j :: 0 <= j < |slots| && slots[j].finished && slots[j].client.done && slots[j].client.offset == x
    decreases |slots|
  {
    if |slots| == 0 then []
    else
      var last := slots[|slots| - 1];
      ValidOffsets(slots[..|slots| - 1]) + if last.finished && last.client.done then [last.client.offset] else []
  }

  /** The four accumulators of `slotNTPFinished`'s loop. */
  datatype Acc = Acc(total: int, maxOffset: int, minOffset: int, count: nat)

  /** The accumulators before the first value: note the maximum starts at 0. */
  const ACC_START: Acc := Acc(0, 0, INT64_MAX, 0)

  function Max(a: int, b: int): int { if a < b then b else a }
  function Min(a: int, b: int): int { if a < b then a else b }

  /** One loop iteration: add the offset, fold it into the maximum and the
      minimum, count it. */
  function AccumulateOne(a: Acc, os: int): (r: Acc)
    ensures r.total == a.total + os && r.count == a.count + 1
    ensures r.maxOffset >= a.maxOffset && r.maxOffset >= os && (r.maxOffset == a.maxOffset || r.maxOffset == os)
    ensures r.minOffset <= a.minOffset && r.minOffset <= os && (r.minOffset == a.minOffset || r.minOffset == os)
  {
    Acc(a.total + os, Max(a.maxOffset, os), Min(a.minOffset, os), a.count + 1)
  }

  /** The loop over the valid offsets. */
  function Accumulate(values: seq<int>): (a: Acc)
    ensures a.count == |values|
    ensures 0 <= a.maxOffset && a.minOffset <= INT64_MAX
    ensures forall k :: 0 <= k < |values| ==> a.minOffset <= values[k] <= a.maxOffset
    decreases |values|
  {
    if |values| == 0 then ACC_START
    else AccumulateOne(Accumulate(values[..|values| - 1]), values[|values| - 1])
  }

  /** The averaging step: drop one maximum and one minimum when more than two
      values were counted, then divide by the remaining count, with an
      arithmetic shift by 3 when exactly 8 remain and C's truncating division
      otherwise, and 0 when nothing was counted. */
  function Average(a: Acc): (offset: int)
    ensures a.count == 0 ==> offset == 0
    ensures a.count == 10 ==>
      8 * offset <= a.total - (a.maxOffset + a.minOffset) < 8 * offset + 8
    ensures 0 < a.count != 10 ==>
      var n := if a.count > 2 then a.count - 2 else a.count;
      var t := if a.count > 2 then a.total - (a.maxOffset + a.minOffset) else a.total;
      && (t >= 0 ==> 0 <= t - n * offset < n)
      && (t < 0 ==> -n < t - n * offset <= 0)
  {
    var total := if a.count > 2 then a.total - (a.maxOffset + a.minOffset) else a.total;
    var count := if a.count > 2 then a.count - 2 else a.count;
    if count > 0 then
      if count == 8 then total / 8 else TruncDiv(total, count)
    else 0
  }

  /** The offset `slotNTPFinished` stores. */
  function Aggregate(slots: seq<Slot>): (offset: int)
    ensures ValidOffsets(slots) == [] ==> offset == 0
    ensures |ValidOffsets(slots)| == 1 ==> offset == ValidOffsets(slots)[0]
  {
    var v := ValidOffsets(slots);
    if |v| == 1 then
      OneValue(v);
      Average(Accumulate(v))
    else
      Average(Accumulate(v))
  }

  /** A single valid offset is adopted as it is. */
  lemma OneValue(v: seq<int>)
    requires |v| == 1
    ensures Average(Accumulate(v)) == v[0]
  {
    assert v[..0] == [];
  }

  /** `slotNTPFinished`, with the signal's sender as an optional index. A
      missing sender or one outside the map changes nothing; otherwise the
      sender's flag is set, a result is declared available whatever the other
      clients are doing, and the offset is recomputed. */
  function NtpFinished(t: TimeStamp, sender: Option<nat>): (r: TimeStamp)
    ensures (sender.None? || sender.value >= |t.slots|) ==> r == t
    ensures sender.Some? && sender.value < |t.slots| ==>
      && r.syncDone
      && |r.slots| == |t.slots| && r.servers == t.servers
      && r.slots[sender.value] == t.slots[sender.value].(finished := true)
      && (forall j :: 0 <= j < |t.slots| && j != sender.value ==> r.slots[j] == t.slots[j])
      && r.offsetTS == Aggregate(r.slots)
  {
    if sender.None? || sender.value >= |t.slots| then t
    else
      var i := sender.value;
      var slots := t.slots[i := t.slots[i].(finished := true)];
      t.(slots := slots, syncDone := true, offsetTS := Aggregate(slots))
  }

  /** The coordinator passes an event to client `i`; when the client emits
      finished, `slotNTPFinished` runs with that client as sender. */
  function Deliver(t: TimeStamp, i: nat, e: NtpClient.Event): (r: TimeStamp)
    requires i < |t.slots| && NtpClient.Deliverable(t.slots[i].client, e)
    ensures |r.slots| == |t.slots| && r.servers == t.servers
    ensures forall j :: 0 <= j < |t.slots| && j != i ==> r.slots[j] == t.slots[j]
    ensures r.slots[i].client == NtpClient.Step(t.slots[i].client, e).next
    ensures NtpClient.Step(t.slots[i].client, e).finished ==>
      r.syncDone && r.slots[i].finished && r.offsetTS == Aggregate(r.slots)
    ensures !NtpClient.Step(t.slots[i].client, e).finished ==>
      r.syncDone == t.syncDone && r.offsetTS == t.offsetTS && r.slots[i].finished == t.slots[i].finished
  {
    var reaction := NtpClient.Step(t.slots[i].client, e);
    var stepped := t.(slots := t.slots[i := t.slots[i].(client := reaction.next)]);
    if reaction.finished then NtpFinished(stepped, Some(i)) else stepped
  }

  // ---------------------------------------------------------------------
  // Reference definitions

  function Sum(v: seq<int>): int
    decreases |v|
  {
    if |v| == 0 then 0 else Sum(v[..|v| - 1]) + v[|v| - 1]
  }

  function SeqMax(v: seq<int>): (m: int)
    requires |v| > 0
    ensures forall k :: 0 <= k < |v| ==> v[k] <= m
    decreases |v|
  {
    if |v| == 1 then v[0] else Max(SeqMax(v[..|v| - 1]), v[|v| - 1])
  }

  function SeqMin(v: seq<int>): (m: int)
    requires |v| > 0
    ensures forall k :: 0 <= k < |v| ==> m <= v[k]
    decreases |v|
  {
    if |v| == 1 then v[0] else Min(SeqMin(v[..|v| - 1]), v[|v| - 1])
  }

  /** The maximum and the minimum are values of the sequence. */
  lemma {:induction false} ExtremesAttained(v: seq<int>)
    requires |v| > 0
    ensures SeqMax(v) in v && SeqMin(v) in v
    decreases |v|
  {
    if |v| > 1 {
      var init := v[..|v| - 1];
      ExtremesAttained(init);
      assert forall x :: x in init ==> x in v;
    }
  }

  /** Every value fits the 64-bit offsets the loop reads. */
  predicate FitsInt64(v: seq<int>)
  {
    forall k :: 0 <= k < |v| ==> v[k] <= INT64_MAX
  }

  /** Every value is negative. */
  predicate AllNegative(v: seq<int>)
  {
    forall k :: 0 <= k < |v| ==> v[k] < 0
  }

  /** `x >> 3` and C's `x / 8` agree on `x`: it is non-negative or a multiple
      of 8 (see ShiftMatchesTruncation). */
  predicate ShiftIsExact(x: int)
  {
    x % 8 == 0 || x >= 0
  }

  /** The intended aggregate: the mean of the values, truncated toward zero,
      after removing one largest and one smallest value when there are more
      than two; 0 for no values. */
  function TrimmedMean(v: seq<int>): int
  {
    if |v| > 2 then TruncDiv(Sum(v) - SeqMax(v) - SeqMin(v), |v| - 2)
    else if |v| > 0 then TruncDiv(Sum(v), |v|)
    else 0
  }

  /** What the loop computes: the sum, the count, the minimum (capped by the
      64-bit maximum it starts from) and the maximum of the values and 0. */
  lemma {:induction false} AccumulateSummary(v: seq<int>)
    ensures Accumulate(v).total == Sum(v)
    ensures Accumulate(v).count == |v|
    ensures |v| == 0 ==> Accumulate(v).maxOffset == 0 && Accumulate(v).minOffset == INT64_MAX
    ensures |v| > 0 ==> Accumulate(v).maxOffset == Max(0, SeqMax(v))
    ensures |v| > 0 ==> Accumulate(v).minOffset == Min(INT64_MAX, SeqMin(v))
    decreases |v|
  {
    if |v| > 0 {
      AccumulateSummary(v[..|v| - 1]);
    }
  }

  /** Whenever neither quirk can show, the stored offset is the trimmed mean:
      with at most two values, or with a non-negative largest value, all
      values within 64 bits, and no shift applied to a negative sum that is
      not a multiple of 8. */
  lemma {:induction false} AverageIsTrimmedMean(v: seq<int>)
    requires FitsInt64(v)
    requires |v| > 2 ==> SeqMax(v) >= 0
    requires |v| == 10 ==> ShiftIsExact(Sum(v) - SeqMax(v) - SeqMin(v))
    ensures Average(Accumulate(v)) == TrimmedMean(v)
  {
    if |v| == 0 {
      assert Accumulate(v) == ACC_START;
    } else {
      InRangeSummary(v);
      MeanCases(Accumulate(v), Sum(v), SeqMax(v), SeqMin(v), |v|, TrimmedMean(v));
    }
  }

  /** The averaging step over the accumulators of a non-empty run, with the
      true maximum `hi` and minimum `lo`: the intended trimmed mean whenever
      neither quirk can show. */
  lemma MeanCases(a: Acc, total: int, hi: int, lo: int, n: int, mean: int)
    requires n > 0 && a == Acc(total, Max(0, hi), lo, n)
    requires n > 2 ==> hi >= 0
    requires n == 10 ==> ShiftIsExact(total - hi - lo)
    requires mean == if n > 2 then TruncDiv(total - hi - lo, n - 2) else TruncDiv(total, n)
    ensures Average(a) == mean
  {
    if n <= 2 {
      UntrimmedAverage(a, n);
    } else if n == 10 {
      ShiftedAverage(a, total - hi - lo);
      ShiftMatchesTruncation(total - hi - lo);
    } else {
      TrimmedAverage(a, total - hi - lo, n);
    }
  }

  /** With one or two values nothing is trimmed: the result is the total
      divided toward zero by the count. */
  lemma UntrimmedAverage(a: Acc, n: int)
    requires a.count == n && 0 < n <= 2
    ensures Average(a) == TruncDiv(a.total, n)
  {
  }

  /** The quirk of the maximum starting at 0: with more than two values all
      negative, 0 is removed in place of the largest value, so the result is
      the sum without its smallest value, divided by the count less two. */
  lemma {:induction false} MaxStartsAtZero(v: seq<int>)
    requires |v| > 2 && |v| != 10
    requires AllNegative(v)
    ensures Average(Accumulate(v)) == TruncDiv(Sum(v) - SeqMin(v), |v| - 2)
  {
    NegativeSummary(v);
    ZeroMaxAverage(Accumulate(v), Sum(v), SeqMin(v), |v|);
  }

  /** The averaging step over a summary whose maximum stayed at 0. */
  lemma ZeroMaxAverage(a: Acc, total: int, lo: int, n: int)
    requires n > 2 && n != 10 && a == Acc(total, 0, lo, n)
    ensures Average(a) == TruncDiv(total - lo, n - 2)
  {
    TrimmedAverage(a, total - lo, n);
  }

  /** Over negative values the loop keeps 0 as its maximum and the true
      minimum. */
  lemma {:induction false} NegativeSummary(v: seq<int>)
    requires |v| > 0
    requires AllNegative(v)
    ensures Accumulate(v) == Acc(Sum(v), 0, SeqMin(v), |v|)
  {
    AccumulateSummary(v);
    ExtremesAttained(v);
    var hi :| 0 <= hi < |v| && v[hi] == SeqMax(v);
  }

  /** Above two values, apart from the shift at ten, the loop's result is its
      trimmed total divided toward zero by the count less two. */
  lemma TrimmedAverage(a: Acc, trimmed: int, n: int)
    requires a.count == n && n > 2 && n != 10
    requires trimmed == a.total - (a.maxOffset + a.minOffset)
    ensures Average(a) == TruncDiv(trimmed, n - 2)
  {
  }

  /** The quirk of the shift: with exactly ten values, eight remain after
      trimming and the trimmed total is shifted right by 3, which is floor
      division by 8; the value removed as the maximum is the larger of 0 and
      the true maximum. */
  lemma {:induction false} TenValues(v: seq<int>)
    requires |v| == 10
    requires FitsInt64(v)
    ensures Average(Accumulate(v)) == (Sum(v) - Max(0, SeqMax(v)) - SeqMin(v)) / 8
  {
    InRangeSummary(v);
    ShiftedAverage(Accumulate(v), Sum(v) - Max(0, SeqMax(v)) - SeqMin(v));
  }

  /** Over values within 64 bits the loop ends with the sum, the larger of 0
      and the maximum, the true minimum and the count. */
  lemma {:induction false} InRangeSummary(v: seq<int>)
    requires |v| > 0
    requires FitsInt64(v)
    ensures Accumulate(v) == Acc(Sum(v), Max(0, SeqMax(v)), SeqMin(v), |v|)
  {
    AccumulateSummary(v);
    ExtremesAttained(v);
    var lo :| 0 <= lo < |v| && v[lo] == SeqMin(v);
  }

  /** Ten values leave eight after trimming, and the trimmed total is
      shifted right by 3. */
  lemma ShiftedAverage(a: Acc, trimmed: int)
    requires a.count == 10
    requires trimmed == a.total - (a.maxOffset + a.minOffset)
    ensures Average(a) == trimmed / 8
  {
  }

  /** `x >> 3` agrees with C's `x / 8` exactly when `x` is non-negative or a
      multiple of 8; otherwise it is one lower. */
  lemma ShiftMatchesTruncation(x: int)
    ensures x / 8 == TruncDiv(x, 8) <==> x >= 0 || x % 8 == 0
    ensures x < 0 && x % 8 != 0 ==> x / 8 == TruncDiv(x, 8) - 1
  {
  }

  /** The loop's accumulators over three values. */
  lemma AccumulateThree(x: int, y: int, z: int)
    ensures Accumulate([x, y, z]) == Acc(x + y + z, Max(Max(Max(0, x), y), z), Min(Min(Min(INT64_MAX, x), y), z), 3)
  {
    assert [x, y, z][..2] == [x, y] && [x, y][..1] == [x] && [x][..0] == [];
    assert Accumulate([x]) == AccumulateOne(ACC_START, x);
    assert Accumulate([x, y]) == AccumulateOne(Accumulate([x]), y);
  }

  /** Three values 10, 20, 30 give 20, the middle one. */
  lemma ThreeValuesExample()
    ensures Average(Accumulate([10, 20, 30])) == 20
  {
    AccumulateThree(10, 20, 30);
  }

  /** All-negative -10, -20, -30 give -30, where the trimmed mean is -20. */
  lemma AllNegativeExample()
    ensures Average(Accumulate([-10, -20, -30])) == -30
    ensures TrimmedMean([-10, -20, -30]) == -20
  {
    AccumulateThree(-10, -20, -30);
    var n := [-10, -20, -30];
    AccumulateSummary(n);
    assert SeqMax(n) == -10 by {
      assert n[0] <= SeqMax(n);
    }
    assert SeqMin(n) == -30 by {
      assert SeqMin(n) <= n[2];
    }
  }

  /** Two values 15, 25 give 20; a single value passes through; none gives 0. */
  lemma FewValuesExample()
    ensures Average(Accumulate([15, 25])) == 20
    ensures Average(Accumulate([-7])) == -7
    ensures Average(Accumulate([])) == 0
  {
    assert [15, 25][..1] == [15] && [15][..0] == [];
    assert [-7][..0] == [];
  }

  /** The sum of `n` copies of `c`. */
  lemma {:induction false} SumConstant(c: int, n: nat)
    ensures Sum(seq(n, _ => c)) == c * n
  {
    if n > 0 {
      assert seq(n, _ => c)[..n - 1] == seq(n - 1, _ => c);
      SumConstant(c, n - 1);
    }
  }

  /** With ten valid values whose trimmed sum is -7, the shift gives -1 where
      the truncating division the other counts use gives 0. */
  lemma ShiftQuirkExample()
    ensures var v := [-1, -1, -1, -1, -1, -1, -1, -1, 0, 1];
      Average(Accumulate(v)) == -1 && TrimmedMean(v) == 0
  {
    var v := [-1, -1, -1, -1, -1, -1, -1, -1, 0, 1];
    AccumulateSummary(v);
    ExtremesAttained(v);
    assert Sum(v) == -7 by {
      assert v[..9][..8] == seq(8, _ => -1);
      SumConstant(-1, 8);
    }
    assert SeqMax(v) == 1 by {
      assert v[9] <= SeqMax(v);
    }
    assert SeqMin(v) == -1 by {
      assert SeqMin(v) <= v[0];
    }
  }

  // ---------------------------------------------------------------------
  // Coordinator invariant

  /** No result means offset 0, a result means some client reported
      finished, and every client keeps its own invariant. */
  ghost predicate Inv(t: TimeStamp)
  {
    && (!t.syncDone ==> t.offsetTS == 0)
    && (t.syncDone ==> exists i :: 0 <= i < |t.slots| && t.slots[i].finished)
    && (forall i :: 0 <= i < |t.slots| ==> NtpClient.Inv(t.slots[i].client))
  }

  /** The first finished notification after a reset makes the sender's offset
      one of the values averaged. */
  lemma FinishedSenderCounts(t: TimeStamp, i: nat, e: NtpClient.Event)
    requires i < |t.slots| && NtpClient.Deliverable(t.slots[i].client, e)
    requires NtpClient.Step(t.slots[i].client, e).finished
    ensures var r := Deliver(t, i, e);
      r.syncDone && r.slots[i].finished && r.slots[i].client.done
      && r.slots[i].client.offset in ValidOffsets(r.slots)
  {
    var r := Deliver(t, i, e);
    ValidMembers(r.slots, i);
  }

  /** A slot flagged finished whose client is done contributes its offset. */
  lemma {:induction false} ValidMembers(slots: seq<Slot>, i: nat)
    requires i < |slots| && slots[i].finished && slots[i].client.done
    ensures slots[i].client.offset in ValidOffsets(slots)
    decreases |slots|
  {
    if i < |slots| - 1 {
      ValidMembers(slots[..|slots| - 1], i);
    }
  }

  /** The indices of the slots that contribute the value x: flagged
      finished, done, and holding offset x. */
  function Contributors(slots: seq<Slot>, x: int): set<int>
  {
    set j | 0 <= j < |slots| && slots[j].finished && slots[j].client.done && slots[j].client.offset == x
  }

  /** Each value occurs among the averaged offsets exactly as often as there
      are flagged, done clients holding it: one value per such client. */
  lemma {:induction false} ValidOffsetsCount(slots: seq<Slot>, x: int)
    ensures multiset(ValidOffsets(slots))[x] == |Contributors(slots, x)|
    decreases |slots|
  {
    if |slots| == 0 {
      assert Contributors(slots, x) == {};
    } else {
      var n := |slots| - 1;
      var last := slots[n];
      ValidOffsetsCount(slots[..n], x);
      LastContributor(slots, x);
      assert multiset(ValidOffsets(slots))[x]
          == multiset(ValidOffsets(slots[..n]))[x] + if last.finished && last.client.done && last.client.offset == x then 1 else 0
      by {
        var tail := if last.finished && last.client.done then [last.client.offset] else [];
        assert ValidOffsets(slots) == ValidOffsets(slots[..n]) + tail;
      }
    }
  }

  /** The last slot adds itself to the contributors of the others exactly
      when it contributes. */
  lemma LastContributor(slots: seq<Slot>, x: int)
    requires |slots| > 0
    ensures var n := |slots| - 1;
      var last := slots[n];
      |Contributors(slots, x)|
        == |Contributors(slots[..n], x)| + if last.finished && last.client.done && last.client.offset == x then 1 else 0
  {
    var n := |slots| - 1;
    var pre, last := slots[..n], slots[n];
    var c, cPre := Contributors(slots, x), Contributors(pre, x);
    assert n !in cPre;
    forall j | j in cPre
      ensures j in c
    {
      assert pre[j] == slots[j];
    }
    forall j | j in c && j != n
      ensures j in cPre
    {
      assert pre[j] == slots[j];
    }
    if last.finished && last.client.done && last.client.offset == x {
      assert c == cPre + {n};
    } else {
      assert c == cPre;
    }
  }

  /** A reset is visible immediately: until a client finishes again the
      query returns the unadjusted clock. */
  lemma ResetQuery(t: TimeStamp, now: int)
    ensures CurrentMSTimestamp(LocaltimeChanged(t), now) == now
  {
  }

  /** Every coordinator operation keeps the invariant. */
  lemma LocaltimeChangedPreservesInv(t: TimeStamp)
    requires Inv(t)
    ensures Inv(LocaltimeChanged(t))
  {
    var r := LocaltimeChanged(t);
    forall i | 0 <= i < |r.slots|
      ensures NtpClient.Inv(r.slots[i].client)
    {
      NtpClient.StepPreservesInv(t.slots[i].client, NtpClient.Start);
    }
  }

  lemma DeliverPreservesInv(t: TimeStamp, i: nat, e: NtpClient.Event)
    requires Inv(t)
    requires i < |t.slots| && NtpClient.Deliverable(t.slots[i].client, e)
    ensures Inv(Deliver(t, i, e))
  {
    var reaction := NtpClient.Step(t.slots[i].client, e);
    var stepped := t.(slots := t.slots[i := t.slots[i].(client := reaction.next)]);
    NtpClient.StepPreservesInv(t.slots[i].client, e);
    ReplaceClientPreservesInv(t, i, reaction.next);
    if reaction.finished {
      NtpFinishedPreservesInv(stepped, Some(i));
    }
  }

  /** Swapping one client for another that keeps the client invariant keeps
      the coordinator's invariant: the finished flags are untouched. */
  lemma ReplaceClientPreservesInv(t: TimeStamp, i: nat, c: NtpClient.Client)
    requires Inv(t) && i < |t.slots| && NtpClient.Inv(c)
    ensures Inv(t.(slots := t.slots[i := t.slots[i].(client := c)]))
  {
    var r := t.(slots := t.slots[i := t.slots[i].(client := c)]);
    if t.syncDone {
      var k :| 0 <= k < |t.slots| && t.slots[k].finished;
      assert r.slots[k].finished;
    }
  }

  lemma NtpFinishedPreservesInv(t: TimeStamp, sender: Option<nat>)
    requires Inv(t)
    ensures Inv(NtpFinished(t, sender))
  {
    var r := NtpFinished(t, sender);
    if sender.Some? && sender.value < |t.slots| {
      assert r.slots[sender.value].finished;
    }
  }
}
