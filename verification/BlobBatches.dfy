/** Cutting a list of blob requests into batches that the receiving side admits.

    The sender's loop and the receiver's check are methods; the cut that the loop makes is
    the function `Batches`. Sums of sizes wrap at 64 bits on both sides, as they do in the
    code, so that being admitted and really being within the limits are two things. The
    lemmas say in which cases the cut is admitted, and that no other has fewer batches. */
module BlobBatches {

  const DEFAULT_MAX_FETCH_BYTES: nat := 0x1000_0000
  const DEFAULT_MAX_FETCH_COUNT: nat := 256
  const MODULUS: nat := 0x1_0000_0000_0000_0000

  datatype Req = Req(hash: string, size: nat)

  datatype Limits = Limits(bytes: nat, count: nat)

  // ---- The limits of a session ----

  function Effective(configured: nat, fallback: nat): nat {
    if configured == 0 then fallback else configured
  }

  /** `updateFetchLimits` on the effective configured limits; a remote limit of 0 says nothing. */
  function SessionLimits(configured: Limits, remote: Limits): (lim: Limits)
    ensures lim.bytes > 0 && lim.count > 0
    ensures remote.bytes > 0 ==> lim.bytes <= remote.bytes
    ensures remote.count > 0 ==> lim.count <= remote.count
  {
    var b := Effective(configured.bytes, DEFAULT_MAX_FETCH_BYTES);
    var n := Effective(configured.count, DEFAULT_MAX_FETCH_COUNT);
    Limits(if 0 < remote.bytes < b then remote.bytes else b, if 0 < remote.count < n then remote.count else n)
  }

  // ---- Sizes ----

  function TotalSize(rs: seq<Req>): nat {
    if rs == [] then 0 else TotalSize(rs[..|rs| - 1]) + rs[|rs| - 1].size
  }

  /** What a sum in 64-bit arithmetic shows. */
  function Wrapped(n: nat): nat {
    n % MODULUS
  }

  /** `BlobsFetch` lets a batch through: by count, and by a 64-bit sum of the declared sizes. */
  predicate Admitted(lim: Limits, batch: seq<Req>) {
    |batch| <= lim.count && Wrapped(TotalSize(batch)) <= lim.bytes
  }

  /** Really within both limits. */
  predicate Within(lim: Limits, batch: seq<Req>) {
    |batch| <= lim.count && TotalSize(batch) <= lim.bytes
  }

  /** `BlobsFetch` up to the call. */
  method CheckBatch(lim: Limits, batch: seq<Req>) returns (ok: bool)
    ensures ok <==> Admitted(lim, batch)
  {
    if |batch| > lim.count {
      return false;
    }
    var total: nat := 0;
    for i := 0 to |batch|
      invariant total == Wrapped(TotalSize(batch[..i]))
    {
      assert batch[..i + 1][..i] == batch[..i];
      total := Wrapped(total + batch[i].size);
    }
    assert batch[..|batch|] == batch;
    ok := total <= lim.bytes;
  }

  // ---- The greedy cut ----

  predicate Over(lim: Limits, batch: seq<Req>, r: Req) {
    batch != [] && (Wrapped(Wrapped(TotalSize(batch)) + r.size) > lim.bytes || |batch| >= lim.count)
  }

  /** Where the batch that began at `from` and has reached `k` will end. */
  function EndOf(lim: Limits, rs: seq<Req>, from: nat, k: nat): (e: nat)
    requires from <= k <= |rs|
    ensures k <= e <= |rs|
    decreases |rs| - k
  {
    if k == |rs| || Over(lim, rs[from..k], rs[k]) then k else EndOf(lim, rs, from, k + 1)
  }

  function Batches(lim: Limits, rs: seq<Req>, from: nat): seq<seq<Req>>
    requires from <= |rs|
    decreases |rs| - from
  {
    if from == |rs| then []
    else
      var e := EndOf(lim, rs, from, from + 1);
      [rs[from..e]] + Batches(lim, rs, e)
  }

  function Flatten(bs: seq<seq<Req>>): seq<Req> {
    if bs == [] then [] else bs[0] + Flatten(bs[1..])
  }

  /** What is still to be sent while a batch from `from` has reached `k`. */
  function Ahead(lim: Limits, rs: seq<Req>, from: nat, k: nat): seq<seq<Req>>
    requires from <= k <= |rs|
  {
    if from == k then Batches(lim, rs, k)
    else
      var e := EndOf(lim, rs, from, k);
      [rs[from..e]] + Batches(lim, rs, e)
  }

  /** Before request `i`: what was sent, and the batch in hand, are what the cut has reached. */
  ghost predicate Cutting(lim: Limits, rs: seq<Req>, sent: seq<seq<Req>>, batch: seq<Req>, size: nat, from: nat, i: nat) {
    && from <= i <= |rs| && batch == rs[from..i] && size == Wrapped(TotalSize(batch))
    && Batches(lim, rs, 0) == sent + Ahead(lim, rs, from, i)
  }

  lemma TakesOne(lim: Limits, rs: seq<Req>, sent: seq<seq<Req>>, batch: seq<Req>, size: nat, from: nat, i: nat)
    requires i < |rs| && Cutting(lim, rs, sent, batch, size, from, i) && !Over(lim, batch, rs[i])
    ensures Cutting(lim, rs, sent, batch + [rs[i]], Wrapped(size + rs[i].size), from, i + 1)
  {
    OneMore(rs, from, i);
  }

  lemma Closes(lim: Limits, rs: seq<Req>, sent: seq<seq<Req>>, batch: seq<Req>, size: nat, from: nat, i: nat)
    requires Cutting(lim, rs, sent, batch, size, from, i) && batch != [] && (i == |rs| || Over(lim, batch, rs[i]))
    ensures Cutting(lim, rs, sent + [batch], [], 0, i, i)
    ensures sent <= Batches(lim, rs, 0) && (i == |rs| ==> Batches(lim, rs, 0) == sent + [batch])
  {
    assert Ahead(lim, rs, from, i) == [batch] + Batches(lim, rs, i);
    assert sent + ([batch] + Batches(lim, rs, i)) == (sent + [batch]) + Batches(lim, rs, i);
  }

  function EffectiveLimits(session: Limits): Limits {
    Limits(Effective(session.bytes, DEFAULT_MAX_FETCH_BYTES), Effective(session.count, DEFAULT_MAX_FETCH_COUNT))
  }

  /** The loop of `brotherFetchBlobs`; a failing fetch ends it. */
  method BrotherFetchBlobs(session: Limits, rs: seq<Req>) returns (sent: seq<seq<Req>>, failed: bool)
    ensures !failed ==> sent == Batches(EffectiveLimits(session), rs, 0)
    ensures failed ==> sent <= Batches(EffectiveLimits(session), rs, 0)
  {
    var lim := EffectiveLimits(session);
    sent := [];
    var batch: seq<Req> := [];
    var size: nat := 0;
    ghost var from: nat := 0;
    for i := 0 to |rs|
      invariant Cutting(lim, rs, sent, batch, size, from, i)
    {
      if IsOver(lim, batch, size, rs[i]) {
        Closes(lim, rs, sent, batch, size, from, i);
        sent, failed := Flush(sent, batch);
        if failed {
          return;
        }
        batch, size := [], 0;
        from := i;
      }
      TakesOne(lim, rs, sent, batch, size, from, i);
      batch := batch + [rs[i]];
      size := Wrapped(size + rs[i].size);
    }
    failed := false;
    if batch != [] {
      Closes(lim, rs, sent, batch, size, from, |rs|);
      sent, failed := Flush(sent, batch);
    }
  }

  /** The two tests of the loop, on the running sum. */
  predicate IsOver(lim: Limits, batch: seq<Req>, size: nat, r: Req)
    requires size == Wrapped(TotalSize(batch))
    ensures IsOver(lim, batch, size, r) == Over(lim, batch, r)
  {
    batch != [] && (Wrapped(size + r.size) > lim.bytes || |batch| >= lim.count)
  }

  /** One fetch, which may fail. */
  method Flush(sent: seq<seq<Req>>, batch: seq<Req>) returns (after: seq<seq<Req>>, failed: bool)
    ensures after == if failed then sent else sent + [batch]
  {
    failed := *;
    after := if failed then sent else sent + [batch];
  }

  lemma OneMore(rs: seq<Req>, from: nat, i: nat)
    requires from <= i < |rs|
    ensures rs[from..i + 1] == rs[from..i] + [rs[i]]
    ensures TotalSize(rs[from..i + 1]) == TotalSize(rs[from..i]) + rs[i].size
    ensures Wrapped(TotalSize(rs[from..i + 1])) == Wrapped(Wrapped(TotalSize(rs[from..i])) + rs[i].size)
  {
    assert rs[from..i + 1][..i - from] == rs[from..i];
    WrapAdds(TotalSize(rs[from..i]), rs[i].size);
  }

  lemma WrapAdds(a: nat, b: nat)
    ensures Wrapped(Wrapped(a) + b) == Wrapped(a + b)
  {
  }

  // ---- What the cut achieves ----

  /** The batches are the request list, in order. */
  lemma {:induction false} BatchesConcatenate(lim: Limits, rs: seq<Req>, from: nat)
    requires from <= |rs|
    ensures Flatten(Batches(lim, rs, from)) == rs[from..]
    decreases |rs| - from
  {
    if from < |rs| {
      var e := EndOf(lim, rs, from, from + 1);
      BatchesConcatenate(lim, rs, e);
      var bs := Batches(lim, rs, from);
      assert bs[0] == rs[from..e] && bs[1..] == Batches(lim, rs, e);
      assert rs[from..] == rs[from..e] + rs[e..];
    }
  }

  lemma {:induction false} EndAdmitted(lim: Limits, rs: seq<Req>, from: nat, k: nat)
    requires from < k <= |rs| && lim.count > 0 && Admitted(lim, rs[from..k])
    ensures Admitted(lim, rs[from..EndOf(lim, rs, from, k)])
    decreases |rs| - k
  {
    if k < |rs| && !Over(lim, rs[from..k], rs[k]) {
      OneMore(rs, from, k);
      EndAdmitted(lim, rs, from, k + 1);
    }
  }

  /** When no single blob exceeds the byte limit, the receiver admits every batch, even if sums wrap. */
  lemma {:induction false} BatchesAdmitted(lim: Limits, rs: seq<Req>, from: nat)
    requires from <= |rs| && lim.count > 0
    requires forall i :: 0 <= i < |rs| ==> rs[i].size <= lim.bytes
    ensures forall b :: b in Batches(lim, rs, from) ==> b != [] && Admitted(lim, b)
    decreases |rs| - from
  {
    if from < |rs| {
      var e := EndOf(lim, rs, from, from + 1);
      OneMore(rs, from, from);
      assert Wrapped(rs[from].size) <= rs[from].size;
      EndAdmitted(lim, rs, from, from + 1);
      BatchesAdmitted(lim, rs, e);
    }
  }

  /** The hypothesis is needed: a blob over the limit is sent all the same, and refused even alone. */
  lemma SingleOversizeRefused(lim: Limits, r: Req)
    requires lim.bytes < r.size < MODULUS && lim.count > 0
    ensures Batches(lim, [r], 0) == [[r]] && !Admitted(lim, [r])
  {
    OneMore([r], 0, 0);
    assert [r][0..1] == [r] && [r][0..0] == [];
    assert EndOf(lim, [r], 0, 1) == 1;
    assert Batches(lim, [r], 1) == [];
    assert TotalSize([r]) == r.size;
  }

  // ---- Fewest batches ----

  lemma {:induction false} SizeOfPart(rs: seq<Req>, a: nat, b: nat, c: nat, d: nat)
    requires a <= b <= c <= d <= |rs|
    ensures TotalSize(rs[b..c]) <= TotalSize(rs[a..d])
    decreases (d - c) + (b - a)
  {
    if c < d {
      SizeOfPart(rs, a, b, c, d - 1);
      OneMore(rs, a, d - 1);
    } else if a < b {
      SizeOfPart(rs, a + 1, b, c, d);
      DropFirst(rs, a, d);
    }
  }

  lemma {:induction false} DropFirst(rs: seq<Req>, a: nat, d: nat)
    requires a < d <= |rs|
    ensures TotalSize(rs[a + 1..d]) <= TotalSize(rs[a..d])
    decreases d - a
  {
    OneMore(rs, a, d - 1);
    if a + 1 < d {
      DropFirst(rs, a, d - 1);
      OneMore(rs, a + 1, d - 1);
    }
  }

  /** A greedy batch reaches at least as far as any stretch that is really within the limits. */
  lemma {:induction false} GreedyReaches(lim: Limits, rs: seq<Req>, from: nat, k: nat, e: nat)
    requires from < k <= e <= |rs| && lim.bytes < MODULUS && Within(lim, rs[from..e])
    ensures EndOf(lim, rs, from, k) >= e
    decreases e - k
  {
    if k < e {
      SizeOfPart(rs, from, from, k + 1, e);
      OneMore(rs, from, k);
      assert !Over(lim, rs[from..k], rs[k]);
      GreedyReaches(lim, rs, from, k + 1, e);
    }
  }

  /** A split, in order, of the requests from `p` on, into batches within both limits. */
  predicate ValidSplit(lim: Limits, rs: seq<Req>, p: nat, ss: seq<seq<Req>>)
    decreases ss
  {
    p <= |rs|
    && if ss == [] then p == |rs|
       else p + |ss[0]| <= |rs| && ss[0] == rs[p..p + |ss[0]|] && Within(lim, ss[0]) && ValidSplit(lim, rs, p + |ss[0]|, ss[1..])
  }

  /** No split of the list, or of a longer end of it, into batches within both limits has fewer batches. */
  lemma {:induction false} FewestBatches(lim: Limits, rs: seq<Req>, p: nat, q: nat, ss: seq<seq<Req>>)
    requires p <= q <= |rs| && lim.bytes < MODULUS && ValidSplit(lim, rs, p, ss)
    ensures |Batches(lim, rs, q)| <= |ss|
    decreases |ss|
  {
    if ss != [] && q < |rs| {
      var m := p + |ss[0]|;
      if m <= q {
        FewestBatches(lim, rs, m, q, ss[1..]);
      } else {
        var e := EndOf(lim, rs, q, q + 1);
        SizeOfPart(rs, p, q, m, m);
        GreedyReaches(lim, rs, q, q + 1, m);
        FewestBatches(lim, rs, m, e, ss[1..]);
      }
    }
  }
}
