/** The producer and consumer loops of `main` in producer_consumer.cpp, run
    one step at a time in an order a schedule chooses. A step is one
    iteration of a thread's `for` loop; it goes ahead only when the thread's
    wait loop would let it through (`!full` for the producer, `!empty` for
    the consumer) and is otherwise skipped, as a blocked thread would be. */
module Driver {
  import opened Fifo

  /** `loop`: the iteration count of one run of either thread. */
  const Loop: nat := 20

  /** Each thread calls its `run` lambda twice. */
  const Runs: nat := 2

  datatype Step = Produce | Consume

  /** One run of the producer pushes its loop counter `0 .. Loop-1`. */
  function ProducerRun(): seq<int>
  {
    seq(Loop, i requires 0 <= i < Loop => i)
  }

  /** Everything the producer ever pushes: two runs, one after the other. */
  function ProducerOutput(): seq<int>
  {
    ProducerRun() + ProducerRun()
  }

  /** The producer's loop counter `i` at its `k`-th push overall: `k` in
      the first run, `k - Loop` in the second. It is the value pushed. */
  function RunCounter(k: nat): (i: int)
    requires k < Runs * Loop
    ensures 0 <= i < Loop
    ensures ProducerOutput()[k] == i
  {
    if k < Loop then k else k - Loop
  }

  /** The `k`-th value the producer pushes is `k` modulo `Loop`. */
  lemma ProducerOutputAt(k: nat)
    requires k < Runs * Loop
    ensures ProducerOutput()[k] == k % Loop
  {
  }

  /** How many iterations each thread has completed. */
  datatype Tally = Tally(pushed: nat, popped: nat)

  /** One step on counts alone: the producer's step runs while it has
      iterations left and fewer than `QueueSize` items are in flight; the
      consumer's while it has iterations left and something is in flight. */
  function Advance(t: Tally, s: Step): Tally
  {
    match s
    case Produce =>
      if t.pushed < Runs * Loop && t.pushed < t.popped + QueueSize
      then Tally(t.pushed + 1, t.popped) else t
    case Consume =>
      if t.popped < Runs * Loop && t.popped < t.pushed
      then Tally(t.pushed, t.popped + 1) else t
  }

  /** The counts a schedule reaches from the start, step by step. */
  function Counts(s: seq<Step>): Tally
  {
    if s == [] then Tally(0, 0) else Advance(Counts(s[..|s| - 1]), s[|s| - 1])
  }

  /** Appending a step advances the counts by that step. */
  lemma CountsSnoc(s: seq<Step>, x: Step)
    ensures Counts(s + [x]) == Advance(Counts(s), x)
  {
    assert (s + [x])[..|s|] == s;
  }

  /** Every reachable count has the consumer behind the producer, the
      producer at most `QueueSize` ahead, and neither past its iterations. */
  lemma {:induction false} CountsBounds(s: seq<Step>)
    ensures Counts(s).popped <= Counts(s).pushed <= Runs * Loop
    ensures Counts(s).pushed <= Counts(s).popped + QueueSize
  {
    if s != [] { CountsBounds(s[..|s| - 1]); }
  }

  /** No reachable count is stuck: while work remains, some step changes
      it. */
  lemma CountsProgress(s: seq<Step>)
    ensures Counts(s) == Tally(Runs * Loop, Runs * Loop) ||
            Advance(Counts(s), Produce) != Counts(s) ||
            Advance(Counts(s), Consume) != Counts(s)
  {
    CountsBounds(s);
  }

  /** `n` rounds of one producer step then one consumer step. */
  function Alternating(n: nat): seq<Step>
  {
    if n == 0 then [] else Alternating(n - 1) + [Produce, Consume]
  }

  /** Strict alternation never blocks: after `n <= Runs * Loop` rounds each
      thread has done `n` iterations. */
  lemma {:induction false} AlternatingCounts(n: nat)
    requires n <= Runs * Loop
    ensures Counts(Alternating(n)) == Tally(n, n)
  {
    if n > 0 {
      AlternatingCounts(n - 1);
      var a := Alternating(n - 1);
      CountsSnoc(a, Produce);
      CountsSnoc(a + [Produce], Consume);
      assert Alternating(n) == (a + [Produce]) + [Consume];
    }
  }

  /** One iteration of one thread's `for` loop: the step goes ahead when
      the thread has iterations left and its wait loop lets it through
      (`!full` for the producer, `!empty` for the consumer), and is skipped
      otherwise. Items sent so far are those received plus those in the
      queue, before and after; the counts move exactly as `Advance` says. */
  method RunStep(fifo: Queue, step: Step, popped: seq<int>, pushed: nat)
    returns (popped': seq<int>, pushed': nat)
    requires fifo.Valid()
    requires |popped| <= pushed <= Runs * Loop
    requires popped + fifo.contents == ProducerOutput()[..pushed]
    modifies fifo, fifo.buf
    ensures fifo.Valid()
    ensures |popped'| <= pushed' <= Runs * Loop
    ensures popped' + fifo.contents == ProducerOutput()[..pushed']
    ensures Tally(pushed', |popped'|) == Advance(Tally(pushed, |popped|), step)
  {
    GuardsAgree(fifo.head, fifo.tail, fifo.full, fifo.empty, pushed, |popped|);
    popped', pushed' := popped, pushed;
    match step {
      case Produce =>
        if pushed < Runs * Loop && !fifo.full {
          var i := RunCounter(pushed);
          SendNext(popped, fifo.contents, pushed);
          fifo.Add(i);
          pushed' := pushed + 1;
        }
      case Consume =>
        if |popped| < Runs * Loop && !fifo.empty {
          ghost var queued := fifo.contents;
          var d := fifo.Del();
          ReceiveNext(popped, queued, d);
          popped' := popped + [d];
        }
    }
  }

  /** The producer's next push extends what has been sent by its loop
      counter, so received-plus-queued keeps matching the items sent. */
  lemma SendNext(popped: seq<int>, queued: seq<int>, pushed: nat)
    requires pushed < Runs * Loop
    requires popped + queued == ProducerOutput()[..pushed]
    ensures popped + (queued + [RunCounter(pushed)]) == ProducerOutput()[..pushed + 1]
  {
    var out := ProducerOutput();
    assert out[..pushed + 1] == out[..pushed] + [out[pushed]];
  }

  /** Moving the oldest queued item to the received ones keeps their
      concatenation. */
  lemma ReceiveNext(popped: seq<int>, queued: seq<int>, d: int)
    requires queued != [] && d == queued[0]
    ensures (popped + [d]) + queued[1..] == popped + queued
  {
    assert queued == [d] + queued[1..];
  }

  /** Runs `schedule` against a fresh queue. The consumer's received values
      are `popped`; `pushed` counts the producer's completed iterations.
      Whatever the interleaving, the consumer receives a prefix of what the
      producer sent, in the same order, and never more than `QueueSize`
      items lag behind; and the counts are exactly those `Counts` gives, so
      every step whose guard passes is taken. */
  method RunSchedule(schedule: seq<Step>) returns (popped: seq<int>, pushed: nat)
    ensures pushed <= Runs * Loop
    ensures |popped| <= pushed <= |popped| + QueueSize
    ensures popped == ProducerOutput()[..|popped|]
    ensures |popped| == Runs * Loop ==> popped == ProducerOutput()
    ensures Counts(schedule) == Tally(pushed, |popped|)
  {
    var fifo := new Queue();
    popped, pushed := [], 0;
    var k := 0;
    while k < |schedule|
      invariant k <= |schedule|
      invariant fifo.Valid()
      invariant |popped| <= pushed <= Runs * Loop
      invariant popped + fifo.contents == ProducerOutput()[..pushed]
      invariant Counts(schedule[..k]) == Tally(pushed, |popped|)
    {
      CountsSnoc(schedule[..k], schedule[k]);
      assert schedule[..k + 1] == schedule[..k] + [schedule[k]];
      popped, pushed := RunStep(fifo, schedule[k], popped, pushed);
      k := k + 1;
    }
    GuardsAgree(fifo.head, fifo.tail, fifo.full, fifo.empty, pushed, |popped|);
    assert schedule[..|schedule|] == schedule;
    ReceivedPrefix(popped, fifo.contents, pushed);
  }

  /** When the items received and the items still queued together make up
      the first `pushed` items sent, the items received are the first
      `|popped|` items sent, and once all of them are received they are the
      producer's whole output. */
  lemma ReceivedPrefix(popped: seq<int>, queued: seq<int>, pushed: nat)
    requires pushed <= Runs * Loop
    requires popped + queued == ProducerOutput()[..pushed]
    ensures popped == ProducerOutput()[..|popped|]
    ensures |popped| == Runs * Loop ==> popped == ProducerOutput()
  {
    var out := ProducerOutput();
    assert |out| == Runs * Loop;
    assert popped == (popped + queued)[..|popped|];
  }

  /** The wait-loop guards on the flags are exactly the guards on counts
      that `Advance` uses: with `p` pushed, `c` popped and the `p - c` items
      in flight held in a consistent queue, `!full` holds iff fewer than
      `QueueSize` are in flight and `!empty` iff at least one is. */
  lemma GuardsAgree(head: int, tail: int, full: bool, empty: bool, p: nat, c: nat)
    requires c <= p
    requires Consistent(head, tail, full, empty, p - c)
    ensures !full <==> p < c + QueueSize
    ensures !empty <==> c < p
    ensures p <= c + QueueSize
  {
    ConsistentFlags(head, tail, full, empty, p - c);
  }
}
