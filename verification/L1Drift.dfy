/** When an L1 cache can hold more than it counts: exactly when the budget is at least two bytes,
  and then by any amount. */
module L1Drift {
  import opened Wrappers
  import opened Bytes
  import opened L1Model
  import opened L1Accounting

  /** Only a put that grows its entry past everything used less recently can lose bytes. */
  lemma LossNeedsGrowth(cfg: Config, s: L1, op: Op)
    requires Inv(cfg, s) && Lost(cfg, s, op) > 0
    ensures op.PutOp? && Has(s.items, op.key)
    ensures |op.value| > At(s.items, op.key).size + Stored(s.items[..Find(s.items, op.key)])
    ensures cfg.maxBytes >= 2
  {
  }

  // A run that stores more and more.

  function Name(n: nat): (k: Key)
    ensures |k| == n
  {
    seq(n, _ => 'k')
  }

  function Zeros(n: nat): (v: seq<Byte>)
    ensures |v| == n
  {
    seq(n, _ => 0)
  }

  function PutOf(cfg: Config, key: Key, size: nat): Op {
    PutOp(key, Zeros(size), None, Some(Finite(cfg.ttlBuffer + 1.0)), 0.0)
  }

  /** n one-byte entries whose names are shorter than n. */
  ghost predicate Ones(items: seq<Item>, n: nat) {
    && |items| == n && Distinct(items)
    && forall i :: 0 <= i < |items| ==> items[i].entry.size == 1 && |items[i].key| < n
  }

  lemma {:induction false} OnesStored(items: seq<Item>, n: nat)
    requires |items| == n && forall i :: 0 <= i < |items| ==> items[i].entry.size == 1
    ensures Stored(items) == n
  {
    if items != [] { OnesStored(items[1..], n - 1); }
  }

  lemma PutFits(cfg: Config, s: L1, key: Key, size: nat)
    requires size <= cfg.maxBytes && Replaced(s, key).tracked + size <= cfg.maxBytes
    ensures var t := Step(cfg, s, PutOf(cfg, key, size));
            t.tracked == Replaced(s, key).tracked + size &&
            t.items == Without(s.items, key) + [Item(key, Entry(Zeros(size), 1.0, size))]
  {
    assert s.items[..0] == [] && s.items[0..] == s.items;
  }

  lemma PutFresh(cfg: Config, s: L1, n: nat)
    requires Ones(s.items, n) && 0 <= s.tracked < cfg.maxBytes
    ensures var t := Step(cfg, s, PutOf(cfg, Name(n), 1)); Ones(t.items, n + 1) && t.tracked == s.tracked + 1
  {
    hide Find;
    NotFound(s.items, Name(n));
    PutFits(cfg, s, Name(n), 1);
  }

  /** The oldest entry, replaced by two bytes in a full cache, is evicted by its own put. */
  lemma PutGrows(cfg: Config, s: L1)
    requires cfg.maxBytes >= 2 && s.tracked == cfg.maxBytes
    requires s.items != [] && s.items[0].entry.size == 1 && Distinct(s.items)
    ensures var key := s.items[0].key; var t := Step(cfg, s, PutOf(cfg, key, 2));
            t.tracked == cfg.maxBytes && t.items == s.items[1..] + [Item(key, Entry(Zeros(2), 1.0, 2))]
  {
    var key := s.items[0].key;
    FindIs(s.items, key, 0);
    assert EvictCount(s.items, s.tracked - 1, 2, cfg.maxBytes) == 1;
    assert s.items[..1] == [s.items[0]];
    StoredOne(s.items[0]);
    NotFound(s.items[1..], key);
  }

  lemma PutShrinks(cfg: Config, s: L1, rest: seq<Item>, key: Key)
    requires cfg.maxBytes >= 2 && s.tracked == cfg.maxBytes && Distinct(s.items)
    requires s.items == rest + [Item(key, Entry(Zeros(2), 1.0, 2))]
    ensures var t := Step(cfg, s, PutOf(cfg, key, 1));
            t.tracked == cfg.maxBytes - 1 && t.items == rest + [Item(key, Entry(Zeros(1), 1.0, 1))]
  {
    hide Find;
    FindIs(s.items, key, |rest|);
    PutFits(cfg, s, key, 1);
  }

  lemma RunStep(cfg: Config, ops: seq<Op>, op: Op)
    ensures Run(cfg, ops + [op]) == Step(cfg, Run(cfg, ops), op)
  {
    hide Step;
    assert (ops + [op])[..|ops|] == ops;
  }

  /** Three puts leave the count full and one more byte stored. */
  lemma Round(cfg: Config, ops: seq<Op>, n: nat) returns (more: seq<Op>)
    requires cfg.maxBytes >= 2 && n > 0 && Run(cfg, ops).tracked == cfg.maxBytes && Ones(Run(cfg, ops).items, n)
    ensures Run(cfg, more).tracked == cfg.maxBytes && Ones(Run(cfg, more).items, n + 1)
  {
    hide Run, Step;
    var s := Run(cfg, ops);
    var key, rest := s.items[0].key, s.items[1..];
    var grow, shrink := PutOf(cfg, key, 2), PutOf(cfg, key, 1);
    more := ops + [grow] + [shrink] + [PutOf(cfg, Name(n), 1)];
    PutGrows(cfg, s);
    RunStep(cfg, ops, grow);
    PutShrinks(cfg, Step(cfg, s, grow), rest, key);
    RunStep(cfg, ops + [grow], shrink);
    PutFresh(cfg, Run(cfg, ops + [grow] + [shrink]), n);
    RunStep(cfg, ops + [grow] + [shrink], PutOf(cfg, Name(n), 1));
  }

  lemma {:induction false} FillUp(cfg: Config, n: nat) returns (ops: seq<Op>)
    requires n <= cfg.maxBytes
    ensures Run(cfg, ops).tracked == n && Ones(Run(cfg, ops).items, n)
  {
    if n == 0 {
      ops := [];
    } else {
      var before := FillUp(cfg, n - 1);
      ops := before + [PutOf(cfg, Name(n - 1), 1)];
      PutFresh(cfg, Run(cfg, before), n - 1);
      RunStep(cfg, before, PutOf(cfg, Name(n - 1), 1));
    }
  }

  /** Whatever the excess asked for, some run stores that much more than the budget while the
    count says the budget is met. */
  lemma {:induction false} Overflows(cfg: Config, excess: nat) returns (ops: seq<Op>)
    requires cfg.maxBytes >= 2
    ensures Run(cfg, ops).tracked == cfg.maxBytes && Ones(Run(cfg, ops).items, cfg.maxBytes + excess)
    ensures Stored(Run(cfg, ops).items) == cfg.maxBytes + excess
  {
    hide Run;
    if excess == 0 {
      ops := FillUp(cfg, cfg.maxBytes);
    } else {
      var before := Overflows(cfg, excess - 1);
      ops := Round(cfg, before, cfg.maxBytes + excess - 1);
    }
    OnesStored(Run(cfg, ops).items, cfg.maxBytes + excess);
  }

  lemma {:induction false} NoLoss(cfg: Config, ops: seq<Op>)
    requires cfg.maxBytes < 2
    ensures LostSoFar(cfg, ops) == 0
  {
    hide Lost;
    if ops != [] {
      var init, op := ops[..|ops| - 1], ops[|ops| - 1];
      NoLoss(cfg, init);
      Accounting(cfg, init);
      if Lost(cfg, Run(cfg, init), op) > 0 { LossNeedsGrowth(cfg, Run(cfg, init), op); }
    }
  }

  /** The memory bound holds over every run exactly when the budget is below two bytes. */
  lemma BoundHoldsIff(cfg: Config)
    ensures (forall ops :: Stored(Run(cfg, ops).items) <= cfg.maxBytes) <==> cfg.maxBytes < 2
  {
    hide Run, Stored;
    if cfg.maxBytes < 2 {
      forall ops ensures Stored(Run(cfg, ops).items) <= cfg.maxBytes {
        NoLoss(cfg, ops);
        StoredBound(cfg, ops);
      }
    } else {
      var ops := Overflows(cfg, 1);
    }
  }
}
