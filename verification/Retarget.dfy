/** The difficulty retarget of blockchain/difficulty.go. */
module Retarget {
  import opened Bytes
  import opened Common
  import opened Difficulty
  import opened BlockTree

  /** The proof-of-work parameters, as `New` derives them from the configuration. */
  datatype PowParams = PowParams(
    powLimit: int, powLimitBits: Uint32, targetTimespan: int,
    minRetargetTimespan: int, maxRetargetTimespan: int, blocksPerRetarget: Uint32)
  {
    predicate Sane() {
      && 0 < powLimit < Limit()
      && 0 < minRetargetTimespan <= maxRetargetTimespan
      && targetTimespan > 0
      && 0 < blocksPerRetarget
    }
  }

  /** Timestamps are subtracted as unsigned 32-bit numbers. */
  function Timespan(newest: Uint32, oldest: Uint32): (d: Uint32) {
    (newest - oldest) % TWO_32
  }

  function Clamp(span: int, lo: int, hi: int): int {
    if span < lo then lo else if span > hi then hi else span
  }

  /** The target before it is rounded to its compact form. */
  function NewTarget(params: PowParams, oldBits: Uint32, span: int): int
    requires params.Sane()
  {
    var adjusted := Clamp(span, params.minRetargetTimespan, params.maxRetargetTimespan);
    var scaled := CompactToBig(oldBits) * adjusted / params.targetTimespan;
    if scaled > params.powLimit then params.powLimit else scaled
  }

  /** The bits demanded of the block after prev: the limit at genesis and on an instant chain,
      the previous bits inside an interval, a rescaled target at its end. */
  function RequiredBits(params: PowParams, prev: Node): int
    requires params.Sane() && Linked(prev)
  {
    if prev.height == 0 || params.powLimitBits == 0x207f_ffff then params.powLimitBits
    else if (prev.height + 1) % params.blocksPerRetarget != 0 then prev.bits
    else
      IntervalStart(prev.height + 1, params.blocksPerRetarget);
      PathShape(prev);
      var first := Path(prev)[prev.height + 1 - params.blocksPerRetarget];
      BigToCompact(NewTarget(params, prev.bits, Timespan(prev.timestamp, first.timestamp)))
  }

  /** The three cases of the required bits. */
  lemma RequiredExactly(params: PowParams, prev: Node) returns (first: Node, span: int, target: int)
    requires params.Sane() && Linked(prev)
    ensures prev.height == 0 || params.powLimitBits == 0x207f_ffff ==> RequiredBits(params, prev) == params.powLimitBits
    ensures prev.height > 0 && params.powLimitBits != 0x207f_ffff ==>
              ((prev.height + 1) % params.blocksPerRetarget != 0 ==> RequiredBits(params, prev) == prev.bits)
    ensures (&& prev.height > 0 && params.powLimitBits != 0x207f_ffff
             && (prev.height + 1) % params.blocksPerRetarget == 0) ==>
              && first in Path(prev) && first.height == prev.height + 1 - params.blocksPerRetarget
              && params.minRetargetTimespan <= span <= params.maxRetargetTimespan
              && var actual := (prev.timestamp - first.timestamp) % TWO_32;
              && (span == actual || if actual < params.minRetargetTimespan then span == params.minRetargetTimespan
                                    else span == params.maxRetargetTimespan < actual)
              && var exact := CompactToBig(prev.bits) * span;
              && RequiredBits(params, prev) == BigToCompact(target)
              && (if (params.powLimit + 1) * params.targetTimespan <= exact then target == params.powLimit
                  else target * params.targetTimespan <= exact < (target + 1) * params.targetTimespan)
  {
    hide CompactToBig, BigToCompact;
    first, span, target := prev, 0, 0;
    if prev.height > 0 && (prev.height + 1) % params.blocksPerRetarget == 0 {
      IntervalStart(prev.height + 1, params.blocksPerRetarget);
      PathShape(prev);
      first := Path(prev)[prev.height + 1 - params.blocksPerRetarget];
      var actual := Timespan(prev.timestamp, first.timestamp);
      span := Clamp(actual, params.minRetargetTimespan, params.maxRetargetTimespan);
      target := NewTarget(params, prev.bits, actual);
      TargetScaled(CompactToBig(prev.bits) * span, params.targetTimespan, params.powLimit);
    }
  }

  lemma TargetScaled(x: int, t: int, limit: int)
    requires t > 0
    ensures (limit + 1) * t <= x <==> x / t > limit
    ensures x / t * t <= x < (x / t + 1) * t
  {
    DivFloor(x, t);
    if (limit + 1) * t <= x {
      FloorOrder((limit + 1) * t, limit + 1, x, x / t, t);
    } else if limit + 1 <= x / t {
      MulMonotone(limit + 1, x / t, t);
    }
  }

  lemma IntervalStart(h: nat, n: nat)
    requires h > 0 && n > 0 && h % n == 0
    ensures n <= h
  {
    if h < n {
      SmallModulus(h, n);
    }
  }

  lemma SmallModulus(h: nat, n: nat)
    requires h < n
    ensures h % n == h
  {
  }

  /** Walks back to the start of the interval.  The error for a missing retarget block is
      unreachable, and the answer is the required bits. */
  method CalcNextRequiredDifficulty(params: PowParams, prev: Node)
      returns (r: Result<int, string>, ghost first: Node, ghost span: int, ghost target: int)
    requires params.Sane() && Linked(prev) && prev.height + 1 < TWO_32
    ensures r == Ok(RequiredBits(params, prev))
    ensures prev.height == 0 || params.powLimitBits == 0x207f_ffff ==> r.value == params.powLimitBits
    ensures prev.height > 0 && params.powLimitBits != 0x207f_ffff ==>
              ((prev.height + 1) % params.blocksPerRetarget != 0 ==> r.value == prev.bits)
    ensures (&& prev.height > 0 && params.powLimitBits != 0x207f_ffff
             && (prev.height + 1) % params.blocksPerRetarget == 0) ==>
              && first in Path(prev) && first.height == prev.height + 1 - params.blocksPerRetarget
              && params.minRetargetTimespan <= span <= params.maxRetargetTimespan
              && var actual := (prev.timestamp - first.timestamp) % TWO_32;
              && (span == actual || if actual < params.minRetargetTimespan then span == params.minRetargetTimespan
                                    else span == params.maxRetargetTimespan < actual)
              && var exact := CompactToBig(prev.bits) * span;
              && r.value == BigToCompact(target)
              && (if (params.powLimit + 1) * params.targetTimespan <= exact then target == params.powLimit
                  else target * params.targetTimespan <= exact < (target + 1) * params.targetTimespan)
  {
    hide CompactToBig, BigToCompact, NewTarget;
    first, span, target := RequiredExactly(params, prev);
    if prev.height == 0 || params.powLimitBits == 0x207f_ffff {
      return Ok(params.powLimitBits), first, span, target;
    }
    if (prev.height + 1) % params.blocksPerRetarget != 0 {
      return Ok(prev.bits), first, span, target;
    }
    IntervalStart(prev.height + 1, params.blocksPerRetarget);
    var height := (prev.height - params.blocksPerRetarget + 1) % TWO_32;
    SmallModulus(prev.height - params.blocksPerRetarget + 1, TWO_32);
    if height < 0 || height > prev.height {
      return Err("unable to obtain previous retarget block"), first, span, target;
    }
    var firstNode := AncestorAt(prev, height);
    var bits := Rescale(params, prev.bits, Timespan(prev.timestamp, firstNode.timestamp));
    r := Ok(bits);
  }

  /** The walk over parent links back to a given height. */
  method AncestorAt(prev: Node, height: nat) returns (first: Node)
    requires Linked(prev) && height <= prev.height
    ensures height < |Path(prev)| && first == Path(prev)[height]
  {
    first := prev;
    PathShape(prev);
    while first.height != height
      invariant height <= first.height <= prev.height
      invariant first == Path(prev)[first.height]
      decreases first.height
    {
      assert Path(prev)[first.height - 1 + 1].parent == Some(Path(prev)[first.height - 1]);
      first := first.parent.value;
    }
  }

  /** Clamps the timespan, scales the old target by it and caps the result. */
  method Rescale(params: PowParams, oldBits: Uint32, actual: int) returns (bits: int)
    requires params.Sane()
    ensures bits == BigToCompact(NewTarget(params, oldBits, actual))
  {
    var adjusted := actual;
    if actual < params.minRetargetTimespan {
      adjusted := params.minRetargetTimespan;
    } else if actual > params.maxRetargetTimespan {
      adjusted := params.maxRetargetTimespan;
    }
    var newTarget := CompactToBig(oldBits) * adjusted;
    newTarget := newTarget / params.targetTimespan;
    if newTarget > params.powLimit {
      newTarget := params.powLimit;
    }
    bits := BigToCompact(newTarget);
  }

  /** The bounds a rescaled target obeys, for any bits (even negative ones) and any timestamps:
      it decodes to at most the limit, and from a positive old target it moves by no more than
      the clamped timespan ratio and falls short of the exact ratio by under one part in 2^15. */
  lemma RetargetBounds(params: PowParams, oldBits: Uint32, span: int)
    requires params.Sane()
    ensures var q := NewTarget(params, oldBits, span);
            var bits := BigToCompact(q);
            var prior := CompactToBig(oldBits);
            && 0 <= bits < TWO_32
            && CompactToBig(bits) <= params.powLimit
            && (prior > 0 ==>
                  && 0 <= CompactToBig(bits) <= q
                  && CompactToBig(bits) * params.targetTimespan <= prior * params.maxRetargetTimespan
                  && (q > 0 ==> CloseBelow(CompactToBig(bits), q))
                  && (q == params.powLimit ||
                      prior * params.minRetargetTimespan < (q + 1) * params.targetTimespan))
  {
    var q := NewTarget(params, oldBits, span);
    var prior := CompactToBig(oldBits);
    if prior > 0 {
      ScaledBounds(params, prior, Clamp(span, params.minRetargetTimespan, params.maxRetargetTimespan), q);
    }
    if q < 0 {
      NegativeStaysNegative(q);
    } else if q == 0 {
      ZeroDecodes();
    } else {
      RoundTrip(q);
    }
    if prior > 0 {
      MulMonotone(CompactToBig(BigToCompact(q)), q, params.targetTimespan);
    }
  }

  lemma ZeroDecodes()
    ensures CompactToBig(0) == 0
  {
    assert Pow256(3) >= 1;
  }

  lemma ScaledBounds(params: PowParams, prior: int, adjusted: int, q: int)
    requires params.Sane() && prior > 0
    requires params.minRetargetTimespan <= adjusted <= params.maxRetargetTimespan
    requires var s := prior * adjusted / params.targetTimespan; q == if s > params.powLimit then params.powLimit else s
    ensures 0 <= q && q * params.targetTimespan <= prior * params.maxRetargetTimespan
    ensures q == params.powLimit || prior * params.minRetargetTimespan < (q + 1) * params.targetTimespan
  {
    var t := params.targetTimespan;
    var s := prior * adjusted / t;
    MulMonotone(params.minRetargetTimespan, adjusted, prior);
    MulMonotone(adjusted, params.maxRetargetTimespan, prior);
    MulMonotone(0, prior, adjusted);
    DivFloor(prior * adjusted, t);
    FloorOrder(0, 0, prior * adjusted, s, t);
    MulMonotone(q, s, t);
  }

  /** A clock that runs backwards counts as a very long interval: the difference wraps, and the
      target is eased as far as the clamp allows. */
  lemma BackwardsClockEases(params: PowParams, newest: Uint32, oldest: Uint32)
    requires params.Sane() && newest < oldest
    ensures Clamp(Timespan(newest, oldest), params.minRetargetTimespan, params.maxRetargetTimespan)
              == params.maxRetargetTimespan
            <==> (oldest - newest <= TWO_32 - params.maxRetargetTimespan
                  || params.minRetargetTimespan == params.maxRetargetTimespan)
  {
    assert Timespan(newest, oldest) == newest - oldest + TWO_32;
  }
}
