/**
 The buffer state of one item for one product: how long the linked stock lasts against the planning horizon.
 */
module BufferCoverage {
  import opened Sequences

  /** The four states the kit ranks, and any other text an assessment may carry. */
  datatype BufferState = SufficientBuffer | UnknownBuffer | PartialBuffer | NoBuffer | OtherState(text: string) {
    predicate Ranked() { !OtherState? }

    /** The rank the exposure roll-up gives a state; states it does not know rank like unknown. */
    function Rank(): nat {
      match this
      case SufficientBuffer => 0
      case UnknownBuffer => 1
      case PartialBuffer => 2
      case NoBuffer => 3
      case OtherState(_) => 1
    }
  }

  function Total(amounts: seq<real>): real {
    if amounts == [] then 0.0 else amounts[0] + Total(amounts[1..])
  }

  /** The consumption rate per day: the override if there is one, else open demand spread over the horizon. */
  function Rate(override: Option<real>, openDemand: real, requirement: real, horizon: real): real {
    match override
    case Some(rate) => rate
    case None => if horizon != 0.0 then openDemand * requirement / horizon else 0.0
  }

  // Amounts are reals; rounding for display is not part of the decision.

  /** The state for the net amounts of the linked inventory positions. */
  function Classify(positions: seq<real>, override: Option<real>, openDemand: real, requirement: real,
                    horizon: real): BufferState
  {
    var net, rate := Total(positions), Rate(override, openDemand, requirement, horizon);
    if positions == [] then UnknownBuffer
    else if net <= 0.0 then NoBuffer
    else if rate <= 0.0 then if openDemand <= 0.0 || requirement <= 0.0 then SufficientBuffer else UnknownBuffer
    else if net / rate >= horizon then SufficientBuffer
    else PartialBuffer
  }

  /** A positive amount lasts for the horizon exactly when it covers rate times horizon. */
  lemma CoverageMeaning(net: real, rate: real, horizon: real)
    requires rate > 0.0
    ensures net / rate >= horizon <==> net >= rate * horizon
  {
    var days := net / rate;
    assert days * rate == net;
    if days >= horizon {
      assert (days - horizon) * rate >= 0.0;
    } else {
      assert (horizon - days) * rate > 0.0;
    }
  }

  /** The state says how the net stock compares to the open demand, with no reference to the horizon. */
  predicate SaysCoverage(state: BufferState, net: real, demand: real) {
    && (state == NoBuffer <==> net <= 0.0)
    && (state == SufficientBuffer <==> net > 0.0 && net >= demand)
    && (state == PartialBuffer <==> 0.0 < net < demand)
  }

  /** Which of the states it is on a positive horizon. */
  lemma ClassifyMeaning(positions: seq<real>, openDemand: real, requirement: real, horizon: real)
    requires positions != [] && horizon > 0.0
    ensures SaysCoverage(Classify(positions, None, openDemand, requirement, horizon), Total(positions),
                         openDemand * requirement)
  {
    var demand := openDemand * requirement;
    var rate := demand / horizon;
    if rate > 0.0 {
      CoverageMeaning(Total(positions), rate, horizon);
    }
  }

  /** What a horizon of zero or less leaves: no stock, or no demand and stock that covers it. */
  predicate HorizonImmaterial(net: real, openDemand: real, requirement: real) {
    net <= 0.0 || ((openDemand <= 0.0 || requirement <= 0.0) && net >= openDemand * requirement)
  }

  /**
   For every horizon, negative ones included: the state says the coverage on a positive horizon, and
   otherwise exactly there.
   */
  lemma ClassifyMeaningExactly(positions: seq<real>, openDemand: real, requirement: real, horizon: real)
    requires positions != []
    ensures SaysCoverage(Classify(positions, None, openDemand, requirement, horizon), Total(positions),
                         openDemand * requirement) <==>
            (horizon > 0.0 || HorizonImmaterial(Total(positions), openDemand, requirement))
  {
    if horizon > 0.0 {
      ClassifyMeaning(positions, openDemand, requirement, horizon);
    } else if Total(positions) > 0.0 {
      NonPositiveHorizon(positions, openDemand, requirement, horizon);
      if openDemand > 0.0 && requirement > 0.0 {
        assert openDemand * requirement > 0.0;
      }
    }
  }

  lemma NonPositiveHorizon(positions: seq<real>, openDemand: real, requirement: real, horizon: real)
    requires positions != [] && horizon <= 0.0 && Total(positions) > 0.0
    ensures Classify(positions, None, openDemand, requirement, horizon) ==
            if openDemand <= 0.0 || requirement <= 0.0 then SufficientBuffer else UnknownBuffer
  {
  }

  /** Without stock records nothing is known; a recorded rate replaces the estimate, whatever the demand. */
  lemma RecordedRate(positions: seq<real>, rate: real, openDemand: real, requirement: real, horizon: real)
    ensures var state := Classify(positions, Some(rate), openDemand, requirement, horizon);
            && (positions == [] ==> state == UnknownBuffer)
            && (positions != [] && Total(positions) <= 0.0 ==> state == NoBuffer)
            && (positions != [] && Total(positions) > 0.0 && rate > 0.0 ==>
                  state == if Total(positions) >= rate * horizon then SufficientBuffer else PartialBuffer)
            && (positions != [] && Total(positions) > 0.0 && rate <= 0.0 ==>
                  state == if openDemand > 0.0 && requirement > 0.0 then UnknownBuffer else SufficientBuffer)
    ensures Classify([], None, openDemand, requirement, horizon) == UnknownBuffer
  {
    if rate > 0.0 {
      CoverageMeaning(Total(positions), rate, horizon);
    }
  }

  /** The horizon does not matter. */
  lemma HorizonIndependent(positions: seq<real>, openDemand: real, requirement: real, h1: real, h2: real)
    requires positions != [] && h1 > 0.0 && h2 > 0.0
    ensures Classify(positions, None, openDemand, requirement, h1) ==
            Classify(positions, None, openDemand, requirement, h2)
  {
    ClassifyMeaning(positions, openDemand, requirement, h1);
    ClassifyMeaning(positions, openDemand, requirement, h2);
  }

  /** More net stock never ranks worse, whatever the rate and the horizon. */
  lemma MoreStockNeverWorse(less: seq<real>, more: seq<real>, override: Option<real>, openDemand: real,
                            requirement: real, horizon: real)
    requires less != [] && more != [] && Total(less) <= Total(more)
    ensures Classify(more, override, openDemand, requirement, horizon).Rank()
            <= Classify(less, override, openDemand, requirement, horizon).Rank()
  {
    var rate := Rate(override, openDemand, requirement, horizon);
    if rate > 0.0 {
      CoverageMeaning(Total(less), rate, horizon);
      CoverageMeaning(Total(more), rate, horizon);
    }
  }

  /** A horizon of zero breaks the law: stock that covers the open demand is reported as unknown. */
  lemma ZeroHorizonUnknown(net: real, openDemand: real, requirement: real)
    requires net > 0.0 && openDemand > 0.0 && requirement > 0.0
    ensures Classify([net], None, openDemand, requirement, 0.0) == UnknownBuffer
  {
    assert Total([net]) == net + Total([]);
  }
}
