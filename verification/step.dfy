/**
 One call of coreData.coralProduction as a whole: the production vector of
 the step (Production.StepProduction), its clastic input `sedh*dt` and the
 scale factor of the scaled regime, then the regime chosen by
 Accretion.Accrete.
 */
module AccretionStep {
  import opened RealArith
  import opened RealSeq
  import opened Production
  import opened Accretion

  /**
   The source's `maxcarbh / production.sum()`: the fraction of production
   that fits the room `room` left by clastics. The scaled regime only runs
   when production is positive; for a zero sum the value is never used and
   is taken as 0.
   */
  function FitFraction(room: real, total: real): (frac: real)
  {
    if total == 0.0 then 0.0 else Quotient(room, total)
  }

  /** One call of the accretion step. */
  function Step(cfg: Config, c: Core, layID: nat, coral: seq<real>, epsilon: seq<real>, sedh: real, ero: real): (r: Core)
    requires cfg.prodscale != 0.0
    requires |coral| == |cfg.prod| && |epsilon| == |cfg.prod|
    requires WellFormed(c, |cfg.prod|) && layID < |c.layers|
  {
    var production := StepProduction(cfg, coral, epsilon);
    var sh := ClasticInput(sedh, cfg.dt);
    Accrete(c, layID, production, sh, ero, FitFraction(c.topH - sh, Sum(production)))
  }

  /** The fraction the step computes is the one the scaled regime needs. */
  lemma FitFractionFits(c: Core, production: seq<real>, sh: real)
    ensures FitsRoom(c, production, sh, FitFraction(c.topH - sh, Sum(production)))
  {
    if Sum(production) != 0.0 {
      QuotientTimes(c.topH - sh, Sum(production));
    }
  }

  /** The step is the regime applied to its own production, clastic input and fraction. */
  lemma StepIsAccrete(cfg: Config, c: Core, layID: nat, coral: seq<real>, epsilon: seq<real>, sedh: real, ero: real,
                      production: seq<real>, sh: real, frac: real)
    requires cfg.prodscale != 0.0
    requires |coral| == |cfg.prod| && |epsilon| == |cfg.prod|
    requires WellFormed(c, |cfg.prod|) && layID < |c.layers|
    requires production == StepProduction(cfg, coral, epsilon) && sh == ClasticInput(sedh, cfg.dt)
    requires frac == FitFraction(c.topH - sh, Sum(production))
    ensures Step(cfg, c, layID, coral, epsilon, sedh, ero) == Accrete(c, layID, production, sh, ero, frac)
  {
  }

  /**
   The invariants of the record across one step: with a valid configuration
   and non-negative population and clastic rate, every quantity stays
   non-negative, karst erosion never decreases, positive accommodation is
   never overfilled, and conservation carries over.
   */
  lemma StepKeepsInvariants(cfg: Config, c: Core, layID: nat, coral: seq<real>, epsilon: seq<real>, sedh: real, ero: real)
    requires ValidConfig(cfg)
    requires |coral| == |cfg.prod| && |epsilon| == |cfg.prod| && NonNegative(coral) && sedh >= 0.0
    requires WellFormed(c, |cfg.prod|) && layID < |c.layers|
    requires NonNegativeCore(c)
    ensures
      var r := Step(cfg, c, layID, coral, epsilon, sedh, ero);
      && NonNegativeCore(r)
      && (forall i :: 0 <= i < |c.layers| ==> r.layers[i].karst >= c.layers[i].karst)
      && (c.topH > 0.0 ==> r.topH >= 0.0)
      && (Balanced(c) ==> Balanced(r))
  {
    var production := StepProduction(cfg, coral, epsilon);
    var sh := ClasticInput(sedh, cfg.dt);
    var frac := FitFraction(c.topH - sh, Sum(production));
    StepIsAccrete(cfg, c, layID, coral, epsilon, sedh, ero, production, sh, frac);
    StepProductionBounds(cfg, coral, epsilon);
    FitFractionFits(c, production, sh);
    AccreteKeepsNonNegative(c, layID, production, sh, ero, frac);
    if Balanced(c) {
      StepConserves(cfg, c, layID, coral, epsilon, sedh, ero);
    }
  }

  /** Conservation carries over a step, whatever its inputs. */
  lemma StepConserves(cfg: Config, c: Core, layID: nat, coral: seq<real>, epsilon: seq<real>, sedh: real, ero: real)
    requires cfg.prodscale != 0.0
    requires |coral| == |cfg.prod| && |epsilon| == |cfg.prod|
    requires WellFormed(c, |cfg.prod|) && layID < |c.layers|
    requires Balanced(c)
    ensures Balanced(Step(cfg, c, layID, coral, epsilon, sedh, ero))
  {
    var production := StepProduction(cfg, coral, epsilon);
    var sh := ClasticInput(sedh, cfg.dt);
    var frac := FitFraction(c.topH - sh, Sum(production));
    StepIsAccrete(cfg, c, layID, coral, epsilon, sedh, ero, production, sh, frac);
    AccreteConserves(c, layID, production, sh, ero, frac);
  }

  /** No population, no clastic input and no erosion leave the record unchanged. */
  lemma StepZeroInputs(cfg: Config, c: Core, layID: nat, coral: seq<real>, epsilon: seq<real>)
    requires ValidConfig(cfg)
    requires |coral| == |cfg.prod| && |epsilon| == |cfg.prod|
    requires WellFormed(c, |cfg.prod|) && layID < |c.layers|
    requires forall s :: 0 <= s < |coral| ==> coral[s] == 0.0
    ensures Step(cfg, c, layID, coral, epsilon, 0.0, 0.0) == c
  {
    var production := StepProduction(cfg, coral, epsilon);
    var sh := ClasticInput(0.0, cfg.dt);
    var frac := FitFraction(c.topH - sh, Sum(production));
    ZeroPopulationProducesNothing(cfg, coral, epsilon);
    StepIsAccrete(cfg, c, layID, coral, epsilon, 0.0, 0.0, production, sh, frac);
    AccreteZeroInputs(c, layID, production, frac);
  }
}
