/**
 Carbonate production of one time step (coreData.coralProduction, first part):
 each species with a positive intrinsic rate produces in proportion to its
 population, capped at its maximum production for the step.
 */
module Production {
  import opened RealSeq
  import opened RealArith

  /**
   The configuration fixed when the core is built: the per-species maximum
   production rate `prod`, the carbonate time step `dt` and the production
   scaling divisor `prodscale`.
   */
  datatype Config = Config(prod: seq<real>, dt: real, prodscale: real)

  /** What a usable configuration satisfies: non-negative rates and step, positive divisor. */
  predicate ValidConfig(cfg: Config)
  {
    cfg.prodscale > 0.0 && cfg.dt >= 0.0 && NonNegative(cfg.prod)
  }

  /**
   Production of one species: `prod*coral*dt/prodscale` when its intrinsic
   rate `epsilon` is positive and 0 otherwise, then clamped from above by the
   maximum production `prod*dt`.
   */
  function SpeciesProduction(prod: real, coral: real, epsilon: real, dt: real, prodscale: real): (r: real)
    requires prodscale != 0.0
    ensures r <= prod * dt
    ensures r <= (if epsilon > 0.0 then prod * coral * dt / prodscale else 0.0)
    ensures r == prod * dt || r == (if epsilon > 0.0 then prod * coral * dt / prodscale else 0.0)
  {
    var raw := if epsilon > 0.0 then prod * coral * dt / prodscale else 0.0;
    if raw > prod * dt then prod * dt else raw
  }

  /** A species that is not viable this step (epsilon <= 0) produces nothing. */
  lemma NonViableProducesNothing(prod: real, coral: real, epsilon: real, dt: real, prodscale: real)
    requires prodscale != 0.0 && prod >= 0.0 && dt >= 0.0 && epsilon <= 0.0
    ensures SpeciesProduction(prod, coral, epsilon, dt, prodscale) == 0.0
  {
    MulNonNegative(prod, dt);
  }

  /** With non-negative inputs a species produces between 0 and its maximum `prod*dt`. */
  lemma SpeciesProductionBounds(prod: real, coral: real, epsilon: real, dt: real, prodscale: real)
    requires prodscale > 0.0 && prod >= 0.0 && coral >= 0.0 && dt >= 0.0
    ensures 0.0 <= SpeciesProduction(prod, coral, epsilon, dt, prodscale) <= prod * dt
  {
    ProductionNonNegative(prod, coral, dt, prodscale);
  }

  /** Clastic input of the step: the rate `sedh` over the time step `dt`. */
  function ClasticInput(sedh: real, dt: real): (sh: real)
    ensures sedh >= 0.0 && dt >= 0.0 ==> sh >= 0.0
  {
    sedh * dt
  }

  /** The production vector of the step, one entry per species. */
  function StepProduction(cfg: Config, coral: seq<real>, epsilon: seq<real>): (p: seq<real>)
    requires cfg.prodscale != 0.0
    requires |coral| == |cfg.prod| && |epsilon| == |cfg.prod|
    ensures |p| == |cfg.prod|
    ensures forall s :: 0 <= s < |p| ==>
      p[s] == SpeciesProduction(cfg.prod[s], coral[s], epsilon[s], cfg.dt, cfg.prodscale)
  {
    seq(|coral|, s requires 0 <= s < |coral| =>
      SpeciesProduction(cfg.prod[s], coral[s], epsilon[s], cfg.dt, cfg.prodscale))
  }

  /**
   Under a valid configuration and a non-negative population every species'
   production lies in [0, prod*dt], and non-viable species produce 0.
   */
  lemma StepProductionBounds(cfg: Config, coral: seq<real>, epsilon: seq<real>)
    requires ValidConfig(cfg)
    requires |coral| == |cfg.prod| && |epsilon| == |cfg.prod| && NonNegative(coral)
    ensures NonNegative(StepProduction(cfg, coral, epsilon))
    ensures forall s :: 0 <= s < |cfg.prod| ==> StepProduction(cfg, coral, epsilon)[s] <= cfg.prod[s] * cfg.dt
    ensures forall s :: 0 <= s < |cfg.prod| && epsilon[s] <= 0.0 ==> StepProduction(cfg, coral, epsilon)[s] == 0.0
  {
    var p := StepProduction(cfg, coral, epsilon);
    forall s | 0 <= s < |cfg.prod|
      ensures 0.0 <= p[s] <= cfg.prod[s] * cfg.dt
      ensures epsilon[s] <= 0.0 ==> p[s] == 0.0
    {
      SpeciesProductionBounds(cfg.prod[s], coral[s], epsilon[s], cfg.dt, cfg.prodscale);
      if epsilon[s] <= 0.0 {
        NonViableProducesNothing(cfg.prod[s], coral[s], epsilon[s], cfg.dt, cfg.prodscale);
      }
    }
  }

  /** A population of zeros produces nothing at all. */
  lemma ZeroPopulationProducesNothing(cfg: Config, coral: seq<real>, epsilon: seq<real>)
    requires ValidConfig(cfg)
    requires |coral| == |cfg.prod| && |epsilon| == |cfg.prod|
    requires forall s :: 0 <= s < |coral| ==> coral[s] == 0.0
    ensures StepProduction(cfg, coral, epsilon) == Zeros(|cfg.prod|)
  {
    var p := StepProduction(cfg, coral, epsilon);
    forall s | 0 <= s < |p|
      ensures p[s] == 0.0
    {
      assert cfg.prod[s] * coral[s] == 0.0;
      MulNonNegative(cfg.prod[s], cfg.dt);
    }
  }
}
