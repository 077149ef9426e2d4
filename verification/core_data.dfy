/**
 The core record of pyReefCore (class coreData): per-layer thickness, the
 per-species deposit matrix with its extra clastic row, karst erosion and the
 accommodation `topH`, updated in place by the accretion step
 `CoralProduction`, which is proved to follow AccretionStep.Step.
 */
module CoreData {
  import opened RealSeq
  import opened Production
  import opened RealArith
  import opened Accretion
  import opened AccretionStep

  /** Python's `int()` of a float: truncation toward zero. */
  function Truncate(x: real): (n: int)
    ensures x >= 0.0 ==> n as real <= x < n as real + 1.0
    ensures x < 0.0 ==> n as real - 1.0 < x <= n as real
  {
    if x >= 0.0 then x.Floor else -((-x).Floor)
  }

  /** Number of layers: one per `laytime` of simulated time between `tStart` and `tEnd`, plus one. */
  function LayerCount(tStart: real, tEnd: real, laytime: real): (n: int)
    requires laytime != 0.0
  {
    Truncate((tEnd - tStart) / laytime) + 1
  }

  class CoreRecord {
    /** Carbonate time step `tCarb`. */
    const dt: real
    /** Maximum production rate of each species. */
    const prod: seq<real>
    /** Divisor applied to production. */
    const prodscale: real
    /** Number of layers. */
    const layNb: nat

    /** Accommodation left above the top of the core. */
    var topH: real
    /** Net thickness of each layer. */
    const thickness: array<real>
    /** Height deposited by each species (rows 0 .. |prod|-1) and by clastics (row |prod|), per layer. */
    const coralH: array2<real>
    /** Thickness removed from each layer by karst erosion. */
    const karstero: array<real>

    function Cfg(): Config
    {
      Config(prod, dt, prodscale)
    }

    /** Array dimensions as set up by the constructor. */
    ghost predicate Shape()
    {
      thickness.Length == layNb && karstero.Length == layNb && thickness != karstero &&
      coralH.Length0 == |prod| + 1 && coralH.Length1 == layNb
    }

    /** Column `k` of the deposit matrix: the slots of layer `k`. */
    ghost function Column(k: nat): (col: seq<real>)
      reads coralH
      requires k < coralH.Length1
      ensures |col| == coralH.Length0
      ensures forall j :: 0 <= j < coralH.Length0 ==> col[j] == coralH[j, k]
    {
      seq(coralH.Length0, j requires 0 <= j < coralH.Length0 reads coralH => coralH[j, k])
    }

    /** The record as a value of the reference model. */
    ghost function State(): (c: Core)
      reads this, thickness, coralH, karstero
      requires Shape()
      ensures |c.layers| == layNb && c.topH == topH
      ensures forall k :: 0 <= k < layNb ==> c.layers[k] == Layer(thickness[k], Column(k), karstero[k])
    {
      Core(topH, seq(layNb, k requires 0 <= k < layNb && Shape() reads thickness, coralH, karstero =>
        Layer(thickness[k], Column(k), karstero[k])))
    }

    /** The arrays have their shapes and production can be scaled. */
    ghost predicate Valid()
    {
      Shape() && prodscale != 0.0
    }

    /** The record equals `Core(topH, ls)` when `ls` agrees with the arrays layer by layer. */
    lemma StateIs(ls: seq<Layer>)
      requires Shape() && |ls| == layNb
      requires forall k :: 0 <= k < layNb ==>
        ls[k].thickness == thickness[k] && ls[k].karst == karstero[k] && ls[k].slots == Column(k)
      ensures State() == Core(topH, ls)
    {
    }

    /**
     A record with zero-filled arrays and `topH` at the initial depth
     (coreData.__init__); the layer count is `int((tEnd - tStart)/laytime) + 1`.
     */
    constructor (depth0: real, speciesProduction: seq<real>, tStart: real, tEnd: real, laytime: real,
                 tCarb: real, prodscale: real)
      requires laytime != 0.0 && LayerCount(tStart, tEnd, laytime) >= 0 && prodscale != 0.0
      ensures Valid() && fresh(thickness) && fresh(coralH) && fresh(karstero)
      ensures layNb == LayerCount(tStart, tEnd, laytime)
      ensures prod == speciesProduction && dt == tCarb && this.prodscale == prodscale
      ensures State() == Core(depth0, seq(layNb, k => Layer(0.0, Zeros(|speciesProduction| + 1), 0.0)))
      ensures NonNegativeCore(State()) && Balanced(State())
    {
      dt := tCarb;
      topH := depth0;
      prod := speciesProduction;
      var n := LayerCount(tStart, tEnd, laytime);
      layNb := n;
      thickness := new real[n](_ => 0.0);
      coralH := new real[|speciesProduction| + 1, n]((_, _) => 0.0);
      karstero := new real[n](_ => 0.0);
      this.prodscale := prodscale;
      new;
      SumZeros(|speciesProduction| + 1);
      assert forall k :: 0 <= k < n ==> Column(k) == Zeros(|speciesProduction| + 1);
      StateIs(seq(layNb, k => Layer(0.0, Zeros(|speciesProduction| + 1), 0.0)));
    }

    /** `coralH[j,k] -= perc*coralH[j,k]` for every slot `j` of layer `k`. */
    method ShrinkColumn(k: nat, perc: real)
      requires Shape() && k < layNb
      modifies coralH
      ensures Column(k) == Shrunk(old(Column(k)), perc)
      ensures forall i :: 0 <= i < layNb && i != k ==> Column(i) == old(Column(i))
    {
      for j := 0 to coralH.Length0
        invariant forall j', i :: 0 <= j' < coralH.Length0 && 0 <= i < layNb ==>
          coralH[j', i] == if i == k && j' < j then old(coralH[j', i]) - perc * old(coralH[j', i]) else old(coralH[j', i])
      {
        coralH[j, k] := coralH[j, k] - perc * coralH[j, k];
      }
      assert forall j :: 0 <= j < coralH.Length0 ==> Column(k)[j] == Shrunk(old(Column(k)), perc)[j];
      forall i | 0 <= i < layNb && i != k
        ensures Column(i) == old(Column(i))
      {
        assert forall j :: 0 <= j < coralH.Length0 ==> Column(i)[j] == old(Column(i))[j];
      }
    }

    /** `coralH[:,k] = 0.` */
    method ClearColumn(k: nat)
      requires Shape() && k < layNb
      modifies coralH
      ensures Column(k) == Zeros(coralH.Length0)
      ensures forall i :: 0 <= i < layNb && i != k ==> Column(i) == old(Column(i))
    {
      forall j | 0 <= j < coralH.Length0 {
        coralH[j, k] := 0.0;
      }
      forall i | 0 <= i < layNb && i != k
        ensures Column(i) == old(Column(i))
      {
        assert forall j :: 0 <= j < coralH.Length0 ==> Column(i)[j] == old(Column(i))[j];
      }
    }

    /**
     Deposition into layer `layID`: species slots grow by `production`, the
     clastic slot by `sh`, the thickness by their total, which `topH` loses.
     */
    method DepositInto(layID: nat, production: seq<real>, sh: real)
      requires Shape() && layID < layNb && |production| == |prod|
      modifies this, thickness, coralH
      ensures State() == Deposit(old(State()), layID, production, sh)
    {
      ghost var before := State();
      forall j | 0 <= j < |prod| {
        coralH[j, layID] := coralH[j, layID] + production[j];
      }
      coralH[|prod|, layID] := coralH[|prod|, layID] + sh;
      var toth := Sum(production) + sh;
      thickness[layID] := thickness[layID] + toth;
      topH := topH - toth;
      var after := Deposit(before, layID, production, sh);
      forall i | 0 <= i < layNb
        ensures after.layers[i].slots == Column(i)
      {
        assert forall j :: 0 <= j < coralH.Length0 ==> Column(i)[j] == after.layers[i].slots[j];
      }
      StateIs(after.layers);
    }

    /**
     The karst erosion back-pass: layers `layID` down to 0 are visited while
     demand `remero` is left; a layer thicker than the demand shrinks
     proportionally by it, any other layer is removed whole, and each
     removed thickness goes into `karstero` and back into `topH`.
     */
    method ErosionPass(layID: nat, ero: real)
      requires Shape() && layID < layNb
      modifies this, thickness, coralH, karstero
      ensures State() == Erode(old(State()), layID, -ero)
    {
      ghost var target := Erode(State(), layID, -ero);
      var remero := -ero;
      var k: int := layID;
      while k >= 0
        invariant -1 <= k <= layID
        invariant Erode(State(), k, remero) == target
      {
        if remero <= 0.0 {
          break;
        }
        ghost var visited, demand := State(), remero;
        remero := ErodeOneLayer(k, remero);
        assert State() == Visit(visited, k, demand);
        assert Erode(visited, k, demand) == Erode(State(), k - 1, remero);
        k := k - 1;
      }
    }

    /**
     One visited layer of the back-pass with remaining demand `remero > 0`;
     returns the demand left for the older layers.
     */
    method ErodeOneLayer(k: nat, remero: real) returns (rest: real)
      requires Shape() && k < layNb && remero > 0.0
      modifies this, thickness, coralH, karstero
      ensures rest == remero - Removed(old(State()).layers[k], remero)
      ensures State() == Visit(old(State()), k, remero)
    {
      ghost var before := State();
      ghost var eroded := ErodeLayer(before.layers[k], remero);
      rest := remero;
      if thickness[k] > rest {
        var perc := Quotient(rest, thickness[k]);
        thickness[k] := thickness[k] - rest;
        karstero[k] := karstero[k] + rest;
        topH := topH + rest;
        ShrinkColumn(k, perc);
        rest := 0.0;
      } else {
        rest := rest - thickness[k];
        karstero[k] := karstero[k] + thickness[k];
        ClearColumn(k);
        topH := topH + thickness[k];
        thickness[k] := 0.0;
      }
      StateIs(before.layers[k := eroded]);
    }

    /** All the room left is filled by clastics: the clastic slot and the layer grow by `topH`, which becomes 0. */
    method FillWithClastics(layID: nat)
      requires Shape() && layID < layNb
      modifies this, thickness, coralH
      ensures State() == ClasticFill(old(State()), layID)
    {
      ghost var after := ClasticFill(State(), layID);
      coralH[|prod|, layID] := coralH[|prod|, layID] + topH;
      thickness[layID] := thickness[layID] + topH;
      topH := 0.0;
      forall i | 0 <= i < layNb
        ensures after.layers[i].slots == Column(i)
      {
        assert forall j :: 0 <= j < coralH.Length0 ==> Column(i)[j] == after.layers[i].slots[j];
      }
      StateIs(after.layers);
    }

    /**
     One time step of coreData.coralProduction on layer `layID`, given the
     species population `coral`, the intrinsic rates `epsilon`, the clastic
     input rate `sedh` and the karst erosion demand `ero`.
     */
    method CoralProduction(layID: nat, coral: seq<real>, epsilon: seq<real>, sedh: real, ero: real)
      requires Valid() && layID < layNb
      requires |coral| == |prod| && |epsilon| == |prod|
      modifies this, thickness, coralH, karstero
      ensures Valid()
      ensures State() == Step(Cfg(), old(State()), layID, coral, epsilon, sedh, ero)
      ensures old(Balanced(State())) ==> Balanced(State())
      ensures ValidConfig(Cfg()) && NonNegative(coral) && sedh >= 0.0 && old(NonNegativeCore(State())) ==>
        && NonNegativeCore(State())
        && (forall k :: 0 <= k < layNb ==> karstero[k] >= old(karstero[k]))
        && (old(topH) > 0.0 ==> topH >= 0.0)
    {
      ghost var start := State();
      var production := StepProduction(Cfg(), coral, epsilon);
      var sh := ClasticInput(sedh, dt);
      var toth := Sum(production) + sh;
      ghost var fit := FitFraction(start.topH - sh, Sum(production));

      if topH < 0.0 && ero == 0.0 {
        // no accommodation and no erosion: nothing changes
      } else if topH < 0.0 && ero < 0.0 {
        ErosionPass(layID, ero);
      } else if topH > 0.0 && topH - sh < 0.0 {
        FillWithClastics(layID);
      } else if topH > 0.0 && topH - toth < 0.0 {
        var maxcarbh := topH - sh;
        var frac := Quotient(maxcarbh, Sum(production));
        assert frac == fit;
        ScaledRegime(start, layID, production, sh, ero, frac);
        DepositInto(layID, Scaled(production, frac), sh);
      } else if topH > 0.0 {
        DepositInto(layID, production, sh);
      }
      assert State() == Accrete(start, layID, production, sh, ero, fit);

      StepIsAccrete(Cfg(), start, layID, coral, epsilon, sedh, ero, production, sh, fit);
      if ValidConfig(Cfg()) && NonNegative(coral) && sedh >= 0.0 && NonNegativeCore(start) {
        StepKeepsInvariants(Cfg(), start, layID, coral, epsilon, sedh, ero);
      } else if Balanced(start) {
        StepConserves(Cfg(), start, layID, coral, epsilon, sedh, ero);
      }
    }
  }
}
