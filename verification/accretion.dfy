/**
 Reference model of one accretion/erosion step (coreData.coralProduction) as a
 function on a value of the core record, with the properties each of its five
 regimes promises. The class CoreData.CoreRecord is proved to follow it.
 */
module Accretion {
  import opened RealSeq
  import opened Production
  import opened RealArith

  /**
   One stratigraphic layer: its net thickness, the height deposited by each
   species followed by one clastic slot, and the thickness karst erosion
   has removed from it.
   */
  datatype Layer = Layer(thickness: real, slots: seq<real>, karst: real)

  /** The core record: the accommodation left above the top (`topH`) and the layers, oldest first. */
  datatype Core = Core(topH: real, layers: seq<Layer>)

  /** Every layer has one slot per species plus the clastic slot. */
  predicate WellFormed(c: Core, species: nat)
  {
    forall i :: 0 <= i < |c.layers| ==> |c.layers[i].slots| == species + 1
  }

  /** Thicknesses, deposits and karst erosion are all non-negative. */
  predicate NonNegativeCore(c: Core)
  {
    forall i :: 0 <= i < |c.layers| ==>
      c.layers[i].thickness >= 0.0 && c.layers[i].karst >= 0.0 && NonNegative(c.layers[i].slots)
  }

  /** Conservation: the slots of each layer add up to its thickness. */
  predicate Balanced(c: Core)
  {
    forall i :: 0 <= i < |c.layers| ==> Sum(c.layers[i].slots) == c.layers[i].thickness
  }

  /**
   `frac` is the scale factor of the scaled regime: whenever carbonate and
   clastics together overfill a positive room, it shrinks production to fill
   exactly what the clastics leave.
   */
  predicate FitsRoom(c: Core, production: seq<real>, sh: real, frac: real)
  {
    c.topH > 0.0 && c.topH - sh >= 0.0 && c.topH - (Sum(production) + sh) < 0.0 ==>
      frac * Sum(production) == c.topH - sh
  }

  /** Total thickness of the layers `0 .. n-1`. */
  function TotalThickness(ls: seq<Layer>, n: nat): (t: real)
    requires n <= |ls|
  {
    if n == 0 then 0.0 else TotalThickness(ls, n - 1) + ls[n - 1].thickness
  }

  function Min(a: real, b: real): (m: real)
  {
    if a <= b then a else b
  }

  // ---------------------------------------------------------------------------
  // Deposition regimes

  /**
   Deposition into layer `layID`: each species slot grows by its production,
   the clastic slot by `sh`, the layer thickness by the total `toth`, and the
   accommodation shrinks by `toth`.
   */
  function Deposit(c: Core, layID: nat, production: seq<real>, sh: real): (r: Core)
    requires layID < |c.layers| && |c.layers[layID].slots| == |production| + 1
  {
    var l := c.layers[layID];
    var toth := Sum(production) + sh;
    Core(c.topH - toth, c.layers[layID := Layer(l.thickness + toth, Plus(l.slots, production + [sh]), l.karst)])
  }

  /** Accommodation filled by clastics alone: the clastic slot and the thickness grow by `topH`, which becomes 0. */
  function ClasticFill(c: Core, layID: nat): (r: Core)
    requires layID < |c.layers| && |c.layers[layID].slots| > 0
  {
    var l := c.layers[layID];
    var clastic := |l.slots| - 1;
    Core(0.0, c.layers[layID := Layer(l.thickness + c.topH, l.slots[clastic := l.slots[clastic] + c.topH], l.karst)])
  }

  // ---------------------------------------------------------------------------
  // Erosion back-pass

  /** Thickness the pass removes from layer `l` with a remaining demand `remero`. */
  function Removed(l: Layer, remero: real): (removed: real)
  {
    if l.thickness > remero then remero else l.thickness
  }

  /**
   One visited layer: if it is thicker than the demand, every slot shrinks by
   the fraction `remero/thickness` and the demand is moved into karst erosion;
   otherwise the whole layer goes into karst erosion and its slots are zeroed.
   */
  function ErodeLayer(l: Layer, remero: real): (r: Layer)
    requires remero > 0.0
  {
    if l.thickness > remero then
      Layer(l.thickness - remero, Shrunk(l.slots, Quotient(remero, l.thickness)), l.karst + remero)
    else
      Layer(0.0, Zeros(|l.slots|), l.karst + l.thickness)
  }

  /** The record after the pass visits layer `k`: the layer is eroded and what it loses goes back to `topH`. */
  function Visit(c: Core, k: nat, remero: real): (r: Core)
    requires k < |c.layers| && remero > 0.0
  {
    Core(c.topH + Removed(c.layers[k], remero), c.layers[k := ErodeLayer(c.layers[k], remero)])
  }

  /**
   The backward pass over layers `k, k-1, .., 0` with remaining demand
   `remero`; it stops as soon as the demand is met, and drops whatever demand
   is left after layer 0. Each removed thickness is given back to `topH`.
   */
  function Erode(c: Core, k: int, remero: real): (r: Core)
    requires -1 <= k < |c.layers|
    ensures |r.layers| == |c.layers|
    ensures forall i :: 0 <= i < |c.layers| ==> |r.layers[i].slots| == |c.layers[i].slots|
    ensures forall i :: k < i < |c.layers| ==> r.layers[i] == c.layers[i]
    decreases k + 1
  {
    if k < 0 || remero <= 0.0 then c
    else Erode(Visit(c, k, remero), k - 1, remero - Removed(c.layers[k], remero))
  }

  // ---------------------------------------------------------------------------
  // The step

  /**
   The regimes of one step on layer `layID`, given this step's production
   vector, clastic input `sh` and karst erosion `ero`; exactly one applies,
   taken in the source's order. `frac` is the factor by which the scaled
   regime shrinks production so that it fits the room the clastics leave;
   the step computes it as `(topH - sh) / sum(production)` (see
   AccretionStep.Step).
   */
  function Accrete(c: Core, layID: nat, production: seq<real>, sh: real, ero: real, frac: real): (r: Core)
    requires WellFormed(c, |production|) && layID < |c.layers|
    ensures |r.layers| == |c.layers|
    ensures forall i :: 0 <= i < |c.layers| ==> |r.layers[i].slots| == |c.layers[i].slots|
  {
    var toth := Sum(production) + sh;
    if c.topH < 0.0 && ero == 0.0 then c
    else if c.topH < 0.0 && ero < 0.0 then Erode(c, layID, -ero)
    else if c.topH > 0.0 && c.topH - sh < 0.0 then ClasticFill(c, layID)
    else if c.topH > 0.0 && c.topH - toth < 0.0 then Deposit(c, layID, Scaled(production, frac), sh)
    else if c.topH > 0.0 then Deposit(c, layID, production, sh)
    else c
  }

  // ---------------------------------------------------------------------------
  // Properties of the erosion pass

  lemma {:induction false} TotalThicknessNonNegative(ls: seq<Layer>, n: nat)
    requires n <= |ls|
    requires forall i :: 0 <= i < |ls| ==> ls[i].thickness >= 0.0
    ensures TotalThickness(ls, n) >= 0.0
  {
    if n > 0 {
      TotalThicknessNonNegative(ls, n - 1);
    }
  }

  /** With non-negative thicknesses the total grows with `n` and bounds each of its layers. */
  lemma {:induction false} TotalThicknessMonotone(ls: seq<Layer>, m: nat, n: nat)
    requires m <= n <= |ls|
    requires forall i :: 0 <= i < |ls| ==> ls[i].thickness >= 0.0
    ensures TotalThickness(ls, m) <= TotalThickness(ls, n)
    ensures forall i :: m <= i < n ==> ls[i].thickness <= TotalThickness(ls, n)
    decreases n
  {
    if m < n {
      TotalThicknessMonotone(ls, m, n - 1);
      TotalThicknessNonNegative(ls, n - 1);
    }
  }

  /** The total over the first `n` layers only depends on those layers. */
  lemma {:induction false} TotalThicknessPrefix(ls: seq<Layer>, ls': seq<Layer>, n: nat)
    requires n <= |ls| && n <= |ls'|
    requires forall i :: 0 <= i < n ==> ls[i].thickness == ls'[i].thickness
    ensures TotalThickness(ls, n) == TotalThickness(ls', n)
  {
    if n > 0 {
      TotalThicknessPrefix(ls, ls', n - 1);
    }
  }

  /**
   Thickness accounting of one visited layer: the removed thickness is the
   smaller of the demand and the layer, and the layer loses exactly what its
   karst erosion gains.
   */
  lemma ErodeLayerThickness(l: Layer, remero: real)
    requires remero > 0.0 && l.thickness >= 0.0
    ensures Removed(l, remero) == Min(remero, l.thickness)
    ensures ErodeLayer(l, remero).thickness == l.thickness - Removed(l, remero) >= 0.0
    ensures ErodeLayer(l, remero).karst == l.karst + Removed(l, remero)
  {
  }

  /**
   A layer thicker than the demand shrinks proportionally: its thickness and
   every one of its slots keep the same fraction `1 - remero/thickness`; a
   layer no thicker than the demand is emptied, slots and thickness alike.
   */
  lemma ErodeLayerProportional(l: Layer, remero: real)
    requires remero > 0.0
    ensures l.thickness > remero ==>
      var keep := 1.0 - Quotient(remero, l.thickness);
      && ErodeLayer(l, remero).thickness == keep * l.thickness
      && ErodeLayer(l, remero).slots == Scaled(l.slots, keep)
    ensures l.thickness <= remero ==>
      ErodeLayer(l, remero).thickness == 0.0 && ErodeLayer(l, remero).slots == Zeros(|l.slots|)
  {
    if l.thickness > remero {
      var perc := Quotient(remero, l.thickness);
      QuotientTimes(remero, l.thickness);
      Complement(perc, l.thickness);
      forall j | 0 <= j < |l.slots|
        ensures Shrunk(l.slots, perc)[j] == Scaled(l.slots, 1.0 - perc)[j]
      {
        Complement(perc, l.slots[j]);
      }
    }
  }

  /**
   Slot accounting of one visited layer: the layer keeps its number of
   slots, its conservation and its non-negativity.
   */
  lemma ErodeLayerAccounting(l: Layer, remero: real)
    requires remero > 0.0 && l.thickness >= 0.0
    ensures |ErodeLayer(l, remero).slots| == |l.slots|
    ensures Sum(l.slots) == l.thickness ==> Sum(ErodeLayer(l, remero).slots) == ErodeLayer(l, remero).thickness
    ensures NonNegative(l.slots) ==> NonNegative(ErodeLayer(l, remero).slots)
  {
    if l.thickness > remero {
      var perc := Quotient(remero, l.thickness);
      DemandFraction(remero, l.thickness);
      SumShrunk(l.slots, perc);
      if NonNegative(l.slots) {
        ShrunkNonNegative(l.slots, perc);
      }
    } else {
      SumZeros(|l.slots|);
    }
  }

  /**
   The pass removes exactly `min(remero, thickness of layers 0..k)` and gives
   it back to the accommodation: the unmet rest of the demand is dropped.
   */
  lemma {:induction false} ErodeRaisesTop(c: Core, k: int, remero: real)
    requires -1 <= k < |c.layers| && remero >= 0.0
    requires forall i :: 0 <= i < |c.layers| ==> c.layers[i].thickness >= 0.0
    ensures Erode(c, k, remero).topH == c.topH + Min(remero, TotalThickness(c.layers, k + 1))
    decreases k + 1
  {
    TotalThicknessNonNegative(c.layers, k + 1);
    if k < 0 || remero <= 0.0 {
    } else {
      var l := c.layers[k];
      var removed := Removed(l, remero);
      ErodeLayerThickness(l, remero);
      var c' := Core(c.topH + removed, c.layers[k := ErodeLayer(l, remero)]);
      TotalThicknessPrefix(c.layers, c'.layers, k);
      TotalThicknessNonNegative(c.layers, k);
      ErodeRaisesTop(c', k - 1, remero - removed);
    }
  }

  /**
   Layers below the stopping point are untouched: a layer `i` under `k` whose
   younger layers `i+1 .. k` already hold the whole demand is left as it was.
   */
  lemma {:induction false} ErodeStopsEarly(c: Core, k: int, remero: real, i: nat)
    requires -1 <= k < |c.layers| && i <= k
    requires forall j :: 0 <= j < |c.layers| ==> c.layers[j].thickness >= 0.0
    requires remero <= TotalThickness(c.layers, k + 1) - TotalThickness(c.layers, i + 1)
    ensures Erode(c, k, remero).layers[i] == c.layers[i]
    decreases k + 1
  {
    if remero > 0.0 {
      var l := c.layers[k];
      var removed := Removed(l, remero);
      ErodeLayerThickness(l, remero);
      var c' := Core(c.topH + removed, c.layers[k := ErodeLayer(l, remero)]);
      if i == k {
        assert false;
      }
      assert Erode(c, k, remero) == Erode(c', k - 1, remero - removed);
      TotalThicknessMonotone(c'.layers, i + 1, k);
      TotalThicknessPrefix(c.layers, c'.layers, k);
      TotalThicknessPrefix(c.layers, c'.layers, i + 1);
      ErodeStopsEarly(c', k - 1, remero - removed, i);
    }
  }

  /**
   What `topH` regains is what the layers lose: the pass takes exactly
   `min(remero, thickness of layers 0..k)` out of those layers in total.
   */
  lemma {:induction false} ErodeRemoves(c: Core, k: int, remero: real)
    requires -1 <= k < |c.layers| && remero >= 0.0
    requires forall i :: 0 <= i < |c.layers| ==> c.layers[i].thickness >= 0.0
    ensures TotalThickness(Erode(c, k, remero).layers, k + 1)
         == TotalThickness(c.layers, k + 1) - Min(remero, TotalThickness(c.layers, k + 1))
    decreases k + 1
  {
    TotalThicknessNonNegative(c.layers, k + 1);
    if k >= 0 && remero > 0.0 {
      var l := c.layers[k];
      var removed := Removed(l, remero);
      ErodeLayerThickness(l, remero);
      var c' := Visit(c, k, remero);
      var r := Erode(c', k - 1, remero - removed);
      assert Erode(c, k, remero) == r;
      TotalThicknessPrefix(c.layers, c'.layers, k);
      TotalThicknessNonNegative(c.layers, k);
      TotalThicknessMonotone(c.layers, k, k + 1);
      ErodeRemoves(c', k - 1, remero - removed);
      assert r.layers[k] == c'.layers[k];
      assert TotalThickness(r.layers, k + 1) == TotalThickness(r.layers, k) + l.thickness - removed;
      assert TotalThickness(c.layers, k + 1) == TotalThickness(c.layers, k) + l.thickness;
    }
  }

  /**
   The other side of the stopping point: a visited layer `i` whose own
   thickness and that of the younger layers `i+1 .. k` are covered by the
   demand is emptied.
   */
  lemma {:induction false} ErodeEmptiesYounger(c: Core, k: int, remero: real, i: nat)
    requires i <= k < |c.layers|
    requires forall j :: 0 <= j < |c.layers| ==> c.layers[j].thickness >= 0.0
    requires remero >= TotalThickness(c.layers, k + 1) - TotalThickness(c.layers, i)
    ensures Erode(c, k, remero).layers[i].thickness == 0.0
    decreases k + 1
  {
    TotalThicknessMonotone(c.layers, i + 1, k + 1);
    if remero > 0.0 {
      var l := c.layers[k];
      var removed := Removed(l, remero);
      ErodeLayerThickness(l, remero);
      var c' := Visit(c, k, remero);
      assert Erode(c, k, remero) == Erode(c', k - 1, remero - removed);
      if i < k {
        TotalThicknessPrefix(c.layers, c'.layers, k);
        TotalThicknessPrefix(c.layers, c'.layers, i);
        TotalThicknessMonotone(c.layers, i, k);
        ErodeEmptiesYounger(c', k - 1, remero - removed, i);
      } else {
        assert c'.layers[k].thickness == 0.0;
      }
    }
  }

  /** Every visited layer that the demand covers, together with its younger layers, is emptied. */
  lemma ErodeEmptiesCovered(c: Core, k: int, remero: real)
    requires -1 <= k < |c.layers|
    requires forall j :: 0 <= j < |c.layers| ==> c.layers[j].thickness >= 0.0
    ensures forall i :: 0 <= i <= k && remero >= TotalThickness(c.layers, k + 1) - TotalThickness(c.layers, i) ==>
      Erode(c, k, remero).layers[i].thickness == 0.0
  {
    forall i | 0 <= i <= k && remero >= TotalThickness(c.layers, k + 1) - TotalThickness(c.layers, i)
      ensures Erode(c, k, remero).layers[i].thickness == 0.0
    {
      ErodeEmptiesYounger(c, k, remero, i);
    }
  }

  /** Every layer under the stopping point of the pass is left as it was. */
  lemma ErodeKeepsOlderLayers(c: Core, k: int, remero: real)
    requires -1 <= k < |c.layers|
    requires forall j :: 0 <= j < |c.layers| ==> c.layers[j].thickness >= 0.0
    ensures forall i :: 0 <= i <= k && remero <= TotalThickness(c.layers, k + 1) - TotalThickness(c.layers, i + 1) ==>
      Erode(c, k, remero).layers[i] == c.layers[i]
  {
    forall i | 0 <= i <= k && remero <= TotalThickness(c.layers, k + 1) - TotalThickness(c.layers, i + 1)
      ensures Erode(c, k, remero).layers[i] == c.layers[i]
    {
      ErodeStopsEarly(c, k, remero, i);
    }
  }

  /**
   A demand at least as large as the whole record down to layer 0 leaves
   every visited layer with zero thickness.
   */
  lemma {:induction false} ErodeExhausts(c: Core, k: int, remero: real)
    requires -1 <= k < |c.layers|
    requires forall j :: 0 <= j < |c.layers| ==> c.layers[j].thickness >= 0.0
    requires remero >= TotalThickness(c.layers, k + 1)
    ensures forall i :: 0 <= i <= k ==> Erode(c, k, remero).layers[i].thickness == 0.0
    decreases k + 1
  {
    TotalThicknessMonotone(c.layers, 0, k + 1);
    if k >= 0 && remero > 0.0 {
      TotalThicknessNonNegative(c.layers, k);
      var l := c.layers[k];
      var removed := Removed(l, remero);
      ErodeLayerThickness(l, remero);
      var c' := Core(c.topH + removed, c.layers[k := ErodeLayer(l, remero)]);
      TotalThicknessPrefix(c.layers, c'.layers, k);
      ErodeExhausts(c', k - 1, remero - removed);
    }
  }

  /**
   Layer by layer, the pass moves thickness into karst erosion: each layer's
   karst erosion grows by exactly what its thickness loses, thickness never
   grows and stays non-negative.
   */
  predicate ErodedFrom(c: Core, r: Core)
  {
    |r.layers| == |c.layers| &&
    forall i :: 0 <= i < |c.layers| ==>
      0.0 <= r.layers[i].thickness <= c.layers[i].thickness &&
      r.layers[i].karst - c.layers[i].karst == c.layers[i].thickness - r.layers[i].thickness
  }

  lemma {:induction false} ErodeMovesIntoKarst(c: Core, k: int, remero: real)
    requires -1 <= k < |c.layers|
    requires forall j :: 0 <= j < |c.layers| ==> c.layers[j].thickness >= 0.0
    ensures ErodedFrom(c, Erode(c, k, remero))
    decreases k + 1
  {
    if k >= 0 && remero > 0.0 {
      var l := c.layers[k];
      var removed := Removed(l, remero);
      ErodeLayerThickness(l, remero);
      var c' := Core(c.topH + removed, c.layers[k := ErodeLayer(l, remero)]);
      ErodeMovesIntoKarst(c', k - 1, remero - removed);
    }
  }

  /** The pass keeps every layer balanced and non-negative. */
  lemma {:induction false} ErodeKeepsInvariants(c: Core, k: int, remero: real)
    requires -1 <= k < |c.layers|
    requires NonNegativeCore(c)
    ensures NonNegativeCore(Erode(c, k, remero))
    ensures Balanced(c) ==> Balanced(Erode(c, k, remero))
    decreases k + 1
  {
    if k >= 0 && remero > 0.0 {
      var l := c.layers[k];
      var removed := Removed(l, remero);
      ErodeLayerThickness(l, remero);
      ErodeLayerAccounting(l, remero);
      var c' := Core(c.topH + removed, c.layers[k := ErodeLayer(l, remero)]);
      ErodeKeepsInvariants(c', k - 1, remero - removed);
    }
  }

  /** One visited layer stays balanced, whatever the sign of its thickness. */
  lemma ErodeLayerBalanced(l: Layer, remero: real)
    requires remero > 0.0 && Sum(l.slots) == l.thickness
    ensures Sum(ErodeLayer(l, remero).slots) == ErodeLayer(l, remero).thickness
  {
    if l.thickness > remero {
      var perc := Quotient(remero, l.thickness);
      DemandFraction(remero, l.thickness);
      SumShrunk(l.slots, perc);
    } else {
      SumZeros(|l.slots|);
    }
  }

  lemma {:induction false} ErodeBalanced(c: Core, k: int, remero: real)
    requires -1 <= k < |c.layers| && Balanced(c)
    ensures Balanced(Erode(c, k, remero))
    decreases k + 1
  {
    if k >= 0 && remero > 0.0 {
      var l := c.layers[k];
      var removed := Removed(l, remero);
      ErodeLayerBalanced(l, remero);
      var c' := Core(c.topH + removed, c.layers[k := ErodeLayer(l, remero)]);
      ErodeBalanced(c', k - 1, remero - removed);
    }
  }

  // ---------------------------------------------------------------------------
  // Properties of the step, regime by regime

  /** What a deposition does to layer `layID`, slot by slot; no other layer changes. */
  lemma DepositEffect(c: Core, layID: nat, production: seq<real>, sh: real)
    requires layID < |c.layers| && |c.layers[layID].slots| == |production| + 1
    ensures
      var r := Deposit(c, layID, production, sh);
      var l, l' := c.layers[layID], r.layers[layID];
      var clastic := |production|;
      && |r.layers| == |c.layers|
      && r.topH == c.topH - (Sum(production) + sh)
      && l'.thickness == l.thickness + (Sum(production) + sh)
      && |l'.slots| == |l.slots|
      && (forall s :: 0 <= s < clastic ==> l'.slots[s] == l.slots[s] + production[s])
      && l'.slots[clastic] == l.slots[clastic] + sh
      && l'.karst == l.karst
      && (forall i :: 0 <= i < |c.layers| && i != layID ==> r.layers[i] == c.layers[i])
  {
    var l := c.layers[layID];
    var added := production + [sh];
    forall s | 0 <= s < |production|
      ensures Plus(l.slots, added)[s] == l.slots[s] + production[s]
    {
      assert added[s] == production[s];
    }
  }

  /**
   No state change without room and without erosion (`topH < 0`, `ero >= 0`:
   for `ero > 0` no branch matches), and none when `topH` is exactly 0, since
   every deposition regime needs `topH > 0`.
   */
  lemma AccreteNoChange(c: Core, layID: nat, production: seq<real>, sh: real, ero: real, frac: real)
    requires WellFormed(c, |production|) && layID < |c.layers|
    requires (c.topH < 0.0 && ero >= 0.0) || c.topH == 0.0
    ensures Accrete(c, layID, production, sh, ero, frac) == c
  {
  }

  /**
   Room left but clastics alone fill it: the clastic slot and the layer grow
   by the old `topH`, `topH` becomes 0, species slots and other layers stay.
   */
  lemma AccreteClasticFill(c: Core, layID: nat, production: seq<real>, sh: real, ero: real, frac: real)
    requires WellFormed(c, |production|) && layID < |c.layers|
    requires c.topH > 0.0 && c.topH - sh < 0.0
    ensures
      var r := Accrete(c, layID, production, sh, ero, frac);
      var l, l' := c.layers[layID], r.layers[layID];
      var clastic := |production|;
      && r.topH == 0.0
      && l'.thickness == l.thickness + c.topH
      && l'.slots[clastic] == l.slots[clastic] + c.topH
      && (forall s :: 0 <= s < clastic ==> l'.slots[s] == l.slots[s])
      && l'.karst == l.karst
      && (forall i :: 0 <= i < |c.layers| && i != layID ==> r.layers[i] == c.layers[i])
  {
  }

  /**
   Carbonate and clastics together overfill the room: production is scaled by
   the fraction `frac` with `frac * sum(production) == topH - sh` (the
   source's `maxcarbh / production.sum()`, in [0, 1) by
   RealArith.FillFraction); species
   slots grow by the scaled production, the clastic slot by `sh`, the layer
   by exactly the old `topH`, and `topH` ends at 0.
   */
  lemma AccreteScaledFill(c: Core, layID: nat, production: seq<real>, sh: real, ero: real, frac: real)
    requires WellFormed(c, |production|) && layID < |c.layers|
    requires c.topH > 0.0 && c.topH - sh >= 0.0 && c.topH - (Sum(production) + sh) < 0.0
    requires frac * Sum(production) == c.topH - sh
    ensures
      var r := Accrete(c, layID, production, sh, ero, frac);
      var l, l' := c.layers[layID], r.layers[layID];
      var clastic := |production|;
      && r.topH == 0.0
      && l'.thickness == l.thickness + c.topH
      && (forall s :: 0 <= s < clastic ==> l'.slots[s] == l.slots[s] + frac * production[s])
      && l'.slots[clastic] == l.slots[clastic] + sh
      && l'.karst == l.karst
      && (forall i :: 0 <= i < |c.layers| && i != layID ==> r.layers[i] == c.layers[i])
  {
    ScaledRegime(c, layID, production, sh, ero, frac);
    ScaledDepositFills(c, layID, production, sh, frac);
  }

  lemma ScaledRegime(c: Core, layID: nat, production: seq<real>, sh: real, ero: real, frac: real)
    requires WellFormed(c, |production|) && layID < |c.layers|
    requires c.topH > 0.0 && c.topH - sh >= 0.0 && c.topH - (Sum(production) + sh) < 0.0
    ensures Accrete(c, layID, production, sh, ero, frac) == Deposit(c, layID, Scaled(production, frac), sh)
  {
  }

  /** A deposit of production scaled by `frac`, where `frac` makes it fill the room exactly. */
  lemma ScaledDepositFills(c: Core, layID: nat, production: seq<real>, sh: real, frac: real)
    requires WellFormed(c, |production|) && layID < |c.layers|
    requires frac * Sum(production) == c.topH - sh
    ensures
      var r := Deposit(c, layID, Scaled(production, frac), sh);
      var l, l' := c.layers[layID], r.layers[layID];
      var clastic := |production|;
      && r.topH == 0.0
      && l'.thickness == l.thickness + c.topH
      && (forall s :: 0 <= s < clastic ==> l'.slots[s] == l.slots[s] + frac * production[s])
      && l'.slots[clastic] == l.slots[clastic] + sh
      && l'.karst == l.karst
      && (forall i :: 0 <= i < |c.layers| && i != layID ==> r.layers[i] == c.layers[i])
  {
    SumScaled(production, frac);
    DepositEffect(c, layID, Scaled(production, frac), sh);
  }

  /**
   Room for everything: species slots grow by their production, the clastic
   slot by `sh`, the layer by `toth`, and `topH` drops by `toth` without
   going below 0; only layer `layID` changes.
   */
  lemma AccreteFullDeposit(c: Core, layID: nat, production: seq<real>, sh: real, ero: real, frac: real)
    requires WellFormed(c, |production|) && layID < |c.layers|
    requires c.topH > 0.0 && c.topH - sh >= 0.0 && c.topH - (Sum(production) + sh) >= 0.0
    ensures
      var toth := Sum(production) + sh;
      var r := Accrete(c, layID, production, sh, ero, frac);
      var l, l' := c.layers[layID], r.layers[layID];
      var clastic := |production|;
      && r.topH == c.topH - toth >= 0.0
      && l'.thickness == l.thickness + toth
      && (forall s :: 0 <= s < clastic ==> l'.slots[s] == l.slots[s] + production[s])
      && l'.slots[clastic] == l.slots[clastic] + sh
      && l'.karst == l.karst
      && (forall i :: 0 <= i < |c.layers| && i != layID ==> r.layers[i] == c.layers[i])
  {
    DepositEffect(c, layID, production, sh);
  }

  /**
   No room and erosion requested: the pass over layers `layID .. 0` removes
   exactly `min(-ero, thickness of layers 0..layID)` from those layers, and
   `topH` regains that amount; each layer's karst erosion grows by what its
   thickness loses; layers above `layID` and below the stopping point are
   untouched, the covered layers above the stopping point are emptied, and a
   demand larger than the record empties every visited layer.
   */
  lemma AccreteErosion(c: Core, layID: nat, production: seq<real>, sh: real, ero: real, frac: real)
    requires WellFormed(c, |production|) && layID < |c.layers|
    requires NonNegativeCore(c)
    requires c.topH < 0.0 && ero < 0.0
    ensures
      var r := Accrete(c, layID, production, sh, ero, frac);
      var total := TotalThickness(c.layers, layID + 1);
      && r.topH == c.topH + Min(-ero, total)
      && ErodedFrom(c, r)
      && (forall i :: layID < i < |c.layers| ==> r.layers[i] == c.layers[i])
      && TotalThickness(r.layers, layID + 1) == total - Min(-ero, total)
      && (forall i :: 0 <= i <= layID && -ero <= total - TotalThickness(c.layers, i + 1) ==> r.layers[i] == c.layers[i])
      && (forall i :: 0 <= i <= layID && -ero >= total - TotalThickness(c.layers, i) ==> r.layers[i].thickness == 0.0)
      && (-ero >= total ==> forall i :: 0 <= i <= layID ==> r.layers[i].thickness == 0.0)
  {
    ErosionRegime(c, layID, production, sh, ero, frac);
    ErodeSummary(c, layID, -ero);
  }

  lemma ErosionRegime(c: Core, layID: nat, production: seq<real>, sh: real, ero: real, frac: real)
    requires WellFormed(c, |production|) && layID < |c.layers|
    requires c.topH < 0.0 && ero < 0.0
    ensures Accrete(c, layID, production, sh, ero, frac) == Erode(c, layID, -ero)
  {
  }

  /** The facts about the pass that AccreteErosion states, for any starting layer `k`. */
  lemma ErodeSummary(c: Core, k: int, remero: real)
    requires -1 <= k < |c.layers| && remero >= 0.0
    requires NonNegativeCore(c)
    ensures
      var r := Erode(c, k, remero);
      var total := TotalThickness(c.layers, k + 1);
      && r.topH == c.topH + Min(remero, total)
      && ErodedFrom(c, r)
      && TotalThickness(r.layers, k + 1) == total - Min(remero, total)
      && (forall i :: 0 <= i <= k && remero <= total - TotalThickness(c.layers, i + 1) ==> r.layers[i] == c.layers[i])
      && (forall i :: 0 <= i <= k && remero >= total - TotalThickness(c.layers, i) ==> r.layers[i].thickness == 0.0)
      && (remero >= total ==> forall i :: 0 <= i <= k ==> r.layers[i].thickness == 0.0)
  {
    ErodeRaisesTop(c, k, remero);
    ErodeRemoves(c, k, remero);
    ErodeEmptiesCovered(c, k, remero);
    ErodeMovesIntoKarst(c, k, remero);
    ErodeKeepsOlderLayers(c, k, remero);
    if remero >= TotalThickness(c.layers, k + 1) {
      ErodeExhausts(c, k, remero);
    }
  }


  /**
   Conservation: if the slots of every layer add up to its thickness before
   the step, they still do after it, in every regime.
   */
  lemma AccreteConserves(c: Core, layID: nat, production: seq<real>, sh: real, ero: real, frac: real)
    requires WellFormed(c, |production|) && layID < |c.layers|
    requires Balanced(c)
    ensures Balanced(Accrete(c, layID, production, sh, ero, frac))
  {
    var toth := Sum(production) + sh;
    var l := c.layers[layID];
    if c.topH < 0.0 && ero == 0.0 {
    } else if c.topH < 0.0 && ero < 0.0 {
      ErodeBalanced(c, layID, -ero);
    } else if c.topH > 0.0 && c.topH - sh < 0.0 {
      SumUpdate(l.slots, |production|, l.slots[|production|] + c.topH);
    } else if c.topH > 0.0 && c.topH - toth < 0.0 {
      var scaled := Scaled(production, frac);
      SumSnoc(scaled, sh);
      SumPlus(l.slots, scaled + [sh]);
    } else if c.topH > 0.0 {
      SumSnoc(production, sh);
      SumPlus(l.slots, production + [sh]);
    }
  }

  /**
   With non-negative production and clastic input the step keeps every
   quantity non-negative, never decreases karst erosion, and never leaves
   a positive accommodation overfilled.
   */
  lemma AccreteKeepsNonNegative(c: Core, layID: nat, production: seq<real>, sh: real, ero: real, frac: real)
    requires WellFormed(c, |production|) && layID < |c.layers|
    requires NonNegativeCore(c) && NonNegative(production) && sh >= 0.0
    requires FitsRoom(c, production, sh, frac)
    ensures
      var r := Accrete(c, layID, production, sh, ero, frac);
      && NonNegativeCore(r)
      && (forall i :: 0 <= i < |c.layers| ==> r.layers[i].karst >= c.layers[i].karst)
      && (c.topH > 0.0 ==> r.topH >= 0.0)
  {
    var toth := Sum(production) + sh;
    if c.topH < 0.0 && ero == 0.0 {
    } else if c.topH < 0.0 && ero < 0.0 {
      ErodeKeepsInvariants(c, layID, -ero);
      ErodeMovesIntoKarst(c, layID, -ero);
    } else if c.topH > 0.0 && c.topH - sh < 0.0 {
      AccreteClasticFill(c, layID, production, sh, ero, frac);
    } else if c.topH > 0.0 && c.topH - toth < 0.0 {
      AccreteScaledFill(c, layID, production, sh, ero, frac);
      FillFraction(c.topH, sh, Sum(production), frac);
      ScaledNonNegative(production, frac);
      DepositKeepsNonNegative(c, layID, Scaled(production, frac), sh);
    } else if c.topH > 0.0 {
      AccreteFullDeposit(c, layID, production, sh, ero, frac);
      DepositKeepsNonNegative(c, layID, production, sh);
    }
  }

  /** A deposit of non-negative amounts keeps the record non-negative and leaves karst erosion alone. */
  lemma DepositKeepsNonNegative(c: Core, layID: nat, production: seq<real>, sh: real)
    requires WellFormed(c, |production|) && layID < |c.layers|
    requires NonNegativeCore(c) && NonNegative(production) && sh >= 0.0
    ensures NonNegativeCore(Deposit(c, layID, production, sh))
    ensures forall i :: 0 <= i < |c.layers| ==> Deposit(c, layID, production, sh).layers[i].karst == c.layers[i].karst
  {
    SumNonNegative(production);
    DepositEffect(c, layID, production, sh);
  }

  /**
   Zero production, zero clastic input and zero erosion leave the whole
   record unchanged.
   */
  lemma AccreteZeroInputs(c: Core, layID: nat, production: seq<real>, frac: real)
    requires WellFormed(c, |production|) && layID < |c.layers|
    requires production == Zeros(|production|)
    ensures Accrete(c, layID, production, 0.0, 0.0, frac) == c
  {
    SumZeros(|production|);
    if c.topH > 0.0 {
      var l := c.layers[layID];
      assert Plus(l.slots, production + [0.0]) == l.slots;
      assert c.layers[layID := l] == c.layers;
    }
  }
}
