# pyReefCore core record and accretion step, in Dafny

pyReefCore simulates how a carbonate reef core grows. The class `coreData`
holds the stratigraphic record of one core:

- `topH`, the accommodation space left above the top of the core;
- `thickness[layer]`, the net thickness of each layer;
- `coralH[species+1, layer]`, the height each species deposited in each layer, plus one clastic row;
- `karstero[layer]`, the thickness karst erosion removed from each layer.

Once per time step, `coralProduction` does two things:

- It turns the species populations into carbonate production, clamped at each species' maximum, and adds a clastic input `sedh*dt`.
- It applies exactly one of five regimes:
  - nothing happens;
  - a karst erosion pass runs backward from the current layer, consuming the erosion demand layer by layer;
  - clastics alone fill the remaining room;
  - production is scaled down so that it fills the room exactly;
  - everything is deposited.

The model has these modules:

- `RealArith`: the few non-linear facts the accounting needs.
- `RealSeq`: sums and the element-wise vector operations (numpy `sum`, `*=`, `-=`, `+=`, `[:] = 0.`).
- `Production`: the production of one step, as pure functions.
- `Accretion`: the step as a function `Accrete` on a value `Core`, and the properties of each regime.
  - A `Core` is `topH` plus a sequence of `Layer`s.
  - A `Layer` is its thickness, its slots (species deposits, then clastic) and its karst erosion.
  - The erosion pass is the recursive `Erode`; each of its steps is `Visit`.
- `AccretionStep`: `Step`, one whole call: production, then the clastic input `sh`, then the scale factor, then `Accrete`. It also proves the invariants of a step.
- `CoreData`: the class `CoreRecord`.
  - It holds the fields and arrays of `coreData`: `thickness` and `karstero` as `array<real>`, `coralH` as `array2<real>`.
  - `CoralProduction` updates them in place with the source's branches and loops.
  - `CoralProduction` is proved to leave `State() == Step(Cfg(), old(State()), ...)`.
- `Scenarios`: worked instances.
  - The boundary between the scaled and the full regime.
  - An erosion pass across two layers.
  - A demand larger than the whole record.

All quantities are `real`. Python's `int()` in the layer count truncates toward zero, and `Truncate` models it.

## Model

| member | source | states |
|---|---|---|
| CoreData.Truncate | pyReefCore/simulation/coreData.py:43 | `int()` of a float truncates toward zero: the result is within 1 of `x`, on the side of 0 |
| CoreData.CoreRecord.constructor | pyReefCore/simulation/coreData.py:33-46 | `dt`, `prod`, `prodscale` come from the input; there are `int((tEnd-tStart)/laytime)+1` layers; all arrays are zero, with `|prod|+1` rows in `coralH`; `topH` is the initial depth; the record starts non-negative and balanced |
| CoreData.CoreRecord.CoralProduction | pyReefCore/simulation/coreData.py:417-521 | the new record is `Step` of the old one; conservation carries over; with a valid configuration, non-negative population and non-negative clastic rate, the record stays non-negative, karst erosion never decreases, and positive room is never overfilled |
| CoreData.CoreRecord.ErosionPass | pyReefCore/simulation/coreData.py:461-482 | the backward loop over layers `layID..0`, with its `break` once the demand is met, leaves the record equal to `Erode` of the old record with demand `-ero` |
| CoreData.CoreRecord.ErodeOneLayer | pyReefCore/simulation/coreData.py:466-480 | one visited layer: the record becomes `Visit` of the old one, and the returned demand is the old demand minus what the layer lost |
| CoreData.CoreRecord.ShrinkColumn | pyReefCore/simulation/coreData.py:472-473 | the inner loop leaves column `k` equal to `Shrunk(old column, perc)`; every other column is unchanged |
| CoreData.CoreRecord.ClearColumn | pyReefCore/simulation/coreData.py:478 | column `k` becomes all zeros; every other column is unchanged |
| CoreData.CoreRecord.FillWithClastics | pyReefCore/simulation/coreData.py:487-491 | the record becomes `ClasticFill` of the old one |
| CoreData.CoreRecord.DepositInto | pyReefCore/simulation/coreData.py:502-519 | the record becomes `Deposit` of the old one with the given production and `sh`; the scaled regime (lines 502-508) and the full regime (lines 513-519) both use it |
| Production.SpeciesProduction | pyReefCore/simulation/coreData.py:441-446 | the result is at most `prod*dt`, and at most the raw rate when the species is viable; it equals one of the two, so it is exactly their minimum (0 for a non-viable species) |
| Production.NonViableProducesNothing | pyReefCore/simulation/coreData.py:442-443 | a species with `epsilon <= 0` produces exactly 0 |
| Production.SpeciesProductionBounds | pyReefCore/simulation/coreData.py:443-446 | with non-negative inputs, production lies in `[0, prod*dt]` |
| Production.StepProductionBounds | pyReefCore/simulation/coreData.py:441-446 | under a valid configuration and non-negative population, every entry lies in `[0, prod[s]*dt]`, and non-viable species give 0 |
| Production.ZeroPopulationProducesNothing | pyReefCore/simulation/coreData.py:441-446 | a zero population gives the zero production vector |
| Production.ClasticInput | pyReefCore/simulation/coreData.py:449 | the clastic input `sedh*dt` is non-negative for non-negative rate and step |
| Accretion.Erode | pyReefCore/simulation/coreData.py:461-482 | the pass keeps the number of layers and slots, and leaves layers above the start untouched |
| Accretion.ErodeLayerThickness | pyReefCore/simulation/coreData.py:466-480 | a visited layer loses `min(remero, thickness)`, stays non-negative, and its karst erosion gains exactly that amount |
| Accretion.ErodeLayerProportional | pyReefCore/simulation/coreData.py:467-480 | a layer thicker than the demand keeps the same fraction `1 - remero/thickness` of its thickness and of every slot; any other visited layer is emptied |
| Accretion.ErodeLayerAccounting | pyReefCore/simulation/coreData.py:466-480 | a visited layer keeps its slot count, its conservation (slots sum to thickness) and its non-negativity |
| Accretion.ErodeRaisesTop | pyReefCore/simulation/coreData.py:462-480 | the pass raises `topH` by exactly `min(demand, total thickness of layers 0..k)`; unmet demand is dropped |
| Accretion.ErodeRemoves | pyReefCore/simulation/coreData.py:462-480 | layers `0..k` lose exactly `min(demand, their total thickness)` in total, the amount `topH` regains |
| Accretion.ErodeEmptiesYounger | pyReefCore/simulation/coreData.py:463-474 | a visited layer whose thickness, with that of the younger visited layers, is covered by the demand ends at zero thickness |
| Accretion.ErodeEmptiesCovered | pyReefCore/simulation/coreData.py:463-474 | every visited layer covered by the demand in this sense is emptied |
| Accretion.ErodeStopsEarly | pyReefCore/simulation/coreData.py:463-474 | a layer whose younger visited layers already hold the whole demand is untouched |
| Accretion.ErodeKeepsOlderLayers | pyReefCore/simulation/coreData.py:463-474 | every layer below the stopping point is untouched |
| Accretion.ErodeExhausts | pyReefCore/simulation/coreData.py:463-480 | a demand at least the total thickness of layers `0..k` leaves every one of them at zero thickness |
| Accretion.ErodeMovesIntoKarst | pyReefCore/simulation/coreData.py:466-480 | layer by layer, karst erosion grows by exactly what thickness loses; thickness never grows and stays non-negative |
| Accretion.ErodeKeepsInvariants | pyReefCore/simulation/coreData.py:466-480 | the pass keeps the record non-negative, and keeps it balanced if it was |
| Accretion.ErodeLayerBalanced | pyReefCore/simulation/coreData.py:467-480 | one visited layer stays balanced whatever the sign of its thickness |
| Accretion.ErodeBalanced | pyReefCore/simulation/coreData.py:462-480 | the pass keeps every layer balanced, with no sign assumption |
| Accretion.ErodeSummary | pyReefCore/simulation/coreData.py:462-480 | the pass from any layer: the rise of `topH` and the equal loss of thickness from layers `0..k`, the karst accounting, the untouched older layers, the emptied covered younger layers, and the emptying on an excessive demand |
| Accretion.DepositEffect | pyReefCore/simulation/coreData.py:511-519 | a deposit adds production to each species slot and `sh` to the clastic slot, and adds `toth` to the thickness, which `topH` loses; other layers stay |
| Accretion.AccreteNoChange | pyReefCore/simulation/coreData.py:456-458 | no change when `topH < 0` and `ero >= 0`, and none when `topH == 0` |
| Accretion.AccreteClasticFill | pyReefCore/simulation/coreData.py:485-491 | the clastic slot and the thickness grow by the old `topH`, which becomes 0; species slots and other layers are unchanged |
| Accretion.ScaledDepositFills | pyReefCore/simulation/coreData.py:496-508 | scaled production that fills the room exactly brings `topH` to 0 and grows the layer by exactly the old `topH` |
| Accretion.AccreteScaledFill | pyReefCore/simulation/coreData.py:495-508 | species slots grow by `frac*production[s]` and the clastic slot by `sh`; the layer grows by exactly the old `topH`; `topH` ends at 0; other layers are unchanged |
| Accretion.AccreteFullDeposit | pyReefCore/simulation/coreData.py:511-519 | species slots grow by production and the clastic slot by `sh`; the layer grows by `toth`; `topH` drops by `toth` and stays non-negative; other layers are unchanged |
| Accretion.AccreteErosion | pyReefCore/simulation/coreData.py:461-482 | the erosion regime removes `min(-ero, thickness of layers 0..layID)` from those layers and raises `topH` by the same amount, moving thickness into karst erosion layer by layer; layers above `layID` and below the stopping point are untouched; covered layers above the stopping point are emptied, and an excessive demand empties layers `0..layID` |
| Accretion.AccreteConserves | pyReefCore/simulation/coreData.py:455-519 | conservation (slots sum to thickness in each layer) carries over every regime |
| Accretion.AccreteKeepsNonNegative | pyReefCore/simulation/coreData.py:455-519 | with non-negative inputs, every regime keeps the record non-negative, never decreases karst erosion, and never overfills positive room |
| Accretion.DepositKeepsNonNegative | pyReefCore/simulation/coreData.py:502-519 | a deposit of non-negative amounts keeps the record non-negative and leaves karst erosion alone |
| Accretion.AccreteZeroInputs | pyReefCore/simulation/coreData.py:441-519 | zero production, zero clastic input and zero erosion leave the record unchanged |
| AccretionStep.FitFractionFits | pyReefCore/simulation/coreData.py:496-497 | `frac = maxcarbh / production.sum()` makes scaled production fill the room the clastics leave exactly |
| AccretionStep.StepKeepsInvariants | pyReefCore/simulation/coreData.py:417-521 | a step keeps the record non-negative, never decreases karst erosion, never overfills positive room, and carries conservation over |
| AccretionStep.StepConserves | pyReefCore/simulation/coreData.py:417-521 | conservation carries over a step whatever its inputs |
| AccretionStep.StepZeroInputs | pyReefCore/simulation/coreData.py:417-521 | zero population, zero clastic rate and zero erosion leave the record unchanged |
| RealArith.FillFraction | pyReefCore/simulation/coreData.py:495-497 | in the scaled regime, production is positive and the fraction lies in `[0, 1)` |
| RealArith.DemandFraction | pyReefCore/simulation/coreData.py:467-468 | a demand smaller than the layer removes a fraction `perc` in `[0, 1]` with `perc*thickness == remero` |
| RealSeq.SumShrunk | pyReefCore/simulation/coreData.py:472-473 | shrinking every slot by `perc` of itself reduces their sum by `perc` of it |
| RealSeq.SumScaled | pyReefCore/simulation/coreData.py:498-499 | scaling production by `frac` scales its sum by `frac` |
| RealSeq.SumPlus | pyReefCore/simulation/coreData.py:502-506 | adding a vector to a column adds the sums |
| Scenarios.RegimeBoundary | pyReefCore/simulation/coreData.py:495-508 | room 1.0, clastics 0.5 and production 0.6 give `frac = 5/6`, a layer grown by exactly 1.0, and `topH` 0 |
| Scenarios.ErosionAcrossTwoLayers | pyReefCore/simulation/coreData.py:461-482 | demand 2.5 empties a 1.0 layer, then takes 1.5 of a 2.0 layer, keeping a quarter of each deposit; `topH` rises by 2.5 |
| Scenarios.ErosionExhaustsRecord | pyReefCore/simulation/coreData.py:461-482 | demand 4.0 against a 3.0 record empties both layers and raises `topH` by 3.0 |

## Left out

- Plotting and fuzzy membership curves (`_plot_fuzzy_curve`, `initialSetting`, coreData.py:91-415) and the whole of modelPlot.py. They produce figures, tables and files, and call a foreign fuzzy-logic library.
- The `verbose` print (coreData.py:452-453). It is output only.
- The constructor's environment arrays and function handles (coreData.py:49-59, 62-87), and `names`. `coralProduction` never reads them.
- Floating point. All quantities are exact reals, so conservation holds exactly, while the source holds it only up to rounding. The inf/NaN cases are not modelled, including a zero `prodscale`, which the model excludes by a precondition.
- Population dynamics and the environmental forcing that compute `coral`, `epsilon`, `sedh` and `ero`. They are parameters of `CoralProduction`.
- CoreData.CoreRecord.constructor: takes the species count as the length of the production vector. The source reads `speciesNb` separately and sizes `coralH` with it, so the model assumes the two agree. Two configuration errors of the source are excluded by preconditions: a zero `laytime`, on which the division of coreData.py:43 raises, and a negative layer count, which makes `numpy.zeros` raise.
- Accretion.Accrete: takes the scale factor `frac` as a parameter. `AccretionStep.Step` supplies the source's `(topH - sh)/sum(production)`; `FitFraction` gives 0 for a zero sum, and that value is never used, because the scaled regime forces a positive sum.
- CoreData.CoreRecord.CoralProduction: states the non-negativity invariants only under a valid configuration (positive `prodscale`, non-negative `dt` and `prod`), non-negative population and non-negative clastic rate. The source does not check these.
- Negative layer indices are not modelled: `layID` is a natural number below the layer count. In the source a negative `layID` wraps around to a layer counted from the end in the deposition regimes (coreData.py:487-519), while in the erosion regime `range(layID,-1,-1)` is empty (coreData.py:463), so the pass is skipped and nothing changes.
