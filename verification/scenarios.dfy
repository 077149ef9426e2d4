/**
 Worked instances of the accretion step: the boundary between the scaled and
 the full deposition regimes, an erosion pass across two layers, and an
 erosion demand larger than the whole record.
 */
module Scenarios {
  import opened RealArith
  import opened RealSeq
  import opened Accretion
  import opened AccretionStep

  /**
   Room 1.0, clastic input 0.5 and production 0.6 overfill the room, so the
   scaled regime applies with `frac = (1.0 - 0.5)/0.6 = 5/6`: the species
   slot grows by 0.5, the layer by exactly 1.0, and the room ends at 0.
   */
  lemma RegimeBoundary()
    ensures FitFraction(1.0 - 0.5, Sum([0.6])) == 5.0 / 6.0
    ensures Accrete(Core(1.0, [Layer(0.0, [0.0, 0.0], 0.0)]), 0, [0.6], 0.5, 0.0, 5.0 / 6.0)
         == Core(0.0, [Layer(1.0, [0.5, 0.5], 0.0)])
  {
    assert Sum([0.6]) == 0.6;
    assert Scaled([0.6], 5.0 / 6.0) == [0.5];
    assert Sum([0.5]) == 0.5;
    assert Plus([0.0, 0.0], [0.5] + [0.5]) == [0.5, 0.5];
  }

  /**
   Demand 2.5 against a current layer 1 of thickness 1.0 over a layer 0 of
   thickness 2.0: layer 1 is emptied, then layer 0 loses the remaining 1.5,
   keeping a quarter of each deposit; the room rises by 2.5.
   */
  lemma ErosionAcrossTwoLayers()
    ensures Accrete(Core(-1.0, [Layer(2.0, [1.2, 0.8], 0.0), Layer(1.0, [0.4, 0.6], 0.0)]), 1, [0.0], 0.0, -2.5, 0.0)
         == Core(1.5, [Layer(0.5, [0.3, 0.2], 1.5), Layer(0.0, [0.0, 0.0], 1.0)])
  {
    var c := Core(-1.0, [Layer(2.0, [1.2, 0.8], 0.0), Layer(1.0, [0.4, 0.6], 0.0)]);
    var c1 := Core(0.0, [Layer(2.0, [1.2, 0.8], 0.0), Layer(0.0, [0.0, 0.0], 1.0)]);
    assert Zeros(2) == [0.0, 0.0];
    assert Visit(c, 1, 2.5) == c1;
    assert Quotient(1.5, 2.0) == 0.75;
    assert Shrunk([1.2, 0.8], 0.75) == [0.3, 0.2];
    assert Visit(c1, 0, 1.5) == Core(1.5, [Layer(0.5, [0.3, 0.2], 1.5), Layer(0.0, [0.0, 0.0], 1.0)]);
  }

  /** A demand larger than the whole record empties every layer and raises the room by the record's thickness. */
  lemma ErosionExhaustsRecord()
    ensures Accrete(Core(-5.0, [Layer(2.0, [2.0, 0.0], 0.0), Layer(1.0, [0.5, 0.5], 0.0)]), 1, [0.0], 0.0, -4.0, 0.0)
         == Core(-2.0, [Layer(0.0, [0.0, 0.0], 2.0), Layer(0.0, [0.0, 0.0], 1.0)])
  {
    var c := Core(-5.0, [Layer(2.0, [2.0, 0.0], 0.0), Layer(1.0, [0.5, 0.5], 0.0)]);
    var c1 := Core(-4.0, [Layer(2.0, [2.0, 0.0], 0.0), Layer(0.0, [0.0, 0.0], 1.0)]);
    assert Zeros(2) == [0.0, 0.0];
    assert Visit(c, 1, 4.0) == c1;
    assert Visit(c1, 0, 3.0) == Core(-2.0, [Layer(0.0, [0.0, 0.0], 2.0), Layer(0.0, [0.0, 0.0], 1.0)]);
  }
}
