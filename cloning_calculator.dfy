/**
 * Molecular cloning calculator: turns a backbone plus inserts (Gibson or
 * Golden Gate assembly) into pipetting amounts.  Fragment 0 is the backbone,
 * fragments 1..N-1 are inserts.  Lengths are in kbp, concentrations in ng/µL,
 * molar amounts in pmol, masses in ng and volumes in µL.  All arithmetic is
 * exact over `real`.
 */
module CloningCalculator {

  // Unit factors of the mass conversion: pmol -> mol, average mass of one
  // base pair (g/mol), g -> ng and kbp -> bp.
  const PmolToMol: real := 0.000_000_000_001
  const BasePairMass: real := 660.0
  const GramToNanogram: real := 1_000_000_000.0
  const KbpToBp: real := 1000.0

  /** The three result sequences, in the order the calculator returns them. */
  datatype Reaction = Reaction(volumes: seq<real>, weights: seq<real>, amounts: seq<real>)

  /** The minimum values the input form enforces before it calls the calculator. */
  predicate ValidInputs(lengths: seq<real>, concentrations: seq<real>, ratio: real, nTotal: real)
  {
    1 <= |lengths| <= |concentrations| &&
    ratio >= 0.5 && nTotal >= 0.05 &&
    (forall i :: 0 <= i < |lengths| ==> lengths[i] >= 0.1) &&
    (forall i :: 0 <= i < |lengths| ==> concentrations[i] >= 0.1)
  }

  /**
   * The weakest conditions under which every result is defined: a
   * concentration for every fragment, a non-zero denominator for the
   * backbone amount and no zero concentration.
   */
  predicate WellDefined(lengths: seq<real>, concentrations: seq<real>, ratio: real)
  {
    |lengths| <= |concentrations| &&
    Parts(ratio, |lengths|) != 0.0 &&
    forall i :: 0 <= i < |lengths| ==> concentrations[i] != 0.0
  }

  /**
   * The number of backbone-sized portions the total amount is split into:
   * one for the backbone and `ratio` for each of the `count - 1` inserts.
   */
  function Parts(ratio: real, count: nat): (p: real)
    ensures ratio >= 0.0 && count >= 1 ==> p >= 1.0
    ensures count == 1 ==> p == 1.0
  {
    1.0 + ratio * (count - 1) as real
  }

  /** Molar amount of the backbone: the total divided into `Parts` portions. */
  function BackboneAmount(nTotal: real, ratio: real, count: nat): (b: real)
    requires Parts(ratio, count) != 0.0
    ensures b * Parts(ratio, count) == nTotal
    ensures nTotal > 0.0 && ratio >= 0.0 && count >= 1 ==> 0.0 < b <= nTotal
  {
    nTotal / Parts(ratio, count)
  }

  /** Molar amount of fragment `i`: the backbone amount, or `ratio` times it for an insert. */
  function Amount(i: nat, count: nat, ratio: real, nTotal: real): (a: real)
    requires Parts(ratio, count) != 0.0
    ensures i == 0 ==> a * Parts(ratio, count) == nTotal
    ensures i > 0 ==> a * Parts(ratio, count) == ratio * nTotal
  {
    if i > 0 then ratio * BackboneAmount(nTotal, ratio, count) else BackboneAmount(nTotal, ratio, count)
  }

  /** Mass in ng of `amount` pmol of a fragment `length` kbp long; the unit factors cancel. */
  function Weight(amount: real, length: real): (w: real)
    ensures w == amount * 660.0 * length
  {
    amount * PmolToMol * BasePairMass * GramToNanogram * length * KbpToBp
  }

  /** Volume in µL that holds `weight` ng at `concentration` ng/µL. */
  function Volume(weight: real, concentration: real): (v: real)
    requires concentration != 0.0
    ensures v * concentration == weight
  {
    weight / concentration
  }

  /** Molar amounts of all `count` fragments. */
  function Amounts(count: nat, ratio: real, nTotal: real): (s: seq<real>)
    requires Parts(ratio, count) != 0.0
    ensures |s| == count
    ensures forall i :: 0 <= i < count ==> s[i] == Amount(i, count, ratio, nTotal)
  {
    seq(count, i requires 0 <= i < count => Amount(i, count, ratio, nTotal))
  }

  /** Reference definition of the whole calculation, fragment by fragment. */
  function Calculate(lengths: seq<real>, concentrations: seq<real>, ratio: real, nTotal: real): (r: Reaction)
    requires WellDefined(lengths, concentrations, ratio)
    ensures |r.volumes| == |r.weights| == |r.amounts| == |lengths|
    ensures r.amounts == Amounts(|lengths|, ratio, nTotal)
    ensures forall i :: 0 <= i < |lengths| ==> r.weights[i] == Weight(r.amounts[i], lengths[i])
    ensures forall i :: 0 <= i < |lengths| ==> r.volumes[i] == Volume(r.weights[i], concentrations[i])
  {
    var amounts := Amounts(|lengths|, ratio, nTotal);
    var weights := seq(|lengths|, i requires 0 <= i < |lengths| => Weight(amounts[i], lengths[i]));
    var volumes := seq(|lengths|, i requires 0 <= i < |lengths| => Volume(weights[i], concentrations[i]));
    Reaction(volumes, weights, amounts)
  }

  /** Sum of a sequence of reals. */
  function Sum(s: seq<real>): (r: real)
  {
    if s == [] then 0.0 else s[0] + Sum(s[1..])
  }

  /** A sequence whose every entry is `c` sums to `|s| * c`. */
  lemma {:induction false} SumOfUniform(s: seq<real>, c: real)
    requires forall i :: 0 <= i < |s| ==> s[i] == c
    ensures Sum(s) == |s| as real * c
  {
    if s != [] {
      SumOfUniform(s[1..], c);
    }
  }

  /** The molar amounts of all fragments add up to the total amount of the reaction. */
  lemma AmountsSumToTotal(count: nat, ratio: real, nTotal: real)
    requires count >= 1 && Parts(ratio, count) != 0.0
    ensures Sum(Amounts(count, ratio, nTotal)) == nTotal
  {
    var s := Amounts(count, ratio, nTotal);
    var b := BackboneAmount(nTotal, ratio, count);
    SumOfUniform(s[1..], ratio * b);
    calc {
      Sum(s);
      s[0] + Sum(s[1..]);
      b + (count - 1) as real * (ratio * b);
      b * Parts(ratio, count);
      nTotal;
    }
  }

  /** Every insert gets the same molar amount: `ratio` times the backbone's. */
  lemma InsertsShareAmount(count: nat, ratio: real, nTotal: real, i: nat)
    requires Parts(ratio, count) != 0.0 && 0 < i < count
    ensures Amounts(count, ratio, nTotal)[0] * Parts(ratio, count) == nTotal
    ensures Amounts(count, ratio, nTotal)[i] == ratio * Amounts(count, ratio, nTotal)[0]
  {
  }

  /** With the backbone alone, it receives the whole amount. */
  lemma BackboneOnlyTakesAll(length: real, concentration: real, ratio: real, nTotal: real)
    requires concentration != 0.0
    ensures Calculate([length], [concentration], ratio, nTotal) ==
            Reaction([nTotal * 660.0 * length / concentration], [nTotal * 660.0 * length], [nTotal])
  {
    var r := Calculate([length], [concentration], ratio, nTotal);
    assert r.amounts[0] == nTotal;
    assert r.weights[0] == nTotal * 660.0 * length;
    assert r.volumes == [nTotal * 660.0 * length / concentration];
  }

  /** Scaling fragment `i`'s length by `k` scales its mass, and so its volume, by `k`. */
  lemma WeightScalesWithLength(lengths: seq<real>, concentrations: seq<real>, ratio: real, nTotal: real, i: nat, k: real)
    requires WellDefined(lengths, concentrations, ratio) && i < |lengths|
    ensures Calculate(lengths[i := k * lengths[i]], concentrations, ratio, nTotal).weights[i] ==
            k * Calculate(lengths, concentrations, ratio, nTotal).weights[i]
    ensures Calculate(lengths[i := k * lengths[i]], concentrations, ratio, nTotal).volumes[i] ==
            k * Calculate(lengths, concentrations, ratio, nTotal).volumes[i]
  {
  }

  /** Doubling fragment `i`'s length doubles its mass. */
  lemma WeightDoublesWithLength(lengths: seq<real>, concentrations: seq<real>, ratio: real, nTotal: real, i: nat)
    requires WellDefined(lengths, concentrations, ratio) && i < |lengths|
    ensures Calculate(lengths[i := 2.0 * lengths[i]], concentrations, ratio, nTotal).weights[i] ==
            2.0 * Calculate(lengths, concentrations, ratio, nTotal).weights[i]
  {
    WeightScalesWithLength(lengths, concentrations, ratio, nTotal, i, 2.0);
  }

  /** Scaling fragment `i`'s concentration by `k` divides its volume by `k` and leaves its mass alone. */
  lemma VolumeInverseToConcentration(lengths: seq<real>, concentrations: seq<real>, ratio: real, nTotal: real, i: nat, k: real)
    requires WellDefined(lengths, concentrations, ratio) && i < |lengths| && k != 0.0
    ensures Calculate(lengths, concentrations[i := k * concentrations[i]], ratio, nTotal).weights[i] ==
            Calculate(lengths, concentrations, ratio, nTotal).weights[i]
    ensures k * Calculate(lengths, concentrations[i := k * concentrations[i]], ratio, nTotal).volumes[i] ==
            Calculate(lengths, concentrations, ratio, nTotal).volumes[i]
  {
    var r := Calculate(lengths, concentrations, ratio, nTotal);
    var r' := Calculate(lengths, concentrations[i := k * concentrations[i]], ratio, nTotal);
    assert r'.weights[i] == r.weights[i];
    assert r'.volumes[i] * (k * concentrations[i]) == r.weights[i];
    assert r.volumes[i] * concentrations[i] == r.weights[i];
  }

  /** Doubling fragment `i`'s concentration halves its volume. */
  lemma VolumeHalvesWithConcentration(lengths: seq<real>, concentrations: seq<real>, ratio: real, nTotal: real, i: nat)
    requires WellDefined(lengths, concentrations, ratio) && i < |lengths|
    ensures Calculate(lengths, concentrations[i := 2.0 * concentrations[i]], ratio, nTotal).volumes[i] ==
            Calculate(lengths, concentrations, ratio, nTotal).volumes[i] / 2.0
  {
    VolumeInverseToConcentration(lengths, concentrations, ratio, nTotal, i, 2.0);
  }

  /** With every input positive, every amount, mass and volume is strictly positive. */
  lemma AllResultsPositive(lengths: seq<real>, concentrations: seq<real>, ratio: real, nTotal: real, i: nat)
    requires |lengths| <= |concentrations| && ratio > 0.0 && nTotal > 0.0 && i < |lengths|
    requires forall j :: 0 <= j < |lengths| ==> lengths[j] > 0.0 && concentrations[j] > 0.0
    ensures WellDefined(lengths, concentrations, ratio)
    ensures Calculate(lengths, concentrations, ratio, nTotal).amounts[i] > 0.0
    ensures Calculate(lengths, concentrations, ratio, nTotal).weights[i] > 0.0
    ensures Calculate(lengths, concentrations, ratio, nTotal).volumes[i] > 0.0
  {
  }

  /**
   * Changing fragment `j`'s length and concentration leaves every other
   * fragment's results as they were, and no molar amount changes at all.
   */
  lemma OtherFragmentsUnchanged(lengths: seq<real>, concentrations: seq<real>, ratio: real, nTotal: real,
                                j: nat, length: real, concentration: real, i: nat)
    requires WellDefined(lengths, concentrations, ratio) && j < |lengths| && concentration != 0.0
    requires i < |lengths| && i != j
    ensures WellDefined(lengths[j := length], concentrations[j := concentration], ratio)
    ensures Calculate(lengths[j := length], concentrations[j := concentration], ratio, nTotal).amounts ==
            Calculate(lengths, concentrations, ratio, nTotal).amounts
    ensures Calculate(lengths[j := length], concentrations[j := concentration], ratio, nTotal).weights[i] ==
            Calculate(lengths, concentrations, ratio, nTotal).weights[i]
    ensures Calculate(lengths[j := length], concentrations[j := concentration], ratio, nTotal).volumes[i] ==
            Calculate(lengths, concentrations, ratio, nTotal).volumes[i]
  {
  }

  /**
   * The input form's defaults: a 5 kbp backbone at 100 ng/µL, one 1 kbp insert
   * at 150 ng/µL, ratio 2 and 0.5 pmol in all.
   */
  lemma ExampleReaction()
    ensures Calculate([5.0, 1.0], [100.0, 150.0], 2.0, 0.5) ==
            Reaction([5.5, 22.0 / 15.0], [550.0, 220.0], [1.0 / 6.0, 1.0 / 3.0])
    ensures Sum(Calculate([5.0, 1.0], [100.0, 150.0], 2.0, 0.5).volumes) == 209.0 / 30.0
  {
  }

  /**
   * What the input form's minimums guarantee about the results: the backbone
   * gets the total divided into `Parts`, every insert `ratio` times that,
   * the amounts add up to the total, and every result is positive.
   */
  lemma ValidInputsGuarantees(lengths: seq<real>, concentrations: seq<real>, ratio: real, nTotal: real)
    requires ValidInputs(lengths, concentrations, ratio, nTotal)
    ensures WellDefined(lengths, concentrations, ratio)
    ensures Calculate(lengths, concentrations, ratio, nTotal).amounts[0] == BackboneAmount(nTotal, ratio, |lengths|)
    ensures forall i :: 0 < i < |lengths| ==>
      Calculate(lengths, concentrations, ratio, nTotal).amounts[i] ==
      ratio * Calculate(lengths, concentrations, ratio, nTotal).amounts[0]
    ensures Sum(Calculate(lengths, concentrations, ratio, nTotal).amounts) == nTotal
    ensures forall i :: 0 <= i < |lengths| ==>
      var r := Calculate(lengths, concentrations, ratio, nTotal);
      r.amounts[i] > 0.0 && r.weights[i] > 0.0 && r.volumes[i] > 0.0
  {
    AmountsSumToTotal(|lengths|, ratio, nTotal);
    forall i | 0 <= i < |lengths|
      ensures var r := Calculate(lengths, concentrations, ratio, nTotal);
              r.amounts[i] > 0.0 && r.weights[i] > 0.0 && r.volumes[i] > 0.0
    {
      AllResultsPositive(lengths, concentrations, ratio, nTotal, i);
    }
  }

  /**
   * The calculator itself: allocates three arrays and fills
   * entry `i` of each with fragment `i`'s volume, mass and molar amount.
   */
  method CalculateDnaVolumes(lengths: seq<real>, concentrations: seq<real>, ratio: real, nTotal: real)
    returns (vol: array<real>, weight: array<real>, n: array<real>)
    requires ValidInputs(lengths, concentrations, ratio, nTotal)
    ensures fresh(vol) && fresh(weight) && fresh(n)
    ensures WellDefined(lengths, concentrations, ratio)
    ensures Reaction(vol[..], weight[..], n[..]) == Calculate(lengths, concentrations, ratio, nTotal)
  {
    var count := |lengths|;
    ghost var r := Calculate(lengths, concentrations, ratio, nTotal);
    var nBackbone := BackboneAmount(nTotal, ratio, count);

    vol := new real[count];
    weight := new real[count];
    n := new real[count];

    for i := 0 to count
      invariant forall k :: 0 <= k < i ==> n[k] == r.amounts[k] && weight[k] == r.weights[k] && vol[k] == r.volumes[k]
    {
      n[i] := if i > 0 then ratio * nBackbone else nBackbone;
      assert n[i] == Amount(i, count, ratio, nTotal);
      weight[i] := Weight(n[i], lengths[i]);
      vol[i] := weight[i] / concentrations[i];
    }
    assert n[..] == r.amounts;
    assert weight[..] == r.weights;
    assert vol[..] == r.volumes;
  }
}
