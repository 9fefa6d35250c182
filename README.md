# Molecular cloning calculator, modelled in Dafny

The cloning calculator turns the fragments of a DNA assembly reaction (Gibson
or Golden Gate cloning) into pipetting amounts. Its only domain logic is the
Python function `calculate_dna_volumes` in `app.py`. It takes the fragment
lengths (kbp) and concentrations (ng/µL), an insert:backbone molar ratio and
a total molar amount (pmol). Fragment 0 is the backbone and every later
fragment is an insert. For each fragment it returns a molar amount (pmol), a
mass (ng) and a volume to pipette (µL):

- the backbone gets `n_total / (1 + ratio * (N - 1))` pmol and every insert
  gets `ratio` times that;
- the mass is `amount * 10^-12 * 660 * 10^9 * length * 10^3` ng, where the unit
  factors multiply to exactly 1;
- the volume is the mass divided by the concentration.

`cloning_calculator.dfy` holds one module, `CloningCalculator`:

- `Parts`, `BackboneAmount`, `Amount`, `Weight` and `Volume` are the formulas,
  each with a contract that says what its result means, and `Amounts` is the
  sequence of all N molar amounts;
- `Calculate` is a pure reference definition of the whole calculation;
- `CalculateDnaVolumes` is the calculator itself, written as the source is
  written: it allocates three arrays and fills entry `i` of each in one loop.
  Its postcondition says the arrays it returns are fresh and equal to
  `Calculate` of its inputs;
- the lemmas state what the calculation promises. The amounts add up to the
  total. Every insert gets the same amount. A lone backbone takes the whole
  amount. Mass is linear in length and volume is inverse to concentration.
  Every result is positive. Changing one fragment's length or concentration
  changes no molar amount and no other fragment's mass or volume.

The function does no validation of its own. Its only caller is the input form,
which enforces minimum values: at least one insert, ratio ≥ 0.5, total ≥ 0.05
pmol, every length ≥ 0.1 kbp and every concentration ≥ 0.1 ng/µL. The method's
precondition `ValidInputs` is these minimums with two relaxations: it accepts
a backbone alone (N ≥ 1, where the form always sends N ≥ 2), and it asks for
at least as many concentrations as lengths. The lemmas need less:
only that every result is defined (`WellDefined`: a concentration for every
fragment, a non-zero denominator and no zero concentration) or, for
positivity, that every input is positive.

The input form always passes one concentration per length. The function
itself only reads `concentrations[i]` for `i < len(lengths)` (app.py:24-33),
so the model asks for at least as many concentrations as lengths, not for
exactly as many.

All arithmetic is exact over `real`. The conversion factor `10**-12` is the
exact rational 10^-12 here.

## Model

| member | source | states |
|---|---|---|
| `CloningCalculator.Parts` | app.py:18 | the denominator `1 + ratio * (N - 1)` is at least 1 whenever the ratio is non-negative and there is at least one fragment, and is exactly 1 for a backbone alone |
| `CloningCalculator.BackboneAmount` | app.py:18 | the backbone amount times the number of portions is the total amount; with a positive total, a non-negative ratio and at least one fragment it is positive and at most the total (equal to it for a backbone alone) |
| `CloningCalculator.Amount` | app.py:25-26 | the backbone's amount times the number of portions is the total; an insert's is `ratio` times the total |
| `CloningCalculator.Weight` | app.py:27-31 | the unit factors 10^-12, 10^9 and 10^3 cancel: the mass in ng is amount (pmol) × 660 × length (kbp) |
| `CloningCalculator.Volume` | app.py:32-33 | the volume times the concentration gives back the mass |
| `CloningCalculator.Amounts` | app.py:22-26 | N entries; entry i is fragment i's molar amount `Amount(i, N, ratio, nTotal)`: the backbone's share at index 0 and `ratio` times it for every insert |
| `CloningCalculator.Calculate` | app.py:20-35 | three sequences of N entries each; entry i holds fragment i's amount, the mass of that amount at fragment i's length, and the volume of that mass at fragment i's concentration |
| `CloningCalculator.AmountsSumToTotal` | app.py:12-26 | with at least one fragment, the molar amounts of all fragments add up to the total amount of DNA in the reaction |
| `CloningCalculator.InsertsShareAmount` | app.py:25-26 | the backbone's amount is the total divided into portions, and every insert gets exactly `ratio` times the backbone's amount |
| `CloningCalculator.BackboneOnlyTakesAll` | app.py:18-33 | with the backbone alone, its amount is the whole total, its mass is total × 660 × length and its volume is that mass over its concentration |
| `CloningCalculator.WeightScalesWithLength` | app.py:31-33 | multiplying one fragment's length by k multiplies its mass and its volume by k |
| `CloningCalculator.WeightDoublesWithLength` | app.py:31 | doubling one fragment's length doubles its mass |
| `CloningCalculator.VolumeInverseToConcentration` | app.py:31-33 | multiplying one fragment's concentration by a non-zero k leaves its mass unchanged and divides its volume by k |
| `CloningCalculator.VolumeHalvesWithConcentration` | app.py:33 | doubling one fragment's concentration halves its volume |
| `CloningCalculator.AllResultsPositive` | app.py:18-33 | with a positive ratio, a positive total and positive lengths and concentrations, every amount, mass and volume is strictly positive |
| `CloningCalculator.OtherFragmentsUnchanged` | app.py:24-33 | changing fragment j's length and concentration changes no molar amount, and leaves the mass and volume of every other fragment unchanged |
| `CloningCalculator.ExampleReaction` | app.py:44-70 | the form's default inputs (5 kbp backbone at 100 ng/µL, one 1 kbp insert at 150 ng/µL, ratio 2, 0.5 pmol) give 1/6 and 1/3 pmol, 550 and 220 ng, 5.5 and 22/15 µL, 209/30 µL in all |
| `CloningCalculator.ValidInputsGuarantees` | app.py:18-33 | under the input form's minimums every result is defined; the backbone gets the total divided into portions; every insert gets `ratio` times the backbone; the amounts add up to the total; every amount, mass and volume is positive |
| `CloningCalculator.CalculateDnaVolumes` | app.py:4-35 | returns three new arrays of N entries that equal the reference `Calculate` entry by entry (volumes, masses, molar amounts, in the source's order) |

## Left out

- The Streamlit page (app.py:37-95): widgets, layout, the button and the
  metric display are presentation and I/O. Its minimum values are kept as the
  precondition `ValidInputs`.
- Rounding of the displayed results to two decimals (app.py:80-95) is string
  formatting for display.
- The displayed total volume (app.py:93) is not an operation of the model. It
  appears only in `ExampleReaction`, as the sum of the volumes.
- IEEE floating-point rounding of Python floats and numpy arrays, including
  the inexact literal `10**-12`, is not modelled: the model computes exactly
  over `real`.
- CalculateDnaVolumes: the source fills its arrays with zeros before the loop
  (app.py:20-22). The model allocates them without stating their initial
  contents, because the loop overwrites every entry before the method returns.
- CalculateDnaVolumes: its postcondition is the equality with `Calculate`.
  The sum, the uniform insert amount and positivity are proved about
  `Calculate` in `ValidInputsGuarantees`, not restated in the method's
  postcondition, to keep the method's proof small.
- A zero denominator at app.py:18 divides plain Python floats and raises
  `ZeroDivisionError`; the model excludes it with `Parts(...) != 0.0`.
- A zero concentration at app.py:33 divides a numpy float and gives infinity
  or NaN with a warning; the model excludes it with `concentrations[i] != 0.0`.
  The input form's minimums rule out both cases.
- A stricter variant that rejects invalid input with an error is not
  modelled, because the source does no validation.
