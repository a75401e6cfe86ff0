# Easy cell counter: calculation model

This project models the calculation behind the cell-count calculator page in
`cell_calculator2.py`. The user enters live and dead hemocytometer counts for 1 to 9
squares, a dilution factor, the stock volume, a target number of cells per dish and a
seeding volume per dish. When the calculate button is pressed, the page computes:

- the count totals, the average live count per square and the viability;
- the stock concentration (average × dilution × 10000) and the live cells in the tube;
- the stock volume that holds one dish's worth of cells, and how many dishes the stock can supply;
- a recipe for a working suspension that uses the whole stock: its concentration, its volume,
  the medium to add and the number of dishes it fills.

Each guard of the calculation ends it with a tagged failure.

Files:

- `counts.dfy` (module `CellCounts`): one `Count` per square. The input loop that gathers the
  counts is the method `GatherCounts`. Their sums are the functions `SumLive` and `SumDead`,
  computed imperatively by the method `CountTotals`.
- `calculator.dfy` (module `CellCalculator`): the pure function `Calculate` from `Inputs` to an
  `Outcome`, and the lemmas about it. The outcome is one of:
  - `InvalidSquareCount`;
  - `ZeroConcentration`;
  - `TargetDivisionByZero`;
  - `InvalidSeedingVolume(stock)`;
  - `InsufficientConcentration(stock, workingConcentration)`;
  - `Prepared(stock, recipe)`.

Modelling decisions:

- **The square count is `|counts|`.** The input loop runs `range(int(n))`, so it reads exactly
  `n` pairs when `n > 0` and none otherwise (`GatherCounts`). That makes "n ≤ 0" the same as
  "no counts".
- **Two failures carry the stock figures.** The page shows the stock figures (concentration,
  total cells, viability, volume per dish, dishes available) before it checks the seeding
  volume and the working concentration. So those two failures carry the `Stock` record. The
  zero-concentration failure and the target-zero failure show nothing, so they carry nothing.
- **A target of 0 is a failure.** With a target of 0, the floor division at line 102 raises an
  exception, which the handler at lines 163-164 catches and reports. The model returns
  `TargetDivisionByZero` for it.
- **`Calculate` demands nothing of its inputs, as the code does.** The widgets' `min_value` and `max_value`
  bounds (lines 16, 29, 35, 43, 48, 64, 72) make up the predicate `WithinWidgetBounds`. The
  lemmas that need those bounds take them as preconditions. Under those bounds, the two
  defensive guards (square count ≤ 0, seeding volume ≤ 0) never fire (`WidgetBoundsOutcome`).
- **Quantities are exact `real`s.** Python's float `//` and `math.floor` become `.Floor`.
- **Media to add.** The code does not clamp media-to-add at line 147. On the success path it
  cannot be negative, as long as the stock volume and the target respect their widget
  minimum of 0 (`MediaNonNegative`).
- **Repeated calls agree.** Two calls with the same inputs give the same result. `Calculate`
  is a function, so this holds by construction.

## Model

| member | source | states |
|---|---|---|
| CellCalculator.Calculate | cell_calculator2.py:79-164 | no contract of its own: the whole calculation, guard by guard; its behaviour is stated by the guard lemmas (SquareGuard, ZeroConcentrationIff, TargetGuard, SeedingGuard, InsufficientIff) and the facts lemmas (TallyFacts, StockFacts, AvailableDishesMaximal, RecipeFacts, MediaNonNegative) below |
| CellCounts.SumLive | cell_calculator2.py:83 | no contract of its own: the sum of the live counts over the squares; CountTotals computes it and SumLiveZero characterises when it is 0 |
| CellCounts.SumDead | cell_calculator2.py:84 | no contract of its own: the sum of the dead counts over the squares; CountTotals computes it |
| CellCalculator.WithinWidgetBounds | cell_calculator2.py:14-73 | no contract of its own: the widget bounds, 1 to 9 squares, dilution at least 1.0, stock volume and target at least 0, seeding volume at least 0.1; WidgetBoundsOutcome states what they guarantee |
| CellCounts.GatherCounts | cell_calculator2.py:19-39 | the loop reads one (live, dead) pair per declared square, in order, and none when the declared count is zero or less |
| CellCounts.CountTotals | cell_calculator2.py:83-85 | returns the live total, the dead total and their sum, all non-negative, equal to the sums over every square |
| CellCounts.SumLiveZero | cell_calculator2.py:83 | the live total is 0 exactly when every square has a live count of 0 |
| CellCalculator.Viability | cell_calculator2.py:90-93 | viability is in [0, 100], is 0 when nothing was counted, is 0 exactly when no live cell was counted, is 100 exactly when cells were counted and none was dead, and otherwise satisfies viability × total = 100 × live |
| CellCalculator.SquareGuard | cell_calculator2.py:80-82 | the invalid-square-count failure happens exactly when no square was counted |
| CellCalculator.TallyFacts | cell_calculator2.py:83-93 | the reported totals are the sums over the squares, total = live + dead, average × squares = live total, and viability lies in [0, 100] |
| CellCalculator.ZeroConcentrationIff | cell_calculator2.py:95-99 | the zero-concentration failure happens exactly when squares were counted and either no live cell was counted or the dilution is 0; for a positive dilution, exactly when every square has no live cell |
| CellCalculator.TargetGuard | cell_calculator2.py:101-102 | the division failure happens exactly when the concentration is non-zero and the target is 0 |
| CellCalculator.StockFacts | cell_calculator2.py:95-102 | whenever a stock is reported: its concentration is non-zero; concentration × squares = live total × dilution × 10000; total cells = concentration × stock volume; required volume × concentration = target; available dishes = floor(total cells / target) |
| CellCalculator.AvailableDishesMaximal | cell_calculator2.py:102 | for a positive target, available dishes × target ≤ total cells < (available dishes + 1) × target |
| CellCalculator.SeedingGuard | cell_calculator2.py:134-135 | the seeding-volume failure happens exactly when every earlier guard passed and the seeding volume is ≤ 0 |
| CellCalculator.InsufficientIff | cell_calculator2.py:137-144 | with a stock and a positive seeding volume, the recipe is refused exactly when concentration < target / seeding volume; the refusal reports a working concentration w with w × seeding volume = target; for a positive target and concentration this is exactly when the volume per dish exceeds the seeding volume |
| CellCalculator.RecipeFacts | cell_calculator2.py:137-148 | in a recipe, working concentration × seeding volume = target; working volume × working concentration = total live cells; media + stock volume = working volume; final dish count = dishes available from the stock |
| CellCalculator.MediaNonNegative | cell_calculator2.py:146-147 | with stock volume and target ≥ 0, the working volume is at least the stock volume, the media to add is ≥ 0, and the volume per dish is at most the seeding volume |
| CellCalculator.WidgetBoundsOutcome | cell_calculator2.py:14-73 | within the widget bounds, neither the square-count guard nor the seeding-volume guard fires; every reported stock has a positive concentration, a non-negative cell total, a positive volume per dish and a non-negative dish count |
| CellCalculator.DefaultExample | cell_calculator2.py:14-73 | the default inputs give 200 live cells, viability 100, concentration 1000000, 5000000 cells, 0.5 mL per dish, 10 dishes, working concentration 250000, 20 mL working volume, 15 mL media and 10 dishes |
| CellCalculator.InsufficientExample | cell_calculator2.py:137-144 | the defaults with a 0.1 mL seeding volume are refused, with a working concentration of 5000000 |

## Left out

- Page setup, sidebar widgets, radio, button, metrics, info, error and code boxes: this is
  user-interface rendering. Only the widgets' bounds are kept, in `WithinWidgetBounds`: every `min_value`, and the
  `max_value=9` on the number of squares.
  The widget reads inside the input loop become the sequence parameters of `GatherCounts`.
- Text formatting of results (`.2e`, `.3f`, `.2f`, the recipe text): this turns floats into text.
- IEEE floating-point rounding and overflow: the model's reals are exact. It does not capture
  float comparisons that differ from exact ones. It also does not capture an overflow of
  `int()` on an infinite quotient, which the generic handler at line 163 would catch.
- The generic exception handler at lines 163-164 appears only as the target-zero division
  failure. No other exception can arise in the exact-real model.
- The log-query and spreadsheet side (log writing, storage, credential loading, filtering,
  charting): it is not part of the calculator page, and its storage and credentials are external
  services. It is not part of this model.
