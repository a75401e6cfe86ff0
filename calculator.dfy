/** The cell-count and dispensing calculation run when the calculate button is
    pressed: totals, viability, stock concentration, dishes obtainable from the
    stock, and the recipe of a working suspension that uses the whole stock.
    Quantities are exact reals; each guard of the calculation ends it with a
    tagged failure. */
module CellCalculator {
  import opened CellCounts

  /** Hemocytometer chamber-volume factor: average cells per square times the
      dilution, times this factor, gives cells per mL. */
  const ChamberFactor: real := 10000.0

  /** What the user entered. The number of counted squares is the length of
      `counts` (the input loop reads one pair per square, none when the declared
      number is zero or less). */
  datatype Inputs = Inputs(
    counts: seq<Count>,
    dilution: real,        // dilution factor used while counting
    stockVolume: real,     // total volume of the cell suspension, mL
    target: real,          // cells wanted per dish
    seedingVolume: real)   // volume seeded into each dish, mL

  /** Totals over the counted squares. */
  datatype Tally = Tally(live: nat, dead: nat, all: nat, averageLive: real, viability: real)

  /** The state of the stock suspension, as shown before the recipe is attempted. */
  datatype Stock = Stock(
    tally: Tally,
    concentration: real,   // live cells per mL
    totalLiveCells: real,  // live cells in the whole tube
    requiredVolume: real,  // stock volume holding one dish's worth of cells, mL
    availableDishes: int)  // whole dishes the stock can supply

  /** The working suspension made from the whole stock. */
  datatype Recipe = Recipe(
    workingConcentration: real,  // cells per mL so that one seeding volume holds the target
    totalWorkingVolume: real,    // mL
    mediaToAdd: real,            // fresh medium added to the stock, mL
    totalDishes: int)            // whole dishes the working suspension fills

  datatype Outcome =
    | InvalidSquareCount
    | ZeroConcentration
    | TargetDivisionByZero
    | InvalidSeedingVolume(stock: Stock)
    | InsufficientConcentration(stock: Stock, workingConcentration: real)
    | Prepared(stock: Stock, recipe: Recipe)
  {
    predicate HasStock() {
      InvalidSeedingVolume? || InsufficientConcentration? || Prepared?
    }
  }

  /** The bounds the input widgets impose: their minimum values, and at most nine squares. */
  predicate WithinWidgetBounds(inp: Inputs)
  {
    1 <= |inp.counts| <= 9
    && inp.dilution >= 1.0
    && inp.stockVolume >= 0.0
    && inp.target >= 0.0
    && inp.seedingVolume >= 0.1
  }

  /** Percentage of counted cells that are alive; 0 when nothing was counted. */
  function Viability(live: nat, dead: nat): (v: real)
    ensures 0.0 <= v <= 100.0
    ensures live + dead == 0 ==> v == 0.0
    ensures v == 0.0 <==> live == 0
    ensures v == 100.0 <==> live > 0 && dead == 0
    ensures live + dead > 0 ==> v * (live + dead) as real == 100.0 * live as real
  {
    var all := live + dead;
    if all > 0 then
      var v := (live as real / all as real) * 100.0;
      var a := all as real;
      assert v * a == 100.0 * live as real;
      assert live as real <= a;
      assert (100.0 - v) * a == 100.0 * (a - live as real);
      assert (100.0 - v) * a >= 0.0;
      assert v <= 100.0;
      assert v == 100.0 ==> dead == 0 by {
        if v == 100.0 {
          assert 100.0 * a == 100.0 * live as real;
        }
      }
      v
    else
      0.0
  }

  /** The calculation, guard by guard. */
  function Calculate(inp: Inputs): (r: Outcome)
  {
    var n := |inp.counts|;
    if n <= 0 then InvalidSquareCount
    else
      var live := SumLive(inp.counts);
      var dead := SumDead(inp.counts);
      var all := live + dead;
      var average := live as real / n as real;
      var viability := Viability(live, dead);
      var concentration := average * inp.dilution * ChamberFactor;
      var totalLiveCells := concentration * inp.stockVolume;
      if concentration == 0.0 then ZeroConcentration
      else
        var requiredVolume := inp.target / concentration;
        if inp.target == 0.0 then TargetDivisionByZero
        else
          var stock := Stock(Tally(live, dead, all, average, viability),
                             concentration, totalLiveCells, requiredVolume,
                             (totalLiveCells / inp.target).Floor);
          if inp.seedingVolume <= 0.0 then InvalidSeedingVolume(stock)
          else
            var working := inp.target / inp.seedingVolume;
            if concentration < working then InsufficientConcentration(stock, working)
            else
              var totalWorking := totalLiveCells / working;
              Prepared(stock, Recipe(working, totalWorking, totalWorking - inp.stockVolume,
                                     (totalWorking / inp.seedingVolume).Floor))
  }

  /** The first guard fires exactly when no square was counted. */
  lemma SquareGuard(inp: Inputs)
    ensures Calculate(inp) == InvalidSquareCount <==> inp.counts == []
  {
  }

  /** The totals and their derived ratios, as reported with the stock. */
  lemma TallyFacts(inp: Inputs)
    requires Calculate(inp).HasStock()
    ensures var t := Calculate(inp).stock.tally;
      && t.live == SumLive(inp.counts) && t.dead == SumDead(inp.counts)
      && t.all == t.live + t.dead
      && t.averageLive * |inp.counts| as real == t.live as real
      && 0.0 <= t.viability <= 100.0
      && (t.all > 0 ==> t.viability * t.all as real == 100.0 * t.live as real)
  {
  }

  /** The calculation stops with the zero-concentration failure exactly when
      squares were counted but no live cell was, or the dilution is zero; with a
      positive dilution, exactly when every square has no live cell. */
  lemma ZeroConcentrationIff(inp: Inputs)
    ensures Calculate(inp) == ZeroConcentration
        <==> inp.counts != [] && (SumLive(inp.counts) == 0 || inp.dilution == 0.0)
    ensures inp.dilution > 0.0 ==>
      (Calculate(inp) == ZeroConcentration <==>
         inp.counts != [] && forall i :: 0 <= i < |inp.counts| ==> inp.counts[i].live == 0)
  {
    SumLiveZero(inp.counts);
    if inp.counts != [] {
      var n := |inp.counts| as real;
      var live := SumLive(inp.counts) as real;
      var c := live / n * inp.dilution * ChamberFactor;
      assert c == 0.0 <==> live == 0.0 || inp.dilution == 0.0 by {
        if live != 0.0 && inp.dilution != 0.0 {
          assert live / n != 0.0;
        }
      }
    }
  }

  /** The division by the target fails exactly when the concentration is
      non-zero and the target is zero. */
  lemma TargetGuard(inp: Inputs)
    ensures Calculate(inp) == TargetDivisionByZero
        <==> inp.counts != [] && SumLive(inp.counts) > 0 && inp.dilution != 0.0 && inp.target == 0.0
  {
    ZeroConcentrationIff(inp);
  }

  /** The stock: its concentration from the counts, the volume holding one
      dish's worth of cells, and the dishes the stock can supply. */
  lemma StockFacts(inp: Inputs)
    requires Calculate(inp).HasStock()
    ensures var s := Calculate(inp).stock;
      && s.concentration != 0.0 && inp.target != 0.0
      && s.concentration * |inp.counts| as real
           == SumLive(inp.counts) as real * inp.dilution * ChamberFactor
      && s.totalLiveCells == s.concentration * inp.stockVolume
      && s.requiredVolume * s.concentration == inp.target
      && s.availableDishes == (s.totalLiveCells / inp.target).Floor
  {
  }

  /** With a positive target, the stock supplies the largest whole number of dishes
      whose cells it holds. */
  lemma AvailableDishesMaximal(inp: Inputs)
    requires Calculate(inp).HasStock() && inp.target > 0.0
    ensures var s := Calculate(inp).stock;
      && s.availableDishes as real * inp.target <= s.totalLiveCells
      && s.totalLiveCells < (s.availableDishes + 1) as real * inp.target
  {
    FloorDivision(Calculate(inp).stock.totalLiveCells, inp.target);
  }

  /** The seeding-volume guard fires exactly when every earlier guard passed and
      the seeding volume is not positive. */
  lemma SeedingGuard(inp: Inputs)
    ensures Calculate(inp).InvalidSeedingVolume?
        <==> inp.counts != [] && SumLive(inp.counts) > 0 && inp.dilution != 0.0
             && inp.target != 0.0 && inp.seedingVolume <= 0.0
  {
    ZeroConcentrationIff(inp);
  }

  /** Once the stock is known, the recipe is refused exactly when the stock is more
      dilute than the working concentration; for a positive concentration and
      target, that is exactly when one dish's worth of stock exceeds the seeding
      volume. */
  lemma InsufficientIff(inp: Inputs)
    requires Calculate(inp).HasStock() && inp.seedingVolume > 0.0
    ensures var r := Calculate(inp);
      r.InsufficientConcentration? <==> r.stock.concentration < inp.target / inp.seedingVolume
    ensures var r := Calculate(inp);
      r.InsufficientConcentration? ==> r.workingConcentration * inp.seedingVolume == inp.target
    ensures var r := Calculate(inp);
      inp.target > 0.0 && r.stock.concentration > 0.0 ==>
        (r.InsufficientConcentration? <==> r.stock.requiredVolume > inp.seedingVolume)
  {
    var r := Calculate(inp);
    var c := r.stock.concentration;
    var w := inp.target / inp.seedingVolume;
    if inp.target > 0.0 && c > 0.0 {
      assert r.stock.requiredVolume * c == inp.target;
      assert w * inp.seedingVolume == inp.target;
      assert c < w <==> r.stock.requiredVolume > inp.seedingVolume by {
        ScaleCompare(c, w, r.stock.requiredVolume, inp.seedingVolume, inp.target);
      }
    }
  }

  /** The whole working suspension holds every live cell of the stock at the
      working concentration, and it fills as many dishes as the stock supplies. */
  lemma RecipeFacts(inp: Inputs)
    requires Calculate(inp).Prepared?
    ensures var r := Calculate(inp);
      && r.recipe.workingConcentration * inp.seedingVolume == inp.target
      && r.recipe.totalWorkingVolume * r.recipe.workingConcentration == r.stock.totalLiveCells
      && r.recipe.mediaToAdd + inp.stockVolume == r.recipe.totalWorkingVolume
      && r.recipe.totalDishes == r.stock.availableDishes
  {
    DividingTwice(Calculate(inp).stock.totalLiveCells, inp.target, inp.seedingVolume);
  }

  /** Dividing by a ratio target / seeding and then by seeding divides by target. */
  lemma DividingTwice(t: real, target: real, seeding: real)
    requires target != 0.0 && seeding != 0.0
    ensures (target / seeding) * seeding == target
    ensures (t / (target / seeding)) * (target / seeding) == t
    ensures t / (target / seeding) / seeding == t / target
  {
    var w := target / seeding;
    assert w != 0.0;
    var v := t / w;
    assert v * w == t;
    assert (v / seeding) * target == v * w;
  }

  /** With the stock volume and the target at least their widget minimum of 0, a
      recipe never asks to remove medium: the working volume is at least the
      stock volume, and one dish's worth of stock fits in the seeding volume. */
  lemma MediaNonNegative(inp: Inputs)
    requires Calculate(inp).Prepared?
    requires inp.stockVolume >= 0.0 && inp.target >= 0.0
    ensures var r := Calculate(inp);
      && r.recipe.totalWorkingVolume >= inp.stockVolume
      && r.recipe.mediaToAdd >= 0.0
      && r.stock.requiredVolume <= inp.seedingVolume
  {
    var r := Calculate(inp);
    var c, w := r.stock.concentration, r.recipe.workingConcentration;
    DiluteCovers(c, w, inp.stockVolume);
    DividingTwice(0.0, inp.target, inp.seedingVolume);
    ScaleCompare(c, w, r.stock.requiredVolume, inp.seedingVolume, inp.target);
  }

  /** Diluting a stock of concentration c down to w <= c never shrinks its volume. */
  lemma DiluteCovers(c: real, w: real, volume: real)
    requires 0.0 < w <= c && volume >= 0.0
    ensures c * volume / w >= volume
  {
    var v := c * volume / w;
    assert v * w == c * volume;
    assert (v - volume) * w == (c - w) * volume;
    assert (c - w) * volume >= 0.0;
  }

  /** Within the widget bounds the two defensive guards never fire, and every
      reported quantity is non-negative. */
  lemma WidgetBoundsOutcome(inp: Inputs)
    requires WithinWidgetBounds(inp)
    ensures var r := Calculate(inp);
      r != InvalidSquareCount && !r.InvalidSeedingVolume?
    ensures var r := Calculate(inp);
      r.HasStock() ==>
        && r.stock.concentration > 0.0
        && r.stock.totalLiveCells >= 0.0
        && r.stock.requiredVolume > 0.0
        && r.stock.availableDishes >= 0
  {
  }

  /** With positive w and v, c < w exactly when x > v, given that x * c and
      v * w are the same positive t. */
  lemma ScaleCompare(c: real, w: real, x: real, v: real, t: real)
    requires c > 0.0 && v > 0.0 && t > 0.0
    requires x * c == t && w * v == t
    ensures c < w <==> x > v
  {
    if c < w {
      assert x * c == w * v;
      assert x * w > x * c;
    } else {
      assert x * w <= x * c;
    }
  }

  /** The floor of t / d, for a positive d, is the number of whole d in t. */
  lemma FloorDivision(t: real, d: real)
    requires d > 0.0
    ensures (t / d).Floor as real * d <= t < ((t / d).Floor + 1) as real * d
  {
    var q := t / d;
    assert q * d == t;
    var f := q.Floor as real;
    var g := (q.Floor + 1) as real;
    assert f <= q < g;
    var below := (q - f) * d;
    var above := (g - q) * d;
    assert below >= 0.0;
    assert above > 0.0;
    assert below == t - f * d;
    assert above == g * d - t;
  }

  /** Four squares of 50 live cells and no dead ones, dilution 2, 5 mL of stock,
      500000 cells per dish and 2 mL per dish: the default inputs. */
  const Defaults: Inputs :=
    Inputs([Count(50, 0), Count(50, 0), Count(50, 0), Count(50, 0)], 2.0, 5.0, 500000.0, 2.0)

  lemma DefaultExample()
    ensures Calculate(Defaults)
      == Prepared(Stock(Tally(200, 0, 200, 50.0, 100.0), 1000000.0, 5000000.0, 0.5, 10),
                  Recipe(250000.0, 20.0, 15.0, 10))
  {
  }

  /** The defaults with a seeding volume of 0.1 mL need 5000000 cells per mL,
      more than the stock holds. */
  lemma InsufficientExample()
    ensures Calculate(Defaults.(seedingVolume := 0.1))
      == InsufficientConcentration(Stock(Tally(200, 0, 200, 50.0, 100.0), 1000000.0, 5000000.0, 0.5, 10),
                                   5000000.0)
  {
  }
}
