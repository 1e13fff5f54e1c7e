/**
 * The dice resolver of lib/dice.ts: roll N twenty-sided dice and report every
 * roll, the highest and the total.
 *
 * `Math.random()` is replaced by its effect: draw i is the integer
 * `Math.floor(Math.random() * sides)`, so it lies in [0, sides).
 */
module Dice {

  /** What `Math.max(...rolls)` yields: `-Infinity` for no rolls, else the largest roll. */
  datatype Highest = NegativeInfinity | Value(n: int)

  /** The `DiceResult` record. */
  datatype DiceResult = DiceResult(rolls: seq<int>, highest: Highest, total: int)

  function Larger(x: int, h: Highest): Highest {
    match h
    case NegativeInfinity => Value(x)
    case Value(m) => Value(if x < m then m else x)
  }

  /** `Math.max(...rolls)`. */
  function MaxOf(rolls: seq<int>): (highest: Highest)
    ensures highest.NegativeInfinity? <==> rolls == []
  {
    if rolls == [] then NegativeInfinity else Larger(rolls[0], MaxOf(rolls[1..]))
  }

  /** `rolls.reduce((sum, roll) => sum + roll, 0)`. */
  function Sum(rolls: seq<int>): int {
    if rolls == [] then 0 else rolls[0] + Sum(rolls[1..])
  }

  predicate AllBetween(rolls: seq<int>, lo: int, hi: int) {
    forall i :: 0 <= i < |rolls| ==> lo <= rolls[i] <= hi
  }

  /**
   * For at least one roll, each in [1, sides]: the highest is one of the
   * rolls, no roll exceeds it, it lies in [1, sides] and it is at most the total.
   */
  lemma {:induction false} HighestIsMaximum(rolls: seq<int>, sides: int)
    requires |rolls| >= 1 && AllBetween(rolls, 1, sides)
    ensures MaxOf(rolls).Value?
    ensures MaxOf(rolls).n in rolls
    ensures forall i :: 0 <= i < |rolls| ==> rolls[i] <= MaxOf(rolls).n
    ensures 1 <= MaxOf(rolls).n <= sides
    ensures MaxOf(rolls).n <= Sum(rolls)
  {
    var rest := rolls[1..];
    if rest != [] {
      HighestIsMaximum(rest, sides);
      assert forall i :: 1 <= i < |rolls| ==> rolls[i] == rest[i - 1];
    }
  }

  /** `rollDice(count, sides)`: one roll `draw + 1` per iteration, then the maximum and the sum. */
  method RollDice(count: int, sides: int, draws: seq<int>) returns (result: DiceResult)
    requires count <= |draws|
    requires forall i :: 0 <= i < |draws| ==> 0 <= draws[i] < sides
    ensures |result.rolls| == if count > 0 then count else 0
    ensures forall i :: 0 <= i < |result.rolls| ==> result.rolls[i] == draws[i] + 1
    ensures AllBetween(result.rolls, 1, sides)
    ensures result.highest == MaxOf(result.rolls)
    ensures result.total == Sum(result.rolls)
  {
    var rolls: seq<int> := [];
    var i := 0;
    while i < count
      invariant 0 <= i <= (if count > 0 then count else 0)
      invariant |rolls| == i
      invariant forall j :: 0 <= j < i ==> rolls[j] == draws[j] + 1
    {
      rolls := rolls + [draws[i] + 1];
      i := i + 1;
    }
    result := DiceResult(rolls, MaxOf(rolls), Sum(rolls));
  }

  /**
   * `rollAttribute(v)`: a non-positive attribute gives the fixed result
   * `{rolls: [1], highest: 1, total: 1}` with no draw; otherwise `rollDice(v, 20)`.
   * Either way the highest is a real roll in [1, 20], never `-Infinity`.
   */
  method RollAttribute(attributeValue: int, draws: seq<int>) returns (result: DiceResult)
    requires attributeValue <= |draws|
    requires forall i :: 0 <= i < |draws| ==> 0 <= draws[i] < 20
    ensures attributeValue <= 0 ==> result == DiceResult([1], Value(1), 1)
    ensures attributeValue > 0 ==>
      && |result.rolls| == attributeValue
      && (forall i :: 0 <= i < attributeValue ==> result.rolls[i] == draws[i] + 1)
      && result.highest == MaxOf(result.rolls)
      && result.total == Sum(result.rolls)
    ensures result.highest.Value? && 1 <= result.highest.n <= 20
    ensures forall i :: 0 <= i < |result.rolls| ==> result.rolls[i] <= result.highest.n
    ensures result.highest.n <= result.total
  {
    if attributeValue <= 0 {
      return DiceResult([1], Value(1), 1);
    }
    result := RollDice(attributeValue, 20, draws);
    HighestIsMaximum(result.rolls, 20);
  }
}
