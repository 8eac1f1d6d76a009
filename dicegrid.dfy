/**
 * The dice grid: the dice laid out in rows of four, each die drawn with
 * whether it is held and whether it is spinning.
 */
module DiceGrid {
  import opened Dice

  /** JavaScript's `s.slice(start, end)` for non-negative bounds: the end is clamped to the length. */
  function Slice(s: seq<Die>, start: nat, end: nat): (r: seq<Die>)
    ensures start <= |s| ==> r == s[start..if end < start then start else if end > |s| then |s| else end]
    ensures start > |s| ==> r == []
  {
    if start > |s| then []
    else if end < start then []
    else if end > |s| then s[start..]
    else s[start..end]
  }

  /** The rows laid end to end. */
  function Flatten(rows: seq<seq<Die>>): seq<Die> {
    if rows == [] then [] else Flatten(rows[..|rows| - 1]) + rows[|rows| - 1]
  }

  /** `rows` lays out `dice` in rows of four: end to end they are the dice, and only the last row may be short. */
  ghost predicate IsLayout(rows: seq<seq<Die>>, dice: seq<Die>) {
    && Flatten(rows) == dice
    && (forall k :: 0 <= k < |rows| ==> 1 <= |rows[k]| <= 4)
    && (forall k :: 0 <= k < |rows| - 1 ==> |rows[k]| == 4)
  }

  /**
   * The `for (i = 0; i < dice.length; i += 4)` loop pushing `dice.slice(i, i + 4)`:
   * the dice in order, in non-empty rows of at most four, all but the last
   * full, `⌈n / 4⌉` rows in all.
   */
  method Rows(dice: seq<Die>) returns (rows: seq<seq<Die>>)
    ensures Flatten(rows) == dice
    ensures forall k :: 0 <= k < |rows| ==> 1 <= |rows[k]| <= 4
    ensures forall k :: 0 <= k < |rows| - 1 ==> |rows[k]| == 4
    ensures |rows| == (|dice| + 3) / 4
  {
    rows := [];
    var i := 0;
    while i < |dice|
      invariant RowsSoFar(dice, rows, i)
    {
      RowsStep(dice, rows, i);
      rows := rows + [Slice(dice, i, i + 4)];
      i := i + 4;
    }
    assert dice[..|dice|] == dice;
  }

  /** After `i` dice the loop has pushed `i / 4` rows laying out the dice so far. */
  ghost predicate RowsSoFar(dice: seq<Die>, rows: seq<seq<Die>>, i: int) {
    && 0 <= i && i % 4 == 0 && i <= |dice| + 3
    && |rows| * 4 == i
    && Flatten(rows) == dice[..if i < |dice| then i else |dice|]
    && (forall k :: 0 <= k < |rows| ==> 1 <= |rows[k]| <= 4)
    && (forall k :: 0 <= k < |rows| - 1 ==> |rows[k]| == 4)
    && (i <= |dice| ==> forall k :: 0 <= k < |rows| ==> |rows[k]| == 4)
  }

  /** Pushing `dice.slice(i, i + 4)` keeps the loop's layout. */
  lemma RowsStep(dice: seq<Die>, rows: seq<seq<Die>>, i: int)
    requires RowsSoFar(dice, rows, i) && i < |dice|
    ensures RowsSoFar(dice, rows + [Slice(dice, i, i + 4)], i + 4)
  {
    var row := Slice(dice, i, i + 4);
    var end := if i + 4 > |dice| then |dice| else i + 4;
    assert row == dice[i..end];
    assert dice[..end] == dice[..i] + row;
    assert (rows + [row])[..|rows|] == rows;
  }

  /** The rows laid out for a sequence of dice are determined by it. */
  lemma {:induction false} LayoutUnique(a: seq<seq<Die>>, b: seq<seq<Die>>, dice: seq<Die>)
    requires IsLayout(a, dice) && IsLayout(b, dice)
    ensures a == b
    decreases |dice|
  {
    LastRow(a, dice);
    LastRow(b, dice);
    if dice != [] {
      FlattenFront(a);
      FlattenFront(b);
      assert a[0] == dice[..|a[0]|] == b[0];
      var rest := dice[|a[0]|..];
      assert IsLayout(a[1..], rest) && IsLayout(b[1..], rest);
      LayoutUnique(a[1..], b[1..], rest);
      assert a == [a[0]] + a[1..];
      assert b == [b[0]] + b[1..];
    }
  }

  /** There are rows exactly when there are dice; the first row is four long unless it is the only one, and then it holds every die. */
  lemma LastRow(rows: seq<seq<Die>>, dice: seq<Die>)
    requires IsLayout(rows, dice)
    ensures rows == [] <==> dice == []
    ensures |rows| == 1 ==> |rows[0]| == |dice|
    ensures |rows| > 1 ==> |rows[0]| == 4
    ensures rows != [] ==> |rows[0]| <= |dice|
  {
    FlattenFront(rows);
  }

  /** Flattening, taken from the front. */
  lemma {:induction false} FlattenFront(rows: seq<seq<Die>>)
    ensures rows != [] ==> Flatten(rows) == rows[0] + Flatten(rows[1..])
    decreases |rows|
  {
    if |rows| > 1 {
      var init := rows[..|rows| - 1];
      FlattenFront(init);
      assert init[1..] == rows[1..][..|rows[1..]| - 1];
      assert init[0] == rows[0];
    } else if |rows| == 1 {
      assert rows[..0] == [] && rows[1..] == [];
    }
  }

  /** How one die is drawn. */
  datatype View = View(value: int, isHeld: bool, isRolling: bool)

  /** The props of one die: its value, held when its id is held, spinning while a roll is under way unless held. */
  function ViewOf(die: Die, held: set<int>, rolling: bool): (v: View)
    ensures v.value == die.value
    ensures v.isHeld <==> die.id in held
    ensures v.isRolling <==> rolling && die.id !in held
  {
    View(die.value, die.id in held, rolling && die.id !in held)
  }

  /**
   * A held die never spins, and while a roll keeping the held dice is under
   * way a die that does not spin keeps its value; with no roll under way
   * nothing spins.
   */
  lemma SpinningIsRerolled(dice: seq<Die>, held: set<int>, draws: seq<real>, i: int)
    requires |draws| == |dice| && AllDraws(draws) && 0 <= i < |dice|
    ensures ViewOf(dice[i], held, true).isHeld ==> !ViewOf(dice[i], held, true).isRolling
    ensures !ViewOf(dice[i], held, true).isRolling ==> Rerolled(dice, held, draws)[i] == dice[i]
    ensures !ViewOf(dice[i], held, false).isRolling
  {
  }
}
