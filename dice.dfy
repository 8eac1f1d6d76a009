/**
 * The dice tray of the app: the dice on the table, the set of held die ids
 * and whether a roll is under way. A roll takes two steps, as the app's
 * 800 ms animation does: starting it raises the rolling flag and schedules
 * the completion, and the completion applies the new values and lowers it.
 */
module Dice {
  /** One die: its position-based id and its face value. */
  datatype Die = Die(id: int, value: int)

  predicate IsFace(v: int) {
    1 <= v <= 6
  }

  /** A value of `Math.random()`: a real in `[0, 1)`. */
  predicate IsDraw(r: real) {
    0.0 <= r < 1.0
  }

  predicate AllDraws(draws: seq<real>) {
    forall i :: 0 <= i < |draws| ==> IsDraw(draws[i])
  }

  /** `Math.floor(Math.random() * 6) + 1`: a face value for every draw. */
  function Face(r: real): (v: int)
    requires IsDraw(r)
    ensures IsFace(v)
    ensures (v - 1) as real <= r * 6.0 < v as real
  {
    (r * 6.0).Floor + 1
  }

  /** Every face can come up: the draws in `[(v-1)/6, v/6)` give `v`. */
  lemma EveryFaceReachable(v: int)
    requires IsFace(v)
    ensures IsDraw((v - 1) as real / 6.0) && Face((v - 1) as real / 6.0) == v
  {
    var r := (v - 1) as real / 6.0;
    assert r * 6.0 == (v - 1) as real;
  }

  /** The dice the initialise effect creates, one per draw: ids `0..n-1` in order. */
  function Fresh(draws: seq<real>): (dice: seq<Die>)
    requires AllDraws(draws)
    ensures |dice| == |draws|
    ensures forall i :: 0 <= i < |dice| ==> dice[i].id == i && IsFace(dice[i].value)
  {
    seq(|draws|, i requires 0 <= i < |draws| => Die(i, Face(draws[i])))
  }

  /**
   * The dice after the completion of a roll keeping the ids in `keep`: a kept
   * die is unchanged, every other die gets the value of its own draw.
   */
  function Rerolled(dice: seq<Die>, keep: set<int>, draws: seq<real>): (r: seq<Die>)
    requires |draws| == |dice| && AllDraws(draws)
    ensures |r| == |dice|
    ensures forall i :: 0 <= i < |dice| ==> r[i].id == dice[i].id
    ensures forall i :: 0 <= i < |dice| && dice[i].id in keep ==> r[i] == dice[i]
    ensures forall i :: 0 <= i < |dice| && dice[i].id !in keep ==> IsFace(r[i].value)
  {
    seq(|dice|, i requires 0 <= i < |dice| =>
      if dice[i].id in keep then dice[i] else Die(dice[i].id, Face(draws[i])))
  }

  /** Rolling keeps a well-formed table well formed: ids in order, faces in `1..6`. */
  lemma RerolledWellFormed(dice: seq<Die>, keep: set<int>, draws: seq<real>)
    requires |draws| == |dice| && AllDraws(draws)
    requires forall i :: 0 <= i < |dice| ==> dice[i].id == i && IsFace(dice[i].value)
    ensures var r := Rerolled(dice, keep, draws);
            forall i :: 0 <= i < |r| ==> r[i].id == i && IsFace(r[i].value)
  {
  }

  /** With nothing kept every die is drawn afresh, exactly as at initialisation. */
  lemma RerollEverything(dice: seq<Die>, draws: seq<real>)
    requires |draws| == |dice| && AllDraws(draws)
    requires forall i :: 0 <= i < |dice| ==> dice[i].id == i
    ensures Rerolled(dice, {}, draws) == Fresh(draws)
  {
  }

  /** With every id kept, the roll changes nothing. */
  lemma KeepEverything(dice: seq<Die>, keep: set<int>, draws: seq<real>)
    requires |draws| == |dice| && AllDraws(draws)
    requires forall i :: 0 <= i < |dice| ==> dice[i].id in keep
    ensures Rerolled(dice, keep, draws) == dice
  {
  }

  /** The held set after `toggleHold(id)`: `id` flips membership, every other id stays. */
  function Toggled(held: set<int>, id: int): (r: set<int>)
    ensures id in r <==> id !in held
    ensures forall x :: x != id ==> (x in r <==> x in held)
  {
    if id in held then held - {id} else held + {id}
  }

  /** Toggling the same die twice restores the held set. */
  lemma ToggleTwice(held: set<int>, id: int)
    ensures Toggled(Toggled(held, id), id) == held
  {
  }

  /** Toggles of two different dice commute. */
  lemma TogglesCommute(held: set<int>, a: int, b: int)
    ensures Toggled(Toggled(held, a), b) == Toggled(Toggled(held, b), a)
  {
  }

  /** The state of the app's dice. */
  class Tray {
    /** The chosen number of dice. */
    var numDice: nat
    var dice: seq<Die>
    /** `heldDice`: the ids of the held dice. */
    var held: set<int>
    var isRolling: bool
    /**
     * The ids the scheduled completion keeps: the `heldDice` the roll
     * button's callback captured when it started the roll, and none for
     * "roll all", whose completion re-rolls every die.
     */
    var keep: set<int>

    /** The table holds `numDice` dice with ids `0..numDice-1` in order and faces in `1..6`. */
    ghost predicate Valid()
      reads this
    {
      && |dice| == numDice
      && forall i :: 0 <= i < |dice| ==> dice[i].id == i && IsFace(dice[i].value)
    }

    /** While a roll is under way, its completion keeps exactly the held dice. */
    ghost predicate Synced()
      reads this
    {
      isRolling ==> keep == held
    }

    /** `hasHeldDice`: some die is held. */
    function HasHeld(): (b: bool)
      reads this
      ensures b <==> held != {}
    {
      |held| > 0
    }

    /** The first render with five dice, then the initialise effect. */
    constructor (draws: seq<real>)
      requires |draws| == 5 && AllDraws(draws)
      ensures numDice == 5 && dice == Fresh(draws) && held == {}
      ensures !isRolling && keep == {}
      ensures Valid() && Synced()
    {
      numDice := 5;
      dice := Fresh(draws);
      held := {};
      isRolling := false;
      keep := {};
    }

    /**
     * Choosing `n` dice (`setNumDice`). A new count re-runs the initialise
     * effect: `n` fresh dice and no die held. Choosing the current count
     * changes no state, so the effect does not run.
     */
    method SetNumDice(n: nat, draws: seq<real>)
      requires 1 <= n <= 12
      requires |draws| == n && AllDraws(draws)
      modifies this
      ensures old(numDice) == n ==> unchanged(this)
      ensures old(numDice) != n ==>
                && numDice == n && dice == Fresh(draws) && held == {}
                && isRolling == old(isRolling) && keep == old(keep)
      ensures old(Valid()) || old(numDice) != n ==> Valid()
      ensures !old(isRolling) ==> Synced()
    {
      if numDice == n {
        return;
      }
      numDice := n;
      dice := Fresh(draws);
      held := {};
    }

    /** `toggleHold(id)`: ignored while rolling, otherwise flips whether `id` is held. */
    method ToggleHold(id: int)
      modifies this
      ensures old(isRolling) ==> unchanged(this)
      ensures !old(isRolling) ==> held == Toggled(old(held), id)
      ensures numDice == old(numDice) && dice == old(dice)
      ensures isRolling == old(isRolling) && keep == old(keep)
      ensures old(Valid()) ==> Valid()
      ensures old(Synced()) ==> Synced()
    {
      if isRolling {
        return;
      }
      held := Toggled(held, id);
    }

    /** The start of `rollDice`: ignored while rolling, otherwise raises the flag and schedules a roll keeping the held dice. */
    method StartRoll()
      modifies this
      ensures old(isRolling) ==> unchanged(this)
      ensures !old(isRolling) ==> isRolling && keep == held
      ensures numDice == old(numDice) && dice == old(dice) && held == old(held)
      ensures old(Valid()) ==> Valid()
      ensures old(Synced()) ==> Synced()
    {
      if isRolling {
        return;
      }
      isRolling := true;
      keep := held;
    }

    /** The start of `rollAllDice`: ignored while rolling, otherwise releases every die and schedules a roll of all of them. */
    method StartRollAll()
      modifies this
      ensures old(isRolling) ==> unchanged(this)
      ensures !old(isRolling) ==> isRolling && held == {} && keep == {}
      ensures !old(isRolling) ==> !HasHeld()
      ensures numDice == old(numDice) && dice == old(dice)
      ensures old(Valid()) ==> Valid()
      ensures old(Synced()) ==> Synced()
    {
      if isRolling {
        return;
      }
      held := {};
      isRolling := true;
      keep := {};
    }

    /**
     * The scheduled completion of a roll, 800 ms after its start: the dice
     * not kept take the values of their draws and the flag falls.
     */
    method CompleteRoll(draws: seq<real>)
      requires isRolling
      requires |draws| == |dice| && AllDraws(draws)
      modifies this
      ensures dice == Rerolled(old(dice), old(keep), draws)
      ensures !isRolling
      ensures numDice == old(numDice) && held == old(held) && keep == old(keep)
      ensures old(Valid()) ==> Valid()
      ensures old(Synced()) ==>
                forall i :: 0 <= i < |dice| && dice[i].id in held ==> dice[i] == old(dice)[i]
    {
      dice := Rerolled(dice, keep, draws);
      isRolling := false;
    }
  }
}
