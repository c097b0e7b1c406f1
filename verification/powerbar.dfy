/**
 The power bar: a slider value that fills continuously, gates the
 character buttons, and is spent when a unit is bought. Values are exact
 reals; the slider's own clamping is not modelled.
 */
module Powerbar {

  /** Fill per second, as a fraction of the full bar. */
  const FillRate: real := 0.04

  function Min(a: real, b: real): real {
    if a <= b then a else b
  }

  /** The outcome of a spend request: the new bar value and whether the spend happened. */
  datatype Spend = Spend(value: real, ok: bool)

  /**
   Spends `amount` percent of the bar. The request is refused, and the bar
   left alone, when it would take the value below zero or above one.
   */
  function UsePower(value: real, amount: real): (r: Spend)
    ensures r.ok <==> 0.0 <= value - amount / 100.0 <= 1.0
    ensures r.ok ==> r.value == value - amount / 100.0
    ensures !r.ok ==> r.value == value
  {
    var adjusted := amount / 100.0;
    if value - adjusted < 0.0 || value - adjusted > 1.0 then Spend(value, false)
    else Spend(value - adjusted, true)
  }

  predicate InRange(v: real) {
    0.0 <= v <= 1.0
  }

  /** A spend never takes the bar outside `[0, 1]`, granted or refused. */
  lemma UsePowerKeepsRange(value: real, amount: real)
    requires InRange(value)
    ensures InRange(UsePower(value, amount).value)
  {
  }

  /** A granted spend is undone by a granted spend of the negated amount. */
  lemma UsePowerRefund(value: real, amount: real)
    requires InRange(value) && UsePower(value, amount).ok
    ensures UsePower(UsePower(value, amount).value, -amount) == Spend(value, true)
  {
  }

  /** A character button is enabled once the bar, in percent, reaches the unit's power cost. */
  function ButtonInteractable(value: real, powerRequired: real): (r: bool)
    ensures r <==> value * 100.0 >= powerRequired
  {
    !(value * 100.0 < powerRequired)
  }

  /**
   For a bar within range and a non-negative cost, the button is enabled
   exactly when buying that unit would be granted.
   */
  lemma InteractableIffAffordable(value: real, powerRequired: real)
    requires InRange(value) && powerRequired >= 0.0
    ensures ButtonInteractable(value, powerRequired) <==> UsePower(value, powerRequired).ok
  {
  }

  /** One frame of filling, `dt` seconds long. */
  function Fill(value: real, dt: real): (r: real)
    ensures r - value <= 1.0 && r - value <= FillRate * dt
    ensures dt >= 0.0 ==> r >= value
    ensures r - value == FillRate * dt || r - value == 1.0
  {
    value + Min(FillRate * dt, 1.0)
  }

  /** Filling only ever enables buttons: one that was enabled stays enabled after a fill with `dt >= 0`. */
  lemma FillKeepsButtonsEnabled(value: real, dt: real, powerRequired: real)
    requires dt >= 0.0 && ButtonInteractable(value, powerRequired)
    ensures ButtonInteractable(Fill(value, dt), powerRequired)
  {
  }
}
