/**
 * One tick of `update_plot`: when to redraw the live chart and how the redraw counter
 * `last_update_count` follows the length of the log. Whether a figure exists and
 * whether drawing raises are inputs; the drawing itself is not modelled.
 */
module Refresh {

  datatype Step =
    | SkippedEmpty      // `if not temperature_log: return`
    | SkippedUnchanged  // `if len(temperature_log) == last_update_count: return`
    | SkippedNoFigure   // `if fig is None: return`
    | Redrawn           // drawing finished, counter updated
    | RenderFailed      // drawing raised; the `except` only logs

  /**
   * The guard chain of `update_plot`. A redraw happens exactly when the log is non-empty,
   * has changed since the last redraw, a figure exists and drawing succeeds.
   */
  function Decide(logLen: nat, last: nat, figPresent: bool, renderOk: bool): (step: Step)
    ensures step == Redrawn <==> logLen > 0 && logLen != last && figPresent && renderOk
    ensures step == SkippedEmpty <==> logLen == 0
  {
    if logLen == 0 then SkippedEmpty
    else if logLen == last then SkippedUnchanged
    else if !figPresent then SkippedNoFigure
    else if !renderOk then RenderFailed
    else Redrawn
  }

  /**
   * `last_update_count` after the tick: it moves only on a finished redraw, and then to
   * the log length.
   */
  function NextCount(step: Step, logLen: nat, last: nat): (n: nat)
    ensures n != last ==> step == Redrawn && n == logLen
    ensures step != Redrawn ==> n == last
  {
    if step == Redrawn then logLen else last
  }

  /** `last_update_count <= len(temperature_log)` is kept by a tick. */
  lemma CounterStaysBounded(logLen: nat, last: nat, figPresent: bool, renderOk: bool)
    requires last <= logLen
    ensures NextCount(Decide(logLen, last, figPresent, renderOk), logLen, last) <= logLen
  {
  }

  /** The same log is never drawn twice: the tick after a redraw skips. */
  lemma RedrawOnce(logLen: nat, last: nat, figPresent: bool, renderOk: bool, figPresent': bool, renderOk': bool)
    requires Decide(logLen, last, figPresent, renderOk) == Redrawn
    ensures Decide(logLen, NextCount(Redrawn, logLen, last), figPresent', renderOk') == SkippedUnchanged
  {
  }
}
