/** The fixed severity table and the `overall_severity` field of the response. */
module Severity {
  import opened Wrappers

  /** `{ level, text }`; `text` is None where the table has no entry (JavaScript `undefined`). */
  datatype Overall = Overall(level: int, text: Option<string>)

  /** The fixed level table (src/app.js:104): 1 is Low, 2 Moderate, 3 Severe; any other level has no entry. */
  function LevelText(level: int): (text: Option<string>)
    ensures text.Some? <==> 1 <= level <= 3
    ensures text.Some? ==> text.value in {"Low", "Moderate", "Severe"}
    ensures text == Some("Low") <==> level == 1
    ensures text == Some("Moderate") <==> level == 2
    ensures text == Some("Severe") <==> level == 3
  {
    if level == 1 then Some("Low")
    else if level == 2 then Some("Moderate")
    else if level == 3 then Some("Severe")
    else None
  }

  /**
   * `overall_severity` (src/app.js:105): null when the running level is 0 or
   * less, otherwise that level together with its entry in the table.
   */
  function OverallSeverity(level: int): (o: Option<Overall>)
    ensures o.None? <==> level <= 0
    ensures o.Some? ==> o.value.level == level && o.value.text == LevelText(level)
  {
    if level > 0 then Some(Overall(level, LevelText(level))) else None
  }
}
