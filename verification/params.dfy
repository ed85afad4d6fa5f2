/** Query-parameter rules of the two history endpoints. */
module Params {
  import opened Base

  /** Window used when a query gives none (one hour). */
  const DEFAULT_WINDOW_SECONDS: int := 3600

  /** Window of the "day" statistics preset. */
  const DAY_SECONDS: int := 24 * 3600

  /** `since` of `/api/events`: `arg` is `None` when the request has no `since` argument,
      otherwise the number the argument text parsed to (0 for text that is not a number).
      A non-positive value falls back to the default rather than being an error. */
  function SinceSeconds(arg: Option<int>): (s: int)
    // the window is always a positive length
    ensures s > 0
    // a usable value is taken as given
    ensures arg.Some? && arg.value > 0 ==> s == arg.value
    // an absent or non-positive value gives one hour
    ensures arg.None? || arg.value <= 0 ==> s == DEFAULT_WINDOW_SECONDS
  {
    match arg
    case None => DEFAULT_WINDOW_SECONDS
    case Some(v) => if v <= 0 then DEFAULT_WINDOW_SECONDS else v
  }

  /** `range` of `/api/stats` (an absent argument reads as the empty text). */
  function RangeSeconds(range: string): (s: int)
    ensures s == DAY_SECONDS <==> range == "day"
    ensures s != DAY_SECONDS <==> s == DEFAULT_WINDOW_SECONDS
  {
    if range == "day" then DAY_SECONDS else DEFAULT_WINDOW_SECONDS
  }
}
