/** The reading settings table of lib/constants.ts. */
module Constants {

  // Default reading settings
  const DEFAULT_WPM: int := 300
  const DEFAULT_FONT_SIZE: int := 60

  // Words-per-minute bounds and slider step
  const MIN_WPM: int := 100
  const MAX_WPM: int := 1000
  const WPM_STEP: int := 50

  // Font size bounds and step
  const MIN_FONT_SIZE: int := 24
  const MAX_FONT_SIZE: int := 120
  const FONT_SIZE_STEP: int := 4

  // Delay multipliers for punctuation and word length
  const SENTENCE_END_DELAY: real := 2.5
  const COMMA_DELAY: real := 1.5
  const LONG_WORD_DELAY: real := 1.3
  const VERY_LONG_WORD_DELAY: real := 1.5
  const SHORT_WORD_DELAY: real := 0.8

  // Word length thresholds
  const LONG_WORD_THRESHOLD: int := 8
  const VERY_LONG_WORD_THRESHOLD: int := 12
  const SHORT_WORD_THRESHOLD: int := 3

  /** `v` is a position a slider from `lo` to `hi` in steps of `step` can take. */
  predicate OnGrid(v: int, lo: int, hi: int, step: int)
  {
    lo <= v <= hi && step > 0 && (v - lo) % step == 0
  }

  /** The number of positions of such a slider, both ends included. */
  function GridPositions(lo: int, hi: int, step: int): (n: nat)
    requires step > 0 && lo <= hi && (hi - lo) % step == 0
    ensures OnGrid(lo + (n - 1) * step, lo, hi, step) && lo + (n - 1) * step == hi
  {
    (hi - lo) / step + 1
  }

  lemma WpmSettingsConsistent()
    ensures MIN_WPM < MAX_WPM && WPM_STEP > 0
    ensures (MAX_WPM - MIN_WPM) % WPM_STEP == 0
    ensures OnGrid(DEFAULT_WPM, MIN_WPM, MAX_WPM, WPM_STEP)
    ensures OnGrid(MIN_WPM, MIN_WPM, MAX_WPM, WPM_STEP) && OnGrid(MAX_WPM, MIN_WPM, MAX_WPM, WPM_STEP)
    ensures GridPositions(MIN_WPM, MAX_WPM, WPM_STEP) == 19
  {
  }

  lemma FontSettingsConsistent()
    ensures MIN_FONT_SIZE < MAX_FONT_SIZE && FONT_SIZE_STEP > 0
    ensures (MAX_FONT_SIZE - MIN_FONT_SIZE) % FONT_SIZE_STEP == 0
    ensures OnGrid(DEFAULT_FONT_SIZE, MIN_FONT_SIZE, MAX_FONT_SIZE, FONT_SIZE_STEP)
    ensures GridPositions(MIN_FONT_SIZE, MAX_FONT_SIZE, FONT_SIZE_STEP) == 25
  {
  }

  lemma ThresholdsOrdered()
    ensures 0 < SHORT_WORD_THRESHOLD < LONG_WORD_THRESHOLD < VERY_LONG_WORD_THRESHOLD
  {
  }

  /**
   * The short-word multiplier lies below 1 and the long-word, comma and
   * sentence-end multipliers above it; the very-long-word multiplier is at least
   * the long-word one, and the sentence-end multiplier exceeds the comma one.
   */
  lemma DelayMultipliersOrdered()
    ensures 0.0 < SHORT_WORD_DELAY < 1.0 < LONG_WORD_DELAY <= VERY_LONG_WORD_DELAY
    ensures 1.0 < COMMA_DELAY < SENTENCE_END_DELAY
  {
  }
}
