/** The speed of a bit cell, relative to the average cell of its track. */
module Speed {
  const SPEED_AVG: nat := 1000

  /** Marks a weak cell, which lasts as long as an average one. */
  const SPEED_WEAK: nat := 0xfffe
}
