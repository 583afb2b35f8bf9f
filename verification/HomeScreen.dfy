/** The heading label of `HomeScreen`: a second copy of the eight-band table,
    applied to the displayed degree as it arrives, with no normalisation. */
module HomeScreen {
  import opened Results
  import opened Cardinals

  /** The `direction` when-expression over `currentDegree`. The north branch
      comes first and takes everything below 22.5 or from 337.5 up (negative values
      and values past a full turn included); every other band is half-open.
      The bands cover the whole line, so the `null` branch is never taken, and
      a non-north result is the point whose anchor is within 22.5 degrees. */
  function Direction(currentDegree: real): (r: Option<Cardinal>)
    ensures r.Some?
    ensures r.value == NORTH <==> (currentDegree < 22.5 || currentDegree >= 337.5)
    ensures r.value != NORTH ==>
              (r.value.Degree() as real) - 22.5 <= currentDegree < (r.value.Degree() as real) + 22.5
  {
    if currentDegree >= 337.5 || currentDegree < 22.5 then Some(NORTH)
    else if currentDegree >= 22.5 && currentDegree < 67.5 then Some(NORTHEAST)
    else if currentDegree >= 67.5 && currentDegree < 112.5 then Some(EAST)
    else if currentDegree >= 112.5 && currentDegree < 157.5 then Some(SOUTHEAST)
    else if currentDegree >= 157.5 && currentDegree < 202.5 then Some(SOUTH)
    else if currentDegree >= 202.5 && currentDegree < 247.5 then Some(SOUTHWEST)
    else if currentDegree >= 247.5 && currentDegree < 292.5 then Some(WEST)
    else if currentDegree >= 292.5 && currentDegree < 337.5 then Some(NORTHWEST)
    else None
  }

  /** `letter`: the matched point's letter, falling back to the empty string
      for `null`. Since a direction always matches, the label is never empty. */
  function Letter(currentDegree: real): (s: string)
    ensures 1 <= |s| <= 2
    ensures exists c: Cardinal :: Direction(currentDegree) == Some(c) && s == c.Letter()
  {
    match Direction(currentDegree)
    case Some(c) => c.Letter()
    case None => ""
  }

  /** Band boundaries belong to the band above them. */
  lemma DirectionBoundaries()
    ensures Direction(22.5) == Some(NORTHEAST)
    ensures Direction(22.4999) == Some(NORTH)
    ensures Direction(67.5) == Some(EAST)
    ensures Direction(337.5) == Some(NORTH)
    ensures Direction(400.0) == Some(NORTH)
    ensures Direction(-10.0) == Some(NORTH)
    ensures Letter(100.0) == "E"
  {
  }
}
