/** The grammar that the validator accepts, by recursive descent. */
module Grammar {
  import opened Basics
  import opened Values
  import opened Heads
  import opened Validator

  /** Where a run of items stands: on the outside, or in a container. */
  datatype Place = Outermost | Inside(isMap: bool)

  /** `Good`: a run of valid items; `marker` says that the byte that ends it ends an end marker.
      `Cut`: valid items, then a scalar whose head is cut short by the end of the run.
      `Bad`: anything else. */
  datatype Verdict = Bad | Cut | Good(marker: bool)

  /** The parity of the number of items, kept for maps only. */
  function Flip(place: Place, odd: bool): bool {
    place == Inside(true) && !odd
  }

  /** A run that goes on behind a nested one. The nested one may only be cut at the very end. */
  function Then(first: Verdict, nothingLeft: bool, second: Verdict): Verdict {
    match first
    case Bad => Bad
    case Cut => if nothingLeft && second.Good? then Cut else Bad
    case Good(_) => second
  }

  function MarkerOf(v: Verdict): bool {
    v.Good? && v.marker
  }

  /** Judges all of `bs` as the rest of a run of which an even or odd number of items is done. */
  function Run(place: Place, odd: bool, bs: seq<byte>, marker: bool): Verdict
    decreases |bs|
  {
    if bs == [] then
      if odd then Bad else Good(marker)
    else
      var (i, rest) := ReadHead(ZERO_INITIAL, bs);
      if CheckHead(ZERO_INITIAL, bs) == Continue then
        if place.Inside? && !i.TypeHasSlice() && !odd then Cut else Bad
      else if CheckHead(ZERO_INITIAL, bs) != Done then Bad
      else if !i.TypeHasSlice() then Run(place, Flip(place, odd), rest, i.IsEndMarker())
      else if |rest| < i.value then Bad
      else if i.TypeHasNesting() then
        if i.value == 0 then Bad
        else
          var inner := Run(Inside(IsMap(i)), false, rest[..i.value], false);
          Then(inner, rest[i.value..] == [], Run(place, Flip(place, odd), rest[i.value..], MarkerOf(inner)))
      else if place.Inside? && rest == [] then Bad
      else if i.typ == TYPE_TEXT && !TextBytes(rest[..i.value]) then Bad
      else Run(place, Flip(place, odd), rest[i.value..], false)
  }
}
