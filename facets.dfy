/** The facet predicates. A selection is the text of a drop-down, and the
    empty text (JavaScript's only falsy string) means "no constraint". */
module Facets {

  import opened Wrappers

  /** `includesOrAny`: an empty selection admits everything, a tag list that
      is absent (or not an array) admits no other selection, and otherwise
      the selection must be one of the tags. */
  function IncludesOrAny(tags: Option<seq<string>>, value: string): (b: bool)
    ensures value == "" ==> b
    ensures value != "" && tags.None? ==> !b
    ensures value != "" && tags.Some? ==>
              (b <==> exists i :: 0 <= i < |tags.value| && tags.value[i] == value)
  {
    if value == "" then true
    else if tags.None? then false
    else value in tags.value
  }

  /** `matchesStringField`: an empty selection admits everything, otherwise
      the field must equal the selection exactly. */
  function MatchesStringField(fieldValue: string, selected: string): (b: bool)
    ensures selected == "" ==> b
    ensures selected != "" ==> (b <==> fieldValue == selected)
  {
    if selected == "" then true else fieldValue == selected
  }

  /** `matchesArrayField`: its own empty-selection guard changes nothing, so
      it agrees with `includesOrAny` on every input. */
  function MatchesArrayField(tags: Option<seq<string>>, selected: string): (b: bool)
    ensures b == IncludesOrAny(tags, selected)
    ensures selected == "" ==> b
    ensures selected != "" ==> (b <==> tags.Some? && selected in tags.value)
  {
    if selected == "" then true else IncludesOrAny(tags, selected)
  }
}
