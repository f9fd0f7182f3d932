/** Byte strings and substring search.  A `char` stands for one byte. */
module Text {
  import opened Requests

  predicate OccursAt(hay: string, needle: string, i: nat) {
    i + |needle| <= |hay| && hay[i..i + |needle|] == needle
  }

  /** std::string::find: the first occurrence at or after `from`. */
  function Find(hay: string, needle: string, from: nat): (r: Option<nat>)
    ensures r.Some? ==> from <= r.value && OccursAt(hay, needle, r.value)
    ensures r.Some? ==> forall j | from <= j < r.value :: !OccursAt(hay, needle, j)
    ensures r.None? ==> forall j | j >= from :: !OccursAt(hay, needle, j)
    decreases |hay| - from
  {
    if from + |needle| > |hay| then None
    else if OccursAt(hay, needle, from) then Some(from)
    else Find(hay, needle, from + 1)
  }
}
