/**
 * The result presenter shared by both search modules: `get_movie_snippet` and
 * `get_movie_data` read one corpus record (boolean_search.py and vs_search.py hold
 * identical copies of `get_movie_data`).
 */
module Presentation {
  import opened Wrappers
  import opened Normalize

  const ExcerptLength := 300
  const Ellipsis := "......"

  /** `Text[:300] + '......'`. */
  function Excerpt(text: string): (e: string)
    ensures |e| == (if |text| < ExcerptLength then |text| else ExcerptLength) + |Ellipsis|
    ensures e[..|e| - |Ellipsis|] == text[..|e| - |Ellipsis|]
    ensures e[|e| - |Ellipsis|..] == Ellipsis
  {
    (if |text| < ExcerptLength then text else text[..ExcerptLength]) + Ellipsis
  }

  /** `Location[0] if len(Location) > 0 else Location`: a place, or the empty list itself. */
  datatype Location = Place(name: string) | NoPlace

  datatype MovieData = MovieData(title: string, director: string, location: Location, text: string)

  /**
   * `get_movie_data`: the first title, first director, first location (or the empty
   * list) and the text. A missing id raises KeyError and an empty Title or Director
   * list raises IndexError, here None.
   */
  function GetMovieData(docId: int, data: map<int, Record>): (m: Option<MovieData>)
    ensures m.None? <==> docId !in data || data[docId].title == [] || data[docId].director == []
    ensures m.Some? ==>
              var r := data[docId];
              && m.value.title == r.title[0]
              && m.value.director == r.director[0]
              && m.value.text == r.text
              && (m.value.location == NoPlace <==> r.location == [])
              && (r.location != [] ==> m.value.location == Place(r.location[0]))
  {
    if docId !in data then None
    else
      var r := data[docId];
      if r.title == [] || r.director == [] then None
      else Some(MovieData(r.title[0], r.director[0], if |r.location| > 0 then Place(r.location[0]) else NoPlace, r.text))
  }
}
