/** The Genre entity: a name fixed at construction. */
module GenreEntity {
  import opened Text
  import opened Outcomes

  datatype Genre = Genre(name: string)

  /** Every constructed genre has a trimmed, non-blank name. */
  predicate Valid(g: Genre)
  {
    IsTrimmedNonBlank(g.name)
  }

  /**
   * new Genre(name): a blank name throws ArgumentException for "name";
   * otherwise the name is stored trimmed.
   */
  function NewGenre(name: string): (r: Result<Genre, Error>)
    ensures r.Failure? <==> IsBlank(name)
    ensures r.Failure? ==> r.error == ArgumentException("name")
    ensures r.Success? ==> r.value.name == Trim(name) && Valid(r.value)
  {
    if IsBlank(name) then Failure(ArgumentException("name"))
    else
      TrimmedNonBlank(name);
      Success(Genre(Trim(name)))
  }

  /** Constructing again from a valid genre's name gives the same genre. */
  lemma NewGenreOfValid(g: Genre)
    requires Valid(g)
    ensures NewGenre(g.name) == Success(g)
  {
    TrimOfTrimmed(g.name);
  }
}
