/** The Author entity: a name and a year of birth, fixed at construction. */
module AuthorEntity {
  import opened Text
  import opened Outcomes

  datatype Author = Author(name: string, yearOfBirth: int)

  /** Every constructed author has a trimmed, non-blank name. */
  predicate Valid(a: Author)
  {
    IsTrimmedNonBlank(a.name)
  }

  /**
   * new Author(name, yearOfBirth): a blank name throws ArgumentException
   * for "name"; otherwise the name is stored trimmed and the year as given.
   */
  function NewAuthor(name: string, yearOfBirth: int): (r: Result<Author, Error>)
    ensures r.Failure? <==> IsBlank(name)
    ensures r.Failure? ==> r.error == ArgumentException("name")
    ensures r.Success? ==> r.value.name == Trim(name) && r.value.yearOfBirth == yearOfBirth && Valid(r.value)
  {
    if IsBlank(name) then Failure(ArgumentException("name"))
    else
      TrimmedNonBlank(name);
      Success(Author(Trim(name), yearOfBirth))
  }

  /** Constructing again from a valid author's own fields gives the same author. */
  lemma NewAuthorOfValid(a: Author)
    requires Valid(a)
    ensures NewAuthor(a.name, a.yearOfBirth) == Success(a)
  {
    TrimOfTrimmed(a.name);
  }
}
