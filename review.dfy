/** The Review entity: a description and a rating from 1 to 5, fixed at construction. */
module ReviewEntity {
  import opened Text
  import opened Outcomes

  datatype Review = Review(description: string, rating: int)

  /** Every constructed review has a trimmed, non-blank description and a rating in 1..5. */
  predicate Valid(r: Review)
  {
    IsTrimmedNonBlank(r.description) && 1 <= r.rating <= 5
  }

  /**
   * new Review(description, rating): a blank description throws
   * ArgumentException, checked first; a rating outside 1..5 throws
   * ArgumentOutOfRangeException; otherwise the description is stored
   * trimmed and the rating as given.
   */
  function NewReview(description: string, rating: int): (r: Result<Review, Error>)
    ensures r.Success? <==> !IsBlank(description) && 1 <= rating <= 5
    ensures IsBlank(description) ==> r == Failure(ArgumentException("description"))
    ensures !IsBlank(description) && !(1 <= rating <= 5) ==> r == Failure(ArgumentOutOfRangeException("rating"))
    ensures r.Success? ==> r.value.description == Trim(description) && r.value.rating == rating && Valid(r.value)
  {
    if IsBlank(description) then Failure(ArgumentException("description"))
    else if rating < 1 || rating > 5 then Failure(ArgumentOutOfRangeException("rating"))
    else
      TrimmedNonBlank(description);
      Success(Review(Trim(description), rating))
  }

  /** Constructing again from a valid review's own fields gives the same review. */
  lemma NewReviewOfValid(r: Review)
    requires Valid(r)
    ensures NewReview(r.description, r.rating) == Success(r)
  {
    TrimOfTrimmed(r.description);
  }
}
