/** The Book entity: title and price checked at construction; the price can be updated. */
module BookEntity {
  import opened Text
  import opened Outcomes
  import opened AuthorEntity
  import opened GenreEntity
  import opened ReviewEntity

  class Book {
    /** Assigned by the store when the book is saved; 0 until then. */
    var id: int
    var title: string
    var price: real
    var authors: seq<Author>
    var genres: seq<Genre>
    var reviews: seq<Review>

    /** The invariant the constructor establishes: a trimmed, non-blank title and a positive price. */
    predicate Valid()
      reads this`title, this`price
    {
      IsTrimmedNonBlank(title) && price > 0.0
    }

    /** new Book(title, price) on inputs that pass its checks (see NewBook for the others). */
    constructor (title: string, price: real)
      requires !IsBlank(title) && price > 0.0
      ensures Valid()
      ensures this.title == Trim(title) && this.price == price && id == 0
      ensures authors == [] && genres == [] && reviews == []
    {
      TrimmedNonBlank(title);
      this.id := 0;
      this.title := Trim(title);
      this.price := price;
      this.authors := [];
      this.genres := [];
      this.reviews := [];
    }

    /**
     * UpdatePrice: a price of 0 or less throws ArgumentException for
     * "newPrice" and changes nothing; otherwise only the price changes.
     */
    method UpdatePrice(newPrice: real) returns (outcome: Outcome<Error>)
      requires Valid()
      modifies this`price
      ensures Valid()
      ensures newPrice <= 0.0 ==> outcome == Fail(ArgumentException("newPrice")) && price == old(price)
      ensures newPrice > 0.0 ==> outcome == Pass && price == newPrice
    {
      if newPrice <= 0.0 {
        return Fail(ArgumentException("newPrice"));
      }
      price := newPrice;
      return Pass;
    }
  }

  /**
   * new Book(title, price) with its checks: a blank title throws
   * ArgumentException, checked first; a price of 0 or less throws
   * ArgumentOutOfRangeException; otherwise a new book with the trimmed
   * title, the price and no authors, genres or reviews.
   */
  method NewBook(title: string, price: real) returns (r: Result<Book, Error>)
    ensures IsBlank(title) ==> r == Failure(ArgumentException("title"))
    ensures !IsBlank(title) && price <= 0.0 ==> r == Failure(ArgumentOutOfRangeException("price"))
    ensures !IsBlank(title) && price > 0.0 ==>
      r.Success? && fresh(r.value) && r.value.Valid()
      && r.value.title == Trim(title) && r.value.price == price
      && r.value.authors == [] && r.value.genres == [] && r.value.reviews == []
  {
    if IsBlank(title) {
      return Failure(ArgumentException("title"));
    }
    if price <= 0.0 {
      return Failure(ArgumentOutOfRangeException("price"));
    }
    var book := new Book(title, price);
    return Success(book);
  }
}
