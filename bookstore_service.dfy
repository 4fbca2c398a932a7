/**
 * BookstoreService over an in-memory catalogue: request validation,
 * find-or-create of authors and genres, creating a book, updating its
 * price, deleting it and looking it up by id.
 */
module BookstoreService {
  import opened Text
  import opened Outcomes
  import opened FindOrCreate
  import AuthorEntity
  import GenreEntity
  import ReviewEntity
  import opened BookEntity

  type Author = AuthorEntity.Author
  type Genre = GenreEntity.Genre

  datatype CreateBookRequest = CreateBookRequest(title: string, price: real, authorNames: seq<string>, genreNames: seq<string>)

  datatype BookDto = BookDto(id: int, title: string, authors: seq<string>, genres: seq<string>, price: real, averageRating: real)

  function AuthorName(a: Author): string { a.name }

  function GenreName(g: Genre): string { g.name }

  /**
   * ValidateCreateRequest: checks in order a blank title, a price of 0 or
   * less, an empty author list and an empty genre list, each an
   * ArgumentException naming the parameter; the lists are only counted.
   */
  function ValidateCreateRequest(title: string, price: real, authorNames: seq<string>, genreNames: seq<string>): (r: Outcome<Error>)
    ensures r == Pass <==> !IsBlank(title) && price > 0.0 && authorNames != [] && genreNames != []
    ensures IsBlank(title) ==> r == Fail(ArgumentException("title"))
    ensures !IsBlank(title) && price <= 0.0 ==> r == Fail(ArgumentException("price"))
    ensures !IsBlank(title) && price > 0.0 && authorNames == [] ==> r == Fail(ArgumentException("authorNames"))
    ensures !IsBlank(title) && price > 0.0 && authorNames != [] && genreNames == [] ==> r == Fail(ArgumentException("genreNames"))
  {
    if IsBlank(title) then Fail(ArgumentException("title"))
    else if price <= 0.0 then Fail(ArgumentException("price"))
    else if |authorNames| == 0 then Fail(ArgumentException("authorNames"))
    else if |genreNames| == 0 then Fail(ArgumentException("genreNames"))
    else Pass
  }

  /** Authors the find-or-create creates: new Author(n, yearOfBirth: 0) for each name. */
  function NewAuthors(ns: seq<string>): (r: seq<Author>)
    ensures NamesOf(r, AuthorName) == ns
    ensures forall k :: 0 <= k < |r| ==> r[k].yearOfBirth == 0
  {
    seq(|ns|, k requires 0 <= k < |ns| => AuthorEntity.Author(ns[k], 0))
  }

  /** Genres the find-or-create creates: new Genre(n) for each name. */
  function NewGenres(ns: seq<string>): (r: seq<Genre>)
    ensures NamesOf(r, GenreName) == ns
  {
    seq(|ns|, k requires 0 <= k < |ns| => GenreEntity.Genre(ns[k]))
  }

  /**
   * The names handed to the entity constructors, computed against either
   * table, are already trimmed and not blank, so each constructor succeeds
   * and stores the name unchanged.
   */
  lemma CreatedEntitiesValid<T>(store: seq<T>, nameOf: T -> string, names: seq<string>)
    ensures forall n :: n in NamesToCreate(store, nameOf, names) ==>
      AuthorEntity.NewAuthor(n, 0) == Success(AuthorEntity.Author(n, 0))
      && GenreEntity.NewGenre(n) == Success(GenreEntity.Genre(n))
  {
    NamesToCreateSpec(store, nameOf, names);
    NormaliseSpec(names);
    forall n | n in NamesToCreate(store, nameOf, names)
      ensures AuthorEntity.NewAuthor(n, 0) == Success(AuthorEntity.Author(n, 0))
      ensures GenreEntity.NewGenre(n) == Success(GenreEntity.Genre(n))
    {
      TrimOfTrimmed(n);
    }
  }

  /** The average of the ratings, 0 without reviews (Reviews.Any() ? Average : 0). */
  function AverageRating(reviews: seq<ReviewEntity.Review>): real
  {
    if reviews == [] then 0.0 else (RatingSum(reviews) as real) / (|reviews| as real)
  }

  function RatingSum(reviews: seq<ReviewEntity.Review>): int
  {
    if reviews == [] then 0 else RatingSum(reviews[..|reviews| - 1]) + reviews[|reviews| - 1].rating
  }

  /** Ratings from 1 to 5 sum to between n and 5n. */
  lemma {:induction false} RatingSumBounds(reviews: seq<ReviewEntity.Review>)
    requires forall k :: 0 <= k < |reviews| ==> ReviewEntity.Valid(reviews[k])
    ensures |reviews| <= RatingSum(reviews) <= 5 * |reviews|
  {
    if reviews != [] {
      RatingSumBounds(reviews[..|reviews| - 1]);
      assert ReviewEntity.Valid(reviews[|reviews| - 1]);
    }
  }

  /** With valid reviews the average is 0 when there are none and between 1 and 5 otherwise. */
  lemma AverageRatingBounds(reviews: seq<ReviewEntity.Review>)
    requires forall k :: 0 <= k < |reviews| ==> ReviewEntity.Valid(reviews[k])
    ensures reviews == [] ==> AverageRating(reviews) == 0.0
    ensures reviews != [] ==> 1.0 <= AverageRating(reviews) <= 5.0
  {
    if reviews != [] {
      RatingSumBounds(reviews);
      QuotientBounds(RatingSum(reviews) as real, |reviews| as real);
    }
  }

  /** A sum of n values from 1 to 5, divided by n, lies between 1 and 5. */
  lemma QuotientBounds(s: real, n: real)
    requires n > 0.0 && n <= s <= 5.0 * n
    ensures 1.0 <= s / n <= 5.0
  {
    var q := s / n;
    assert q * n == s;
    assert (q - 1.0) * n >= 0.0 && (5.0 - q) * n >= 0.0;
  }

  /**
   * The store behind the service: books by id, and the author and genre
   * tables. nextId stands for the identity the store assigns on save.
   */
  class Catalogue {
    var books: map<int, Book>
    var authors: seq<Author>
    var genres: seq<Genre>
    var nextId: int

    /**
     * Every stored book is valid and carries its key as id, ids are below
     * nextId, and no two keys share a book object.
     */
    predicate Valid()
      reads this`books, this`nextId, books.Values
    {
      && nextId >= 1
      && (forall id :: id in books ==> books[id].Valid() && books[id].id == id && 1 <= id < nextId)
      && (forall i, j :: i in books && j in books && i != j ==> books[i] != books[j])
    }

    constructor ()
      ensures Valid() && books == map[] && authors == [] && genres == [] && nextId == 1
    {
      books := map[];
      authors := [];
      genres := [];
      nextId := 1;
    }

    /**
     * FindOrCreateAuthorsAsync: the stored authors with a normalised name,
     * then new authors for the normalised names none of them matches
     * ignoring case; the new ones are added to the author table.
     */
    method FindOrCreateAuthors(names: seq<string>) returns (result: seq<Author>)
      modifies this`authors
      ensures var created := NewAuthors(NamesToCreate(old(authors), AuthorName, names));
        && result == Matching(old(authors), AuthorName, Normalise(names)) + created
        && authors == old(authors) + created
    {
      var distinct := Normalise(names);
      var existing := Matching(authors, AuthorName, distinct);
      var toCreate := NewAuthors(ExceptIgnoreCase(distinct, NamesOf(existing, AuthorName)));
      authors := authors + toCreate;
      result := existing + toCreate;
    }

    /** FindOrCreateGenresAsync, the same steps over the genre table. */
    method FindOrCreateGenres(names: seq<string>) returns (result: seq<Genre>)
      modifies this`genres
      ensures var created := NewGenres(NamesToCreate(old(genres), GenreName, names));
        && result == Matching(old(genres), GenreName, Normalise(names)) + created
        && genres == old(genres) + created
    {
      var distinct := Normalise(names);
      var existing := Matching(genres, GenreName, distinct);
      var toCreate := NewGenres(ExceptIgnoreCase(distinct, NamesOf(existing, GenreName)));
      genres := genres + toCreate;
      result := existing + toCreate;
    }

    /**
     * CreateBookAsync: validate, find or create the authors and genres,
     * build the book, attach them one by one, save it under a new id and
     * return its DTO with average rating 0. A failed validation changes
     * nothing.
     */
    method CreateBook(request: CreateBookRequest) returns (r: Result<BookDto, Error>)
      requires Valid()
      modifies this`books, this`authors, this`genres, this`nextId
      ensures Valid()
      ensures var v := ValidateCreateRequest(request.title, request.price, request.authorNames, request.genreNames);
        && (v.Fail? ==> (r == Failure(v.error) && books == old(books) && authors == old(authors)
          && genres == old(genres) && nextId == old(nextId)))
        && (v == Pass ==> r.Success?)
      ensures r.Success? ==>
        var foundAuthors := Matching(old(authors), AuthorName, Normalise(request.authorNames));
        var foundGenres := Matching(old(genres), GenreName, Normalise(request.genreNames));
        var newAuthors := NewAuthors(NamesToCreate(old(authors), AuthorName, request.authorNames));
        var newGenres := NewGenres(NamesToCreate(old(genres), GenreName, request.genreNames));
        && authors == old(authors) + newAuthors && genres == old(genres) + newGenres
        && nextId == old(nextId) + 1 && old(nextId) in books
        && var book := books[old(nextId)];
        && fresh(book) && books == old(books)[old(nextId) := book]
        && book.authors == foundAuthors + newAuthors && book.genres == foundGenres + newGenres && book.reviews == []
        && r.value == BookDto(old(nextId), book.title, NamesOf(book.authors, AuthorName),
                              NamesOf(book.genres, GenreName), request.price, 0.0)
        && book.title == Trim(request.title) && book.price == request.price
    {
      var v := ValidateCreateRequest(request.title, request.price, request.authorNames, request.genreNames);
      if v.Fail? {
        return Failure(v.error);
      }
      var foundAuthors := FindOrCreateAuthors(request.authorNames);
      var foundGenres := FindOrCreateGenres(request.genreNames);
      var book := AddBook(request.title, request.price, foundAuthors, foundGenres);
      r := Success(BookDto(book.id, book.title, NamesOf(foundAuthors, AuthorName), NamesOf(foundGenres, GenreName), book.price, 0.0));
    }

    /**
     * The part of CreateBookAsync after the lookups: new Book(title, price),
     * the found authors and genres attached, saved under the next id.
     */
    method AddBook(title: string, price: real, foundAuthors: seq<Author>, foundGenres: seq<Genre>) returns (book: Book)
      requires Valid() && !IsBlank(title) && price > 0.0
      modifies this`books, this`nextId
      ensures Valid()
      ensures fresh(book) && book.id == old(nextId) && nextId == old(nextId) + 1 && books == old(books)[old(nextId) := book]
      ensures book.title == Trim(title) && book.price == price
      ensures book.authors == foundAuthors && book.genres == foundGenres && book.reviews == []
    {
      book := new Book(title, price);
      AttachAll(book, foundAuthors, foundGenres);
      Save(book);
    }

    /** context.Books.Add(book) and SaveChanges: the store gives the book the next id. */
    method Save(book: Book)
      requires Valid() && book.Valid() && book !in books.Values
      modifies this`books, this`nextId, book`id
      ensures Valid()
      ensures book.id == old(nextId) && nextId == old(nextId) + 1 && books == old(books)[old(nextId) := book]
    {
      book.id := nextId;
      books := books[nextId := book];
      nextId := nextId + 1;
    }

    /**
     * UpdateBookPriceAsync: a price of 0 or less is rejected before the
     * lookup; a missing id gives KeyNotFoundException; otherwise that
     * book's price becomes newPrice and nothing else changes.
     */
    method UpdateBookPrice(id: int, newPrice: real) returns (outcome: Outcome<Error>)
      requires Valid()
      modifies books.Values
      ensures Valid()
      ensures newPrice <= 0.0 ==> outcome == Fail(ArgumentException("newPrice"))
      ensures newPrice > 0.0 && id !in books ==> outcome == Fail(KeyNotFoundException(id))
      ensures newPrice > 0.0 && id in books ==> outcome == Pass && books[id].price == newPrice
      ensures forall j :: j in books && (j != id || outcome.Fail?) ==> books[j].price == old(books[j].price)
      ensures forall j :: j in books ==> (books[j].title == old(books[j].title) && books[j].authors == old(books[j].authors)
        && books[j].genres == old(books[j].genres) && books[j].reviews == old(books[j].reviews))
    {
      if newPrice <= 0.0 {
        return Fail(ArgumentException("newPrice"));
      }
      if id !in books {
        return Fail(KeyNotFoundException(id));
      }
      var book := books[id];
      outcome := book.UpdatePrice(newPrice);
    }

    /** DeleteBookAsync: a missing id gives KeyNotFoundException; otherwise exactly that book is removed. */
    method DeleteBook(id: int) returns (outcome: Outcome<Error>)
      requires Valid()
      modifies this`books
      ensures Valid()
      ensures id !in old(books) ==> outcome == Fail(KeyNotFoundException(id)) && books == old(books)
      ensures id in old(books) ==> outcome == Pass && books == old(books) - {id}
    {
      if id !in books {
        return Fail(KeyNotFoundException(id));
      }
      books := books - {id};
      return Pass;
    }

    /**
     * GetBookByIdAsync: None when no book has the id; otherwise the book's
     * DTO, whose authors and genres are the names in the book's lists.
     */
    function GetBookById(id: int): (r: Option<BookDto>)
      reads this, books.Values
      ensures r.None? <==> id !in books
      ensures r.Some? ==> (r.value.id == id && r.value.title == books[id].title && r.value.price == books[id].price
        && r.value.authors == NamesOf(books[id].authors, AuthorName)
        && r.value.genres == NamesOf(books[id].genres, GenreName)
        && r.value.averageRating == AverageRating(books[id].reviews))
    {
      if id in books then
        var b := books[id];
        Some(BookDto(id, b.title, NamesOf(b.authors, AuthorName), NamesOf(b.genres, GenreName), b.price, AverageRating(b.reviews)))
      else None
    }
  }

  /** The two foreach loops of CreateBookAsync: book.Authors.Add(a) for each author, then book.Genres.Add(g). */
  method AttachAll(book: Book, foundAuthors: seq<Author>, foundGenres: seq<Genre>)
    requires book.authors == [] && book.genres == []
    modifies book`authors, book`genres
    ensures book.authors == foundAuthors && book.genres == foundGenres
  {
    for i := 0 to |foundAuthors|
      invariant book.authors == foundAuthors[..i] && book.genres == []
    {
      book.authors := book.authors + [foundAuthors[i]];
    }
    for i := 0 to |foundGenres|
      invariant book.authors == foundAuthors && book.genres == foundGenres[..i]
    {
      book.genres := book.genres + [foundGenres[i]];
    }
  }

  /**
   * The request validation counts names but does not look at them: a
   * request whose author names are all blank passes it, and the
   * find-or-create then returns no author at all.
   */
  lemma BlankAuthorNamesPassValidation(title: string, price: real, authorNames: seq<string>, genreNames: seq<string>, store: seq<Author>)
    requires !IsBlank(title) && price > 0.0 && authorNames != [] && genreNames != []
    requires forall n :: n in authorNames ==> IsBlank(n)
    ensures ValidateCreateRequest(title, price, authorNames, genreNames) == Pass
    ensures Matching(store, AuthorName, Normalise(authorNames)) + NewAuthors(NamesToCreate(store, AuthorName, authorNames)) == []
  {
    NormaliseAllBlank(authorNames);
    MatchingNothing(store, AuthorName);
  }

  /**
   * The unit test that creates the same request twice: starting from empty
   * tables, the first request creates exactly the author "Same" and the
   * genre "SameG", and the second, run against the tables that now hold
   * them, creates nothing.
   */
  lemma SameRequestTwice(authorNames: seq<string>, genreNames: seq<string>)
    requires authorNames == ["Same"] && genreNames == ["SameG"]
    ensures var authors1 := NewAuthors(NamesToCreate([], AuthorName, authorNames));
      var genres1 := NewGenres(NamesToCreate([], GenreName, genreNames));
      && NamesOf(authors1, AuthorName) == ["Same"] && NamesOf(genres1, GenreName) == ["SameG"]
      && |authors1| == 1 && |genres1| == 1
      && NamesToCreate(authors1, AuthorName, authorNames) == []
      && NamesToCreate(genres1, GenreName, genreNames) == []
  {
    SameNamesTrimmed(authorNames, genreNames);
    OneNameTwice(authorNames, AuthorName, NewAuthors(NamesToCreate([], AuthorName, authorNames)));
    OneNameTwice(genreNames, GenreName, NewGenres(NamesToCreate([], GenreName, genreNames)));
  }

  /** The test's names are single, trimmed and not blank. */
  lemma SameNamesTrimmed(authorNames: seq<string>, genreNames: seq<string>)
    requires authorNames == ["Same"] && genreNames == ["SameG"]
    ensures |authorNames| == 1 && IsTrimmedNonBlank(authorNames[0])
    ensures |genreNames| == 1 && IsTrimmedNonBlank(genreNames[0])
  {
    assert !IsWhiteSpace('S') && !IsWhiteSpace('e') && !IsWhiteSpace('G');
  }

  /**
   * One trimmed, non-blank name against an empty table: the entities
   * created carry exactly that name, and asking again once they are
   * stored creates nothing.
   */
  lemma OneNameTwice<T>(names: seq<string>, nameOf: T -> string, created: seq<T>)
    requires |names| == 1 && IsTrimmedNonBlank(names[0])
    requires NamesOf(created, nameOf) == NamesToCreate([], nameOf, names)
    ensures NamesOf(created, nameOf) == names
    ensures NamesToCreate(created, nameOf, names) == []
  {
    OneNameCreatedOnce(names, nameOf);
    FindOrCreateIdempotent([], nameOf, names, created);
    assert [] + created == created;
  }

  /** A request of one trimmed, non-blank name against an empty table creates exactly that name. */
  lemma OneNameCreatedOnce<T>(names: seq<string>, nameOf: T -> string)
    requires |names| == 1 && IsTrimmedNonBlank(names[0])
    ensures NamesToCreate([], nameOf, names) == names
  {
    var n := names[0];
    TrimOfTrimmed(n);
    assert !IsBlank(n);
    assert names[..0] == [];
    assert NonBlankTrimmed(names) == [n];
    assert DistinctIgnoreCase([n]) == [n] by {
      assert [n][..0] == [];
      assert !ContainsIgnoreCase([], n);
      assert [] + [n] == [n];
    }
    assert Matching([], nameOf, [n]) == [];
    assert ExceptIgnoreCase([n], []) == [n] by {
      assert !ContainsIgnoreCase([], n);
      assert ExceptIgnoreCase([n], []) == [n] + ExceptIgnoreCase([], [n]);
    }
  }

  /** The unit test's ratings 5 and 3 average to 4. */
  lemma AverageOfFiveAndThree(reviews: seq<ReviewEntity.Review>)
    requires reviews == [ReviewEntity.Review("r1", 5), ReviewEntity.Review("r2", 3)]
    ensures AverageRating(reviews) == 4.0
  {
    var first := reviews[..1];
    assert first[..0] == [] && first[0] == reviews[0];
    assert RatingSum(first) == 5;
    assert RatingSum(reviews) == 8;
  }
}
