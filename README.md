# Bookstore: fuzzy-deduplicating import and catalogue rules, in Dafny

This project models two parts of the Bookstore system.

The first is the hourly book import job (`BookImportJob`). It runs in three steps:

- **Snapshot.** It builds a snapshot of store titles. These are the stored titles that equal one of the trimmed, case-insensitively distinct incoming titles.
- **Filter.** It drops records with a blank title. It skips, and counts in `skipFuzzy`, every record whose trimmed title is within the threshold of a snapshot title by Levenshtein distance. It keeps the rest, in order, in `toAdd`.
- **Commit.** It commits `toAdd` in consecutive slices of at most 2000 records.

The Levenshtein distance is the job's own full-table dynamic program, and it is proved equal to the edit-distance recurrence.

The second part is the catalogue service (`BookstoreService`):

- request validation;
- case-insensitive find-or-create of authors and genres;
- creating a book;
- updating a book's price;
- deleting a book;
- looking a book up by id.

It also covers the validating constructors of the entities `Book`, `Review`, `Author` and `Genre`, and `Book.UpdatePrice`.

Files:

- `outcomes.dfy`: `Option`, `Result`, `Outcome`, and the exceptions the code throws, as values.
- `text.dfy`: `IsNullOrWhiteSpace`, `Trim`, ordinal case-insensitive comparison, `Distinct` and `Except` with `OrdinalIgnoreCase`.
- `levenshtein.dfy`: `ComputeLevenshtein` over a `dp` array, the recurrence, and its properties.
- `book_import.dfy`: the snapshot, the filter loop, the batch loop, the whole import run, and the unit tests' classifier and scenario.
- `author.dfy`, `genre.dfy`, `review.dfy`: each entity as a value with a smart constructor.
- `book.dfy`: `Book` as a class with `UpdatePrice`.
- `find_or_create.dfy`: the name normalisation, lookup and "to create" computation shared by authors and genres.
- `bookstore_service.dfy`: the service over an in-memory `Catalogue` class, plus the unit tests' scenarios.

## Model

| member | source | states |
|---|---|---|
| Levenshtein.ComputeLevenshtein | BookstoreSync/Jobs/BookImportJob.cs:78-95 | The value returned by the table algorithm is the edit distance defined by the recurrence D(i,0)=i, D(0,j)=j, D(i,j)=min(D(i-1,j)+1, D(i,j-1)+1, D(i-1,j-1)+cost). |
| Levenshtein.FillRow | BookstoreSync/Jobs/BookImportJob.cs:86-92 | Given a correct previous row and the first column, the inner loop makes row i equal to the recurrence and leaves every other row untouched. |
| Levenshtein.FillCell | BookstoreSync/Jobs/BookImportJob.cs:87-91 | One cell, computed from its three neighbours as min(deletion, insertion, substitution), equals the recurrence; no other cell changes. |
| Levenshtein.DistanceFromEmpty | BookstoreSync/Jobs/BookImportJob.cs:81-82 | The distance from or to the empty string is the other string's length. |
| Levenshtein.DistanceZeroIff | BookstoreSync/Jobs/BookImportJob.cs:78-95 | The distance is 0 exactly when the strings are equal. |
| Levenshtein.DistanceSymmetric | BookstoreSync/Jobs/BookImportJob.cs:78-95 | The distance does not depend on argument order. |
| Levenshtein.DistBounds | BookstoreSync/Jobs/BookImportJob.cs:78-95 | Every table entry lies between the difference of the prefix lengths and the larger prefix length. |
| Levenshtein.DistCountBound | BookstoreSync/Jobs/BookImportJob.cs:78-95 | For any set of characters, the prefix distance is at least how many more of them the first prefix holds than the second. |
| Levenshtein.AdjacentSwap | BookstoreSync/Jobs/BookImportJob.cs:78-95 | Swapping two adjacent, different characters gives distance exactly 2. |
| Levenshtein.KittenSitting | BookstoreSync/Jobs/BookImportJob.cs:78-95 | distance("kitten", "sitting") is 3. |
| Levenshtein.ThreeEditsAtMost | BookstoreSync/Jobs/BookImportJob.cs:78-95 | Two strings of lengths 6 and 7 that agree at position 5 and on positions 1..3 are at most 3 edits apart. |
| Levenshtein.ThreeEditsAtLeast | BookstoreSync/Jobs/BookImportJob.cs:78-95 | When the second string holds at least 3 more characters of some set than the first, the distance is at least 3. |
| Levenshtein.CrimeAndPunishmentTypo | BookstoreApi.UnitTests/Services/BookImportJobTests.cs:9-21 | distance("Crime and punishment", "Criem and punishment") is 2. |
| Levenshtein.CrimeAndPunishmentThresholds | BookstoreApi.UnitTests/Services/BookImportJobTests.cs:60-79 | That pair is within thresholds 2 and 3 and outside thresholds 0 and 1. |
| BookImport.IncomingTitlesSpec | BookstoreSync/Jobs/BookImportJob.cs:22-26 | The incoming titles are trimmed, non-blank and distinct ignoring case. Each is the trimmed title of some fetched record, and every non-blank fetched title is among them ignoring case. |
| BookImport.ExistingTitlesSpec | BookstoreSync/Jobs/BookImportJob.cs:28-31 | The snapshot holds exactly the stored titles that equal an incoming title, and is no longer than the store. |
| BookImport.AnyWithinThreshold | BookstoreSync/Jobs/BookImportJob.cs:43-44 | The scan finds a match exactly when some snapshot title is within the threshold of the title. |
| BookImport.FilterImported | BookstoreSync/Jobs/BookImportJob.cs:34-54 | The loop's toAdd and skipFuzzy equal the filter's accepted list and skipped count. |
| BookImport.PartitionCount | BookstoreSync/Jobs/BookImportJob.cs:34-54 | skipped + accepted = number of records with a non-blank title; blank titles land in neither. |
| BookImport.AcceptedMembers | BookstoreSync/Jobs/BookImportJob.cs:39-53 | A record is accepted exactly when it is fetched, its trimmed title is non-blank, and no snapshot title is within the threshold; other fetched records play no part. |
| BookImport.AcceptedInOrder | BookstoreSync/Jobs/BookImportJob.cs:34-54 | The accepted list is the fetched list at a strictly increasing sequence of positions, which are exactly the kept positions. |
| BookImport.AcceptedConcat | BookstoreSync/Jobs/BookImportJob.cs:34-54 | The filter works record by record: filtering a concatenation is concatenating the filtered parts. |
| BookImport.FilterIdempotent | BookstoreSync/Jobs/BookImportJob.cs:34-54 | Filtering the accepted list again, against the same snapshot, changes nothing. |
| BookImport.CommitInBatches | BookstoreSync/Jobs/BookImportJob.cs:59-72 | The loop advancing by 2000 commits the slices Batches(toAdd). |
| BookImport.BatchesSpec | BookstoreSync/Jobs/BookImportJob.cs:59-72 | The slices concatenate to toAdd. Each is non-empty with at most 2000 records, and all but the last have exactly 2000. There are ceil(n/2000) of them, and none when toAdd is empty. |
| BookImport.FourThousandFiveHundred | BookstoreSync/Jobs/BookImportJob.cs:59-72 | 4500 records are committed as the slices [0,2000), [2000,4000) and [4000,4500). |
| BookImport.RunImport | BookstoreSync/Jobs/BookImportJob.cs:22-72 | The whole run: snapshot, then filter against it, then commit. skipFuzzy + toAdd count the non-blank records, and the committed slices concatenate to toAdd. |
| BookImport.SkipNeedsIncomingStoreTitle | BookstoreSync/Jobs/BookImportJob.cs:22-44 | A record is skipped only when a stored title is within the threshold of its trimmed title, and that stored title is itself an incoming title: the trimmed title of some fetched record. |
| BookImport.ClassifierAgreesWithJob | BookstoreApi.UnitTests/Services/BookImportJobTests.cs:36-53 | The test's two-step classifier (exact ignoring case, then fuzzy) relates to the job's one test: when it says novel, the job keeps the record; an exact case-sensitive match is classified exact and skipped by the job; a record the job keeps but the classifier rejects equals an existing title ignoring case, differing from it in letter case only. |
| BookImport.TestScenario | BookstoreApi.UnitTests/Services/BookImportJobTests.cs:24-58 | Against the store title "Crime and punishment" with threshold 2: the exact title and the typo are skipped (classified exact and fuzzy), and "A Completely New Book" is the only record added. |
| AuthorEntity.NewAuthor | BookstoreSync/Entities/Author.cs:13-20 | A blank name is an ArgumentException; otherwise the name is stored trimmed (hence non-blank) and the year unvalidated. |
| AuthorEntity.NewAuthorOfValid | BookstoreSync/Entities/Author.cs:13-20 | Re-constructing a valid author from its fields gives the same author. |
| GenreEntity.NewGenre | BookstoreSync/Entities/Genre.cs:12-18 | A blank name is an ArgumentException; otherwise the name is stored trimmed and non-blank. |
| GenreEntity.NewGenreOfValid | BookstoreSync/Entities/Genre.cs:12-18 | Re-constructing a valid genre from its name gives the same genre. |
| ReviewEntity.NewReview | BookstoreSync/Entities/Review.cs:14-24 | A blank description is an ArgumentException, checked first, and a rating outside 1..5 an ArgumentOutOfRangeException. Otherwise the review holds the trimmed description and the rating. |
| ReviewEntity.NewReviewOfValid | BookstoreSync/Entities/Review.cs:14-24 | Re-constructing a valid review from its fields gives the same review. |
| BookEntity.Book.constructor | BookstoreSync/Entities/Book.cs:9-25 | A constructed book is valid: trimmed, non-blank title and positive price. It has the given price, and empty author, genre and review lists. |
| BookEntity.NewBook | BookstoreSync/Entities/Book.cs:15-25 | A blank title is an ArgumentException, checked before the price; a price of 0 or less is an ArgumentOutOfRangeException; otherwise a fresh valid book with the trimmed title and the price. |
| BookEntity.Book.UpdatePrice | BookstoreSync/Entities/Book.cs:27-33 | A price of 0 or less is an ArgumentException and leaves the price; otherwise the price is set. Only the price field can change, and validity is preserved. |
| FindOrCreate.NormaliseSpec | BookstoreApi/Services/BookstoreService.cs:155-159 | The normalised names are trimmed forms of requested names. They are non-blank and pairwise different ignoring case, and every non-blank requested name is among them ignoring case. The trimmed non-blank names are the trimmed forms of exactly the non-blank requested names, in request order, and the normalised names are the first of each case-insensitive class among them, in order. |
| FindOrCreate.NonBlankTrimmedInOrder | BookstoreApi/Services/BookstoreService.cs:155-157 | Dropping blank names and trimming the rest maps, in order, every non-blank requested name to its trimmed form and no other. |
| FindOrCreate.MatchingSpec | BookstoreApi/Services/BookstoreService.cs:161-163 | The lookup returns exactly the stored entities whose name equals one of the normalised names. |
| FindOrCreate.NamesToCreateSpec | BookstoreApi/Services/BookstoreService.cs:165-168 | The names to create are exactly the normalised names no found entity matches ignoring case, with no case-insensitive duplicates. |
| FindOrCreate.FoundOrCreatedCoverRequest | BookstoreApi/Services/BookstoreService.cs:153-173 | Every non-blank requested name matches, ignoring case, an entity in existing ++ toCreate. |
| FindOrCreate.FindOrCreateIdempotent | BookstoreApi/Services/BookstoreService.cs:153-173 | After the created entities are stored, the same names create nothing more. |
| BookstoreService.ValidateCreateRequest | BookstoreApi/Services/BookstoreService.cs:137-151 | It passes exactly for a non-blank title, positive price and non-empty author and genre lists. Otherwise it gives an ArgumentException for the first failing check, in the order title, price, authorNames, genreNames. |
| BookstoreService.CreatedEntitiesValid | BookstoreApi/Services/BookstoreService.cs:165-168 | For either table, the names passed to new Author(n, 0) or new Genre(n) are already trimmed and non-blank, so the constructor does not throw and keeps the name. |
| BookstoreService.AverageRatingBounds | BookstoreApi/Services/BookstoreService.cs:47 | With valid reviews the average rating is 0 when there are none and between 1 and 5 otherwise. |
| BookstoreService.Catalogue.FindOrCreateAuthors | BookstoreApi/Services/BookstoreService.cs:153-173 | It returns the matching stored authors followed by new authors (year 0) for the names to create, and the author table grows by exactly those. |
| BookstoreService.Catalogue.FindOrCreateGenres | BookstoreApi/Services/BookstoreService.cs:175-195 | The same for genres and the genre table. |
| BookstoreService.Catalogue.CreateBook | BookstoreApi/Services/BookstoreService.cs:73-105 | A failed validation returns its exception and changes nothing; a passing one always succeeds. Then the store gains exactly one fresh book under a new id, holding the trimmed title, the price, and the found-or-created authors and genres. The returned DTO has those names, that price and average rating 0. |
| BookstoreService.Catalogue.AddBook | BookstoreApi/Services/BookstoreService.cs:82-95 | The new book, with the given authors and genres attached and no reviews, is stored under the next id; the store stays valid. |
| BookstoreService.Catalogue.Save | BookstoreApi/Services/BookstoreService.cs:93-95 | Saving adds the book under a new id it is given, and keeps every stored book valid with distinct ids. |
| BookstoreService.AttachAll | BookstoreApi/Services/BookstoreService.cs:84-91 | After the two loops the book's authors and genres are exactly the found lists, in order. |
| BookstoreService.Catalogue.UpdateBookPrice | BookstoreApi/Services/BookstoreService.cs:107-126 | A price of 0 or less is an ArgumentException before any lookup, and a missing id a KeyNotFoundException. Otherwise that book's price becomes the new price. No other price, and no title or list, changes. |
| BookstoreService.Catalogue.DeleteBook | BookstoreApi/Services/BookstoreService.cs:128-135 | A missing id is a KeyNotFoundException and changes nothing; otherwise exactly that book is removed. |
| BookstoreService.Catalogue.GetBookById | BookstoreApi/Services/BookstoreService.cs:31-52 | The result is none exactly when no book has the id. Otherwise it is the book's DTO: id, title, price, author and genre names, and average rating. |
| BookstoreService.BlankAuthorNamesPassValidation | BookstoreApi/Services/BookstoreService.cs:137-173 | Validation only counts the names: a request whose author names are all blank passes it, and find-or-create then yields no author at all. |
| BookstoreService.SameRequestTwice | BookstoreApi.UnitTests/Services/BookstoreServiceTests.cs:179-199 | Sending the request twice from empty tables creates one author "Same" and one genre "SameG" the first time, and nothing the second. |
| BookstoreService.OneNameTwice | BookstoreApi.UnitTests/Services/BookstoreServiceTests.cs:179-199 | For a one-name request from an empty table, the created entities carry exactly that name, and the same name again creates nothing. |
| BookstoreService.AverageOfFiveAndThree | BookstoreApi.UnitTests/Services/BookstoreServiceTests.cs:72-97 | Reviews rated 5 and 3 average to 4. |
| Text.TrimSpec | BookstoreSync/Jobs/BookImportJob.cs:39 | Trim returns a contiguous slice of the string with only white space before and after it. It gives the empty string exactly for a blank one, and otherwise starts and ends with non-white space. |
| Text.TrimIdempotent | BookstoreSync/Jobs/BookImportJob.cs:39 | Trimming twice is trimming once. |
| Text.DistinctIgnoreCaseSpec | BookstoreApi/Services/BookstoreService.cs:155-159 | Distinct with OrdinalIgnoreCase returns input elements, no two equal ignoring case, and every input element has a case-insensitive match among them. They are the first element of each case-insensitive class, in input order. |
| Text.DistinctKeepsFirst | BookstoreApi/Services/BookstoreService.cs:158 | The result is the input at increasing positions, which are exactly the positions whose element matches no earlier one ignoring case. |
| Text.ExceptIgnoreCaseSpec | BookstoreApi/Services/BookstoreService.cs:165-168 | Every element Except with OrdinalIgnoreCase returns is from the first list and matches nothing in the second ignoring case. |
| Text.ExceptKeeps | BookstoreApi/Services/BookstoreService.cs:165-168 | On a list without case-insensitive duplicates, every element matching nothing in the second list is kept. |

## Left out

- Scheduling, async and cancellation: the Quartz trigger, the hosted service and `CancellationToken` are not modelled. Every call is one synchronous step.
- External data and logging: the book client's fetched list is an input sequence (`fetched`). Logging calls are dropped.
- The database:
  - Entity Framework, `SaveChanges` and `ChangeTracker.Clear()` are not modelled. A commit is recorded as the slice it would write.
  - The catalogue is an in-memory map from id to book, with author and genre sequences.
  - The store-side `Contains` lookups (BookstoreSync/Jobs/BookImportJob.cs:29, BookstoreApi/Services/BookstoreService.cs:162 and 184) and the `b.Id == id` lookups are exact equality. The database collation is not modelled.
- Identity: the ids of books come from a counter (`nextId`) standing for the database's identity column. The ids of authors, genres and reviews, `Review.BookId`, and the back-navigation collections (`Author.Books`, `Genre.Books`) are not modelled.
- Numbers:
  - `decimal` prices and the `double` average rating are exact reals, so the average has no rounding.
  - `Math.Ceiling` on a double is integer ceiling division.
  - The `int` loop counter of the batch loop is unbounded, so its overflow past 2^31 records is not modelled.
- Strings:
  - Ordinal case-insensitive comparison upper-cases ASCII letters only. Other Unicode case mappings are not modelled.
  - A string is a sequence of Unicode characters (scalar values), while C# `Length` and indexing count UTF-16 code units. Levenshtein.ComputeLevenshtein therefore differs from the code for characters outside the Basic Multilingual Plane: "😀" against "" is distance 1 here but 2 in the code, and skip decisions near the threshold can differ with it.
  - A `null` string behaves as the blank string. Every check in the core is `IsNullOrWhiteSpace`, and null never reaches a `Trim` unchecked.
- BookImport.FilterImported: `toAdd` holds the fetched record as is, with its untrimmed title, as the code adds it. Only the comparison uses the trimmed title.
- BookImport.ClassifierAgreesWithJob: the job has one fuzzy check and one counter, `skipFuzzy`. The exact/fuzzy split is only in the unit test, so it is modelled as a separate classifier rather than as the job's behaviour.
- `GetAllBooksAsync`, `GetTop10BooksAsync` and the controllers are not part of this model. Of `GetBookByIdAsync`, only the lookup and the DTO are modelled.
- BookEntity.Book.constructor: it requires the checks to pass. The throwing paths are modelled by `NewBook`, which calls it.
