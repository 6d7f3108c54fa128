# LibraryCatalog: the relational catalog behind the four controllers

LibraryCatalog is a REST API over four tables: authors, publications,
publishers and reviews. Each of its four controllers offers five operations:
list, create, get, update and delete. This project models the catalog those
operations work on and proves what they do to it.

- **State.** `Data.LibraryCatalogDbContext` is a class holding the four
  `DbSet` tables. Each table is a `map<int, Entity>` keyed by id.
- **Relationships.** Every relationship is an optional foreign key held by the
  dependent row, as `OnModelCreating` configures it:
  - `Author.publication` backs `Publication.Authors` (`WithOne()`, so an author
    is in at most one publication);
  - `Review.publication` backs `Publication.Reviews` / `Review.Publication`;
  - `Publication.publisher` backs `Publication.Publisher` /
    `Publisher.Publications`.
- **Collection navigations.** They are not stored. They are derived from the
  keys (`Data.AuthorsOf`, `Data.ReviewsOf`, `Data.PublicationsOf`).
- **Referential integrity.** `Valid()` says every non-null foreign key names a
  stored row. Every state-changing operation requires it and re-establishes it;
  `Get` uses it only to add that the loaded keys resolve.
- **Assigning a collection.** Assigning a collection navigation
  (`publication.Authors = …`) is `Data.LinkAuthors` (and its two siblings).
  Listed rows get the owner's key. Rows that had the owner's key and are no
  longer listed get null, because each relationship is optional. The
  `DeleteBehavior.SetNull` step of a delete is the same assignment with nothing
  listed.
- **Controllers.** Each controller is a module. `GetAll` and `Get` are
  functions that read the context. `Post`, `Put` and `Delete` are methods with
  `modifies db`. Each one resolves every id it names first, one after another,
  and on the first id that does not resolve returns `NotFound` having changed
  nothing. `NotFound` stands for the `InvalidOperationException` that
  `SingleAsync` throws. A successful `Post` returns the id the store assigned.
  After a successful `Post` or `Put`, `Get` returns exactly the transfer
  object's fields and relation ids.

### Modelling notes

- **A review's publication link.** `ReviewDto.PublicationId` is a plain `int`
  (`Models/ReviewDto.cs:11`). So the test `reviewDto.PublicationId != null` in
  `ReviewsController.cs:44` and `:75` is always true. Create and update always
  resolve the publication and fail when it does not exist. A review loses its
  publication when that publication is deleted, or when an update of that
  publication leaves the review out of `ReviewsIds`.
- **Duplicate ids.** Each dependent row holds one foreign key, so an id listed
  twice links that row once. Id lists are read as sets (`Tables.Ids`).
- **Deleting an author.** The author row holds the key, so deleting it removes
  it from `Publication.Authors` and changes no other row.
- **`Publication.Reviews`.** `Entities/Publication.cs` declares no `Reviews`
  member, but the controller and `OnModelCreating` use one. Here it is derived
  from `Review.publication`.

## Model

| member | source | states |
|---|---|---|
| Tables.ResolveAll | LibraryCatalog/LibraryCatalog/Controllers/PublicationsController.cs:43-52 | resolving an id list one id at a time succeeds exactly when every listed id has a row in the table; the first id without a row fails |
| Tables.FreshIdExists | LibraryCatalog/LibraryCatalog/Controllers/AuthorsController.cs:45-46 | a table always has an unused id, so adding a row can always be given a store-assigned id that collides with no stored row |
| Tables.ListTable | LibraryCatalog/LibraryCatalog/Controllers/AuthorsController.cs:31 | a table scan yields one row per stored id, each id once, each with the record stored under it |
| Data.LinkAuthors | LibraryCatalog/LibraryCatalog.Data/LibraryCatalogDbContext.cs:22-25 | assigning a publication's `Authors` keeps every author row and changes nothing in one but its publication key |
| Data.LinkAuthorsViews | LibraryCatalog/LibraryCatalog.Data/LibraryCatalogDbContext.cs:22-25 | after the assignment the publication's authors are exactly the listed ids, and each listed author has left every other publication (`WithOne()`) |
| Data.LinkReviews | LibraryCatalog/LibraryCatalog.Data/LibraryCatalogDbContext.cs:27-30 | assigning a publication's `Reviews` keeps every review row and changes nothing in one but its publication key |
| Data.LinkReviewsViews | LibraryCatalog/LibraryCatalog.Data/LibraryCatalogDbContext.cs:27-30 | after the assignment the publication's reviews are exactly the listed ids; a listed review has left its former publication |
| Data.LinkPublications | LibraryCatalog/LibraryCatalog.Data/LibraryCatalogDbContext.cs:32-35 | assigning a publisher's `Publications` keeps every publication row and changes nothing in one but its publisher key |
| Data.LinkPublicationsViews | LibraryCatalog/LibraryCatalog.Data/LibraryCatalogDbContext.cs:32-35 | after the assignment the publisher's publications are exactly the listed ids; a listed publication has left its former publisher |
| Data.AuthorInOnePublication | LibraryCatalog/LibraryCatalog.Data/LibraryCatalogDbContext.cs:22-25 | the `Authors` collections of two different publications share no author |
| Data.UnusedPublicationOwnsNothing | LibraryCatalog/LibraryCatalog.Data/LibraryCatalogDbContext.cs:20-30 | under referential integrity an id without a publication row has no authors and no reviews |
| Data.UnusedPublisherOwnsNothing | LibraryCatalog/LibraryCatalog.Data/LibraryCatalogDbContext.cs:32-35 | under referential integrity an id without a publisher row has no publications |
| Data.LibraryCatalogDbContext.constructor | LibraryCatalog/LibraryCatalog.Data/LibraryCatalogDbContext.cs:8-18 | a new context has four empty tables and satisfies referential integrity |
| AuthorsController.GetAll | LibraryCatalog/LibraryCatalog/Controllers/AuthorsController.cs:29-34 | exactly one entry per stored author, each author once |
| AuthorsController.Get | LibraryCatalog/LibraryCatalog/Controllers/AuthorsController.cs:50-55 | NotFound exactly when no author has the id; otherwise the stored author, whose publication exists |
| AuthorsController.Post | LibraryCatalog/LibraryCatalog/Controllers/AuthorsController.cs:37-47 | adds exactly one author, under a fresh id, with the DTO's name and biography and no publication; no other row changes; integrity kept |
| AuthorsController.Put | LibraryCatalog/LibraryCatalog/Controllers/AuthorsController.cs:58-67 | NotFound with nothing changed on a missing id; otherwise sets exactly name and biography, keeping the author's publication and every other row |
| AuthorsController.Delete | LibraryCatalog/LibraryCatalog/Controllers/AuthorsController.cs:70-77 | NotFound with nothing changed on a missing id; otherwise removes exactly that author, which leaves every publication's `Authors`; no other row changes |
| PublicationsController.GetAll | LibraryCatalog/LibraryCatalog/Controllers/PublicationsController.cs:29-34 | exactly one entry per stored publication, each once |
| PublicationsController.Get | LibraryCatalog/LibraryCatalog/Controllers/PublicationsController.cs:65-74 | NotFound exactly on a missing id; otherwise title, description and publisher id of the row, and an author or review is loaded exactly when its key is this publication |
| PublicationsController.Post | LibraryCatalog/LibraryCatalog/Controllers/PublicationsController.cs:37-62 | succeeds exactly when every author, review and non-null publisher id resolves, otherwise NotFound with nothing persisted; on success one publication under a fresh id whose `Get` equals the DTO: title, description, authors, reviews, publisher |
| PublicationsController.Put | LibraryCatalog/LibraryCatalog/Controllers/PublicationsController.cs:77-104 | NotFound with nothing persisted on a missing id or any unresolved relation id; otherwise title, description, authors, reviews and publisher replaced wholesale (`Get` equals the DTO), a null publisher id clears the publisher, and listed authors and reviews leave other publications |
| PublicationsController.Delete | LibraryCatalog/LibraryCatalog/Controllers/PublicationsController.cs:107-114 | NotFound with nothing changed on a missing id; otherwise removes the publication, nulls the key of its authors and reviews and keeps them all; no other publication's collections change |
| PublishersController.GetAll | LibraryCatalog/LibraryCatalog/Controllers/PublishersController.cs:29-34 | exactly one entry per stored publisher, each once |
| PublishersController.Get | LibraryCatalog/LibraryCatalog/Controllers/PublishersController.cs:57-64 | NotFound exactly on a missing id; otherwise name and email of the row, and a publication is loaded exactly when its publisher is this one |
| PublishersController.Post | LibraryCatalog/LibraryCatalog/Controllers/PublishersController.cs:37-54 | NotFound with nothing added when a publication id does not resolve; otherwise one publisher under a fresh id with the DTO's name and email, every listed publication's publisher is it, and its `Get` equals the DTO |
| PublishersController.Put | LibraryCatalog/LibraryCatalog/Controllers/PublishersController.cs:67-85 | NotFound with nothing persisted on a missing id or an unresolved publication id; otherwise name, email and publications replaced wholesale, unlisted publications lose this publisher, listed ones leave their former publisher |
| PublishersController.Delete | LibraryCatalog/LibraryCatalog/Controllers/PublishersController.cs:88-95 | NotFound with nothing changed on a missing id; otherwise removes the publisher and nulls the publisher of its publications, which all stay |
| ReviewsController.GetAll | LibraryCatalog/LibraryCatalog/Controllers/ReviewsController.cs:29-34 | exactly one entry per stored review, each once |
| ReviewsController.Get | LibraryCatalog/LibraryCatalog/Controllers/ReviewsController.cs:56-63 | NotFound exactly on a missing id; otherwise the stored review, whose publication exists |
| ReviewsController.Post | LibraryCatalog/LibraryCatalog/Controllers/ReviewsController.cs:37-53 | succeeds exactly when the publication id resolves, otherwise NotFound with nothing added; on success one review under a fresh id with the three fields copied, linked to that publication and now among its `Reviews` |
| ReviewsController.Put | LibraryCatalog/LibraryCatalog/Controllers/ReviewsController.cs:66-82 | NotFound with nothing persisted on a missing id or an unresolved publication id; otherwise the three fields and the publication link are replaced |
| ReviewsController.Delete | LibraryCatalog/LibraryCatalog/Controllers/ReviewsController.cs:85-92 | NotFound with nothing changed on a missing id; otherwise removes exactly that review, which leaves its publication's `Reviews`; no other row changes |

## Left out

- AutoMapper and the brief and full DTO projections: `GetAll` returns the stored rows and `Get` the loaded record with its related ids. The mapping profile registers only the author pair, so the other maps cannot be seen.
- Order of related ids: the tests compare `AuthorsIds`, `ReviewsIds` and `PublicationsIds` to the loaded collections as sequences. Rows linked by a foreign key have no order, so the model compares them as sets.
- Order of a listing: the source promises none. `Tables.ListTable` returns rows in ascending id order, the order a plain table scan gives.
- Id assignment: the model proves that an unused id exists and picks any such id. The store's actual rule (SQLite's next row id) is not modelled.
- Integer width: ids are unbounded integers. The source's 32-bit `int` and any overflow of store-assigned ids are not modelled.
- `async`/`await`, `Task.WhenAll` and `CancellationToken`: ids are resolved one after another, and cancellation is not modelled.
- The exception types: every failed `SingleAsync` is the single `NotFound` outcome.
- Null id lists in a transfer object (`new PublicationDto()`): `Select` on null throws `ArgumentNullException`. The model's lists are never null.
- Change tracking: `PutAsync` assigns fields of the tracked entity before a later `SingleAsync` may throw. That in-memory change is never saved and is not modelled. Only the persisted state counts.
- Startup, dependency injection, the SQLite connection, Swagger, CORS, routing and the HTTP status mapping: framework wiring with no catalog logic.
- The test projects, mocks and the in-memory provider: they are evidence for the contracts above and are not modelled themselves.
