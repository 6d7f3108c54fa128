/** `PublicationsController`: the five operations over the Publication table,
    with the resolution of the authors, reviews and publisher ids. */
module PublicationsController {
  import opened Wrappers
  import opened Entities
  import opened Models
  import opened Tables
  import opened Data

  /** A publication as `GetAsync` loads it, with `Authors`, `Reviews` and
      `Publisher` included: the ids of the related rows. */
  datatype LoadedPublication = LoadedPublication(
    title: string,
    description: string,
    authorsIds: set<int>,
    reviewsIds: set<int>,
    publisherId: Option<int>)

  /** Every id `dto` names resolves: each author and review id, and the
      publisher id when it is not null. */
  predicate Resolves(db: LibraryCatalogDbContext, dto: PublicationDto)
    reads db
  {
    && Ids(dto.authorsIds) <= db.authors.Keys
    && Ids(dto.reviewsIds) <= db.reviews.Keys
    && RefersTo(dto.publisherId, db.publishers)
  }

  /** What `GetAsync` returns after a create or an update from `dto`. */
  function Expected(dto: PublicationDto): LoadedPublication {
    LoadedPublication(dto.title, dto.description, Ids(dto.authorsIds), Ids(dto.reviewsIds), dto.publisherId)
  }

  /** `GetAllAsync`: every stored publication, each once. */
  function GetAll(db: LibraryCatalogDbContext): (rows: seq<Row<Publication>>)
    reads db
    ensures Lists(rows, db.publications)
  {
    ListTable(db.publications)
  }

  /** `GetAsync`: the publication `id` with its related ids loaded, or NotFound.
      An author or review is loaded exactly when its key is this publication. */
  function Get(db: LibraryCatalogDbContext, id: int): (r: Result<LoadedPublication>)
    reads db
    ensures r.Ok? <==> id in db.publications
    ensures r.Ok? ==>
      && r.value.title == db.publications[id].title
      && r.value.description == db.publications[id].description
      && r.value.publisherId == db.publications[id].publisher
    ensures r.Ok? ==> forall a :: a in r.value.authorsIds <==> a in db.authors && db.authors[a].publication == Some(id)
    ensures r.Ok? ==> forall v :: v in r.value.reviewsIds <==> v in db.reviews && db.reviews[v].publication == Some(id)
    ensures r.Ok? && db.Valid() ==> RefersTo(r.value.publisherId, db.publishers)
  {
    if id in db.publications then
      var p := db.publications[id];
      Ok(LoadedPublication(p.title, p.description, AuthorsOf(db.authors, id), ReviewsOf(db.reviews, id), p.publisher))
    else
      NotFound
  }

  /** `PostAsync`: resolves every author, review and publisher id first; if one
      does not resolve it is NotFound and nothing is added. Otherwise one
      publication is added under a fresh id, with the transfer object's title,
      description and publisher, and the listed authors and reviews move to it. */
  method Post(db: LibraryCatalogDbContext, dto: PublicationDto) returns (r: Result<int>)
    requires db.Valid()
    modifies db
    ensures db.Valid()
    ensures r.Ok? <==> old(Resolves(db, dto))
    ensures r.NotFound? ==> unchanged(db)
    ensures r.Ok? ==>
      && r.value !in old(db.publications)
      && db.publications == old(db.publications)[r.value := Publication(dto.title, dto.description, dto.publisherId)]
      && db.authors == LinkAuthors(old(db.authors), r.value, Ids(dto.authorsIds))
      && db.reviews == LinkReviews(old(db.reviews), r.value, Ids(dto.reviewsIds))
      && db.publishers == old(db.publishers)
    ensures r.Ok? ==> Get(db, r.value) == Ok(Expected(dto))
  {
    var authorsFound := ResolveAll(dto.authorsIds, db.authors);
    if !authorsFound {
      return NotFound;
    }
    var reviewsFound := ResolveAll(dto.reviewsIds, db.reviews);
    if !reviewsFound {
      return NotFound;
    }
    if dto.publisherId.Some? && dto.publisherId.value !in db.publishers {
      return NotFound;
    }
    FreshIdExists(db.publications.Keys);
    var id :| id !in db.publications;
    LinkAuthorsViews(db.authors, id, Ids(dto.authorsIds));
    LinkReviewsViews(db.reviews, id, Ids(dto.reviewsIds));
    db.publications := db.publications[id := Publication(dto.title, dto.description, dto.publisherId)];
    db.authors := LinkAuthors(db.authors, id, Ids(dto.authorsIds));
    db.reviews := LinkReviews(db.reviews, id, Ids(dto.reviewsIds));
    r := Ok(id);
  }

  /** `PutAsync`: NotFound if there is no publication `id` or if any related id
      does not resolve, and then nothing is persisted. Otherwise title,
      description, authors, reviews and publisher are replaced wholesale: authors
      and reviews no longer listed are released, and a null publisher id clears
      the publisher. */
  method Put(db: LibraryCatalogDbContext, id: int, dto: PublicationDto) returns (r: Result<()>)
    requires db.Valid()
    modifies db
    ensures db.Valid()
    ensures r.Ok? <==> id in old(db.publications) && old(Resolves(db, dto))
    ensures r.NotFound? ==> unchanged(db)
    ensures r.Ok? ==>
      && db.publications == old(db.publications)[id := Publication(dto.title, dto.description, dto.publisherId)]
      && db.authors == LinkAuthors(old(db.authors), id, Ids(dto.authorsIds))
      && db.reviews == LinkReviews(old(db.reviews), id, Ids(dto.reviewsIds))
      && db.publishers == old(db.publishers)
    ensures r.Ok? ==> Get(db, id) == Ok(Expected(dto))
    ensures r.Ok? ==> forall q | q != id ::
      && AuthorsOf(db.authors, q) == AuthorsOf(old(db.authors), q) - Ids(dto.authorsIds)
      && ReviewsOf(db.reviews, q) == ReviewsOf(old(db.reviews), q) - Ids(dto.reviewsIds)
  {
    if id !in db.publications {
      return NotFound;
    }
    var authorsFound := ResolveAll(dto.authorsIds, db.authors);
    if !authorsFound {
      return NotFound;
    }
    var reviewsFound := ResolveAll(dto.reviewsIds, db.reviews);
    if !reviewsFound {
      return NotFound;
    }
    if dto.publisherId.Some? && dto.publisherId.value !in db.publishers {
      return NotFound;
    }
    LinkAuthorsViews(db.authors, id, Ids(dto.authorsIds));
    LinkReviewsViews(db.reviews, id, Ids(dto.reviewsIds));
    db.publications := db.publications[id := Publication(dto.title, dto.description, dto.publisherId)];
    db.authors := LinkAuthors(db.authors, id, Ids(dto.authorsIds));
    db.reviews := LinkReviews(db.reviews, id, Ids(dto.reviewsIds));
    r := Ok(());
  }

  /** `DeleteAsync`: removes the publication `id`; its authors and reviews stay
      in the store with a null publication (`SetNull`), and no other
      publication's collections change. NotFound, changing nothing, when there is
      no such publication. */
  method Delete(db: LibraryCatalogDbContext, id: int) returns (r: Result<()>)
    requires db.Valid()
    modifies db
    ensures db.Valid()
    ensures r.Ok? <==> id in old(db.publications)
    ensures r.NotFound? ==> unchanged(db)
    ensures r.Ok? ==>
      && db.publications == old(db.publications) - {id}
      && db.authors == LinkAuthors(old(db.authors), id, {})
      && db.reviews == LinkReviews(old(db.reviews), id, {})
      && db.publishers == old(db.publishers)
    ensures db.authors.Keys == old(db.authors).Keys && db.reviews.Keys == old(db.reviews).Keys
    ensures AuthorsOf(db.authors, id) == {} && ReviewsOf(db.reviews, id) == {}
    ensures forall q | q != id ::
      && AuthorsOf(db.authors, q) == AuthorsOf(old(db.authors), q)
      && ReviewsOf(db.reviews, q) == ReviewsOf(old(db.reviews), q)
  {
    if id !in db.publications {
      UnusedPublicationOwnsNothing(db.authors, db.publications, db.publishers, db.reviews, id);
      return NotFound;
    }
    LinkAuthorsViews(db.authors, id, {});
    LinkReviewsViews(db.reviews, id, {});
    db.publications := db.publications - {id};
    db.authors := LinkAuthors(db.authors, id, {});
    db.reviews := LinkReviews(db.reviews, id, {});
    r := Ok(());
  }
}
