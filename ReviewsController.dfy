/** `ReviewsController`: the five operations over the Review table, with the
    resolution of the publication id. `ReviewDto.PublicationId` is a plain `int`,
    so the controller's `!= null` test always holds and the id is always resolved. */
module ReviewsController {
  import opened Wrappers
  import opened Entities
  import opened Models
  import opened Tables
  import opened Data

  /** The review a create or an update from `dto` stores. */
  function FromDto(dto: ReviewDto): Review {
    Review(dto.reviewerName, dto.isPositive, dto.comment, Some(dto.publicationId))
  }

  /** `GetAllAsync`: every stored review, each once. */
  function GetAll(db: LibraryCatalogDbContext): (rows: seq<Row<Review>>)
    reads db
    ensures Lists(rows, db.reviews)
  {
    ListTable(db.reviews)
  }

  /** `GetAsync`: the review `id` with its publication key, or NotFound; in a
      consistent store that publication exists. */
  function Get(db: LibraryCatalogDbContext, id: int): (r: Result<Review>)
    reads db
    ensures r.Ok? <==> id in db.reviews
    ensures r.Ok? ==> r.value == db.reviews[id]
    ensures r.Ok? && db.Valid() ==> RefersTo(r.value.publication, db.publications)
  {
    if id in db.reviews then Ok(db.reviews[id]) else NotFound
  }

  /** `PostAsync`: NotFound, adding nothing, if the publication id does not
      resolve. Otherwise one review is added under a fresh id with the three
      fields copied, and it is among that publication's `Reviews`. */
  method Post(db: LibraryCatalogDbContext, dto: ReviewDto) returns (r: Result<int>)
    requires db.Valid()
    modifies db
    ensures db.Valid()
    ensures r.Ok? <==> dto.publicationId in old(db.publications)
    ensures r.NotFound? ==> unchanged(db)
    ensures r.Ok? ==>
      && r.value !in old(db.reviews)
      && db.reviews == old(db.reviews)[r.value := FromDto(dto)]
      && db.authors == old(db.authors) && db.publications == old(db.publications)
      && db.publishers == old(db.publishers)
    ensures r.Ok? ==> Get(db, r.value) == Ok(FromDto(dto))
    ensures r.Ok? ==> ReviewsOf(db.reviews, dto.publicationId) == ReviewsOf(old(db.reviews), dto.publicationId) + {r.value}
  {
    if dto.publicationId !in db.publications {
      return NotFound;
    }
    FreshIdExists(db.reviews.Keys);
    var id :| id !in db.reviews;
    db.reviews := db.reviews[id := FromDto(dto)];
    r := Ok(id);
  }

  /** `PutAsync`: NotFound if there is no review `id` or its new publication id
      does not resolve, and then nothing is persisted. Otherwise the three
      fields and the publication are replaced. */
  method Put(db: LibraryCatalogDbContext, id: int, dto: ReviewDto) returns (r: Result<()>)
    requires db.Valid()
    modifies db
    ensures db.Valid()
    ensures r.Ok? <==> id in old(db.reviews) && dto.publicationId in old(db.publications)
    ensures r.NotFound? ==> unchanged(db)
    ensures r.Ok? ==>
      && db.reviews == old(db.reviews)[id := FromDto(dto)]
      && db.authors == old(db.authors) && db.publications == old(db.publications)
      && db.publishers == old(db.publishers)
    ensures r.Ok? ==> Get(db, id) == Ok(FromDto(dto))
  {
    if id !in db.reviews {
      return NotFound;
    }
    if dto.publicationId !in db.publications {
      return NotFound;
    }
    db.reviews := db.reviews[id := FromDto(dto)];
    r := Ok(());
  }

  /** `DeleteAsync`: removes the review `id` and no other row. NotFound, changing
      nothing, when there is no such review. */
  method Delete(db: LibraryCatalogDbContext, id: int) returns (r: Result<()>)
    requires db.Valid()
    modifies db
    ensures db.Valid()
    ensures r.Ok? <==> id in old(db.reviews)
    ensures r.NotFound? ==> unchanged(db)
    ensures db.reviews == old(db.reviews) - {id}
    ensures forall p :: ReviewsOf(db.reviews, p) == ReviewsOf(old(db.reviews), p) - {id}
    ensures db.authors == old(db.authors) && db.publications == old(db.publications)
    ensures db.publishers == old(db.publishers)
  {
    if id !in db.reviews {
      return NotFound;
    }
    db.reviews := db.reviews - {id};
    r := Ok(());
  }
}
