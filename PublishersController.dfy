/** `PublishersController`: the five operations over the Publisher table, with
    the resolution of the publications ids. */
module PublishersController {
  import opened Wrappers
  import opened Entities
  import opened Models
  import opened Tables
  import opened Data

  /** A publisher as `GetAsync` loads it, with `Publications` included. */
  datatype LoadedPublisher = LoadedPublisher(name: string, email: string, publicationsIds: set<int>)

  /** What `GetAsync` returns after a create or an update from `dto`. */
  function Expected(dto: PublisherDto): LoadedPublisher {
    LoadedPublisher(dto.name, dto.email, Ids(dto.publicationsIds))
  }

  /** `GetAllAsync`: every stored publisher, each once. */
  function GetAll(db: LibraryCatalogDbContext): (rows: seq<Row<Publisher>>)
    reads db
    ensures Lists(rows, db.publishers)
  {
    ListTable(db.publishers)
  }

  /** `GetAsync`: the publisher `id` with its publications loaded, or NotFound.
      A publication is loaded exactly when its `Publisher` is this publisher. */
  function Get(db: LibraryCatalogDbContext, id: int): (r: Result<LoadedPublisher>)
    reads db
    ensures r.Ok? <==> id in db.publishers
    ensures r.Ok? ==> r.value.name == db.publishers[id].name && r.value.email == db.publishers[id].email
    ensures r.Ok? ==> forall p :: p in r.value.publicationsIds <==>
      p in db.publications && db.publications[p].publisher == Some(id)
  {
    if id in db.publishers then
      var q := db.publishers[id];
      Ok(LoadedPublisher(q.name, q.email, PublicationsOf(db.publications, id)))
    else
      NotFound
  }

  /** `PostAsync`: NotFound, adding nothing, if a publication id does not resolve.
      Otherwise one publisher is added under a fresh id with the transfer object's
      name and email, and every listed publication now has it as `Publisher`. */
  method Post(db: LibraryCatalogDbContext, dto: PublisherDto) returns (r: Result<int>)
    requires db.Valid()
    modifies db
    ensures db.Valid()
    ensures r.Ok? <==> Ids(dto.publicationsIds) <= old(db.publications).Keys
    ensures r.NotFound? ==> unchanged(db)
    ensures r.Ok? ==>
      && r.value !in old(db.publishers)
      && db.publishers == old(db.publishers)[r.value := Publisher(dto.name, dto.email)]
      && db.publications == LinkPublications(old(db.publications), r.value, Ids(dto.publicationsIds))
      && db.authors == old(db.authors) && db.reviews == old(db.reviews)
    ensures r.Ok? ==> forall p | p in Ids(dto.publicationsIds) :: db.publications[p].publisher == Some(r.value)
    ensures r.Ok? ==> Get(db, r.value) == Ok(Expected(dto))
  {
    var found := ResolveAll(dto.publicationsIds, db.publications);
    if !found {
      return NotFound;
    }
    FreshIdExists(db.publishers.Keys);
    var id :| id !in db.publishers;
    LinkPublicationsViews(db.publications, id, Ids(dto.publicationsIds));
    db.publishers := db.publishers[id := Publisher(dto.name, dto.email)];
    db.publications := LinkPublications(db.publications, id, Ids(dto.publicationsIds));
    r := Ok(id);
  }

  /** `PutAsync`: NotFound if there is no publisher `id` or a publication id does
      not resolve, and then nothing is persisted. Otherwise name, email and the
      publications are replaced wholesale: publications no longer listed lose
      their publisher, listed ones move to this one. */
  method Put(db: LibraryCatalogDbContext, id: int, dto: PublisherDto) returns (r: Result<()>)
    requires db.Valid()
    modifies db
    ensures db.Valid()
    ensures r.Ok? <==> id in old(db.publishers) && Ids(dto.publicationsIds) <= old(db.publications).Keys
    ensures r.NotFound? ==> unchanged(db)
    ensures r.Ok? ==>
      && db.publishers == old(db.publishers)[id := Publisher(dto.name, dto.email)]
      && db.publications == LinkPublications(old(db.publications), id, Ids(dto.publicationsIds))
      && db.authors == old(db.authors) && db.reviews == old(db.reviews)
    ensures r.Ok? ==> forall p | p in Ids(dto.publicationsIds) :: db.publications[p].publisher == Some(id)
    ensures r.Ok? ==> Get(db, id) == Ok(Expected(dto))
    ensures r.Ok? ==> forall q | q != id ::
      PublicationsOf(db.publications, q) == PublicationsOf(old(db.publications), q) - Ids(dto.publicationsIds)
  {
    if id !in db.publishers {
      return NotFound;
    }
    var found := ResolveAll(dto.publicationsIds, db.publications);
    if !found {
      return NotFound;
    }
    LinkPublicationsViews(db.publications, id, Ids(dto.publicationsIds));
    db.publishers := db.publishers[id := Publisher(dto.name, dto.email)];
    db.publications := LinkPublications(db.publications, id, Ids(dto.publicationsIds));
    r := Ok(());
  }

  /** `DeleteAsync`: removes the publisher `id`; its publications stay in the
      store with a null `Publisher` (`SetNull`). NotFound, changing nothing, when
      there is no such publisher. */
  method Delete(db: LibraryCatalogDbContext, id: int) returns (r: Result<()>)
    requires db.Valid()
    modifies db
    ensures db.Valid()
    ensures r.Ok? <==> id in old(db.publishers)
    ensures r.NotFound? ==> unchanged(db)
    ensures r.Ok? ==>
      && db.publishers == old(db.publishers) - {id}
      && db.publications == LinkPublications(old(db.publications), id, {})
      && db.authors == old(db.authors) && db.reviews == old(db.reviews)
    ensures db.publications.Keys == old(db.publications).Keys
    ensures PublicationsOf(db.publications, id) == {}
    ensures forall q | q != id :: PublicationsOf(db.publications, q) == PublicationsOf(old(db.publications), q)
  {
    if id !in db.publishers {
      UnusedPublisherOwnsNothing(db.authors, db.publications, db.publishers, db.reviews, id);
      return NotFound;
    }
    LinkPublicationsViews(db.publications, id, {});
    db.publishers := db.publishers - {id};
    db.publications := LinkPublications(db.publications, id, {});
    r := Ok(());
  }
}
