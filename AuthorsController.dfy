/** `AuthorsController`: the five operations over the Author table. Authors are
    dependents only, so nothing else changes when one is added, updated or removed. */
module AuthorsController {
  import opened Wrappers
  import opened Entities
  import opened Models
  import opened Tables
  import opened Data

  /** `GetAllAsync`: every stored author, each once. */
  function GetAll(db: LibraryCatalogDbContext): (rows: seq<Row<Author>>)
    reads db
    ensures Lists(rows, db.authors)
  {
    ListTable(db.authors)
  }

  /** `GetAsync`: the author stored under `id`, or NotFound. */
  function Get(db: LibraryCatalogDbContext, id: int): (r: Result<Author>)
    reads db
    ensures r.Ok? <==> id in db.authors
    ensures r.Ok? ==> r.value == db.authors[id]
    ensures r.Ok? && db.Valid() ==> RefersTo(r.value.publication, db.publications)
  {
    if id in db.authors then Ok(db.authors[id]) else NotFound
  }

  /** `PostAsync`: adds one author with the transfer object's name and biography,
      in no publication, under an id the store assigns. */
  method Post(db: LibraryCatalogDbContext, dto: AuthorDto) returns (id: int)
    requires db.Valid()
    modifies db
    ensures db.Valid()
    ensures id !in old(db.authors)
    ensures db.authors == old(db.authors)[id := Author(dto.name, dto.biography, None)]
    ensures db.publications == old(db.publications) && db.publishers == old(db.publishers)
    ensures db.reviews == old(db.reviews)
    ensures Get(db, id) == Ok(Author(dto.name, dto.biography, None))
  {
    FreshIdExists(db.authors.Keys);
    id :| id !in db.authors;
    db.authors := db.authors[id := Author(dto.name, dto.biography, None)];
  }

  /** `PutAsync`: sets the name and biography of the author `id`; its id and its
      publication are kept. NotFound, changing nothing, when there is no such author. */
  method Put(db: LibraryCatalogDbContext, id: int, dto: AuthorDto) returns (r: Result<()>)
    requires db.Valid()
    modifies db
    ensures db.Valid()
    ensures r.Ok? <==> id in old(db.authors)
    ensures r.NotFound? ==> unchanged(db)
    ensures r.Ok? ==>
      db.authors == old(db.authors)[id := old(db.authors)[id].(name := dto.name, biography := dto.biography)]
    ensures r.Ok? ==> Get(db, id) == Ok(Author(dto.name, dto.biography, old(db.authors)[id].publication))
    ensures db.publications == old(db.publications) && db.publishers == old(db.publishers)
    ensures db.reviews == old(db.reviews)
  {
    if id !in db.authors {
      return NotFound;
    }
    var author := db.authors[id];
    db.authors := db.authors[id := author.(name := dto.name, biography := dto.biography)];
    r := Ok(());
  }

  /** `DeleteAsync`: removes the author `id` and no other row; every publication
      loses that author from its `Authors`. NotFound, changing nothing, when there
      is no such author. */
  method Delete(db: LibraryCatalogDbContext, id: int) returns (r: Result<()>)
    requires db.Valid()
    modifies db
    ensures db.Valid()
    ensures r.Ok? <==> id in old(db.authors)
    ensures r.NotFound? ==> unchanged(db)
    ensures db.authors == old(db.authors) - {id}
    ensures forall p :: AuthorsOf(db.authors, p) == AuthorsOf(old(db.authors), p) - {id}
    ensures db.publications == old(db.publications) && db.publishers == old(db.publishers)
    ensures db.reviews == old(db.reviews)
  {
    if id !in db.authors {
      return NotFound;
    }
    db.authors := db.authors - {id};
    r := Ok(());
  }
}
