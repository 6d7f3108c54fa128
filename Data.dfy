/** `LibraryCatalogDbContext`: the four tables and the relationships that
    `OnModelCreating` configures. Every relationship is an optional foreign key
    on the dependent row, deleted with `DeleteBehavior.SetNull`; the collection
    navigations are the inverse views of those keys. */
module Data {
  import opened Wrappers
  import opened Entities

  /** A foreign key is null or names a stored row. */
  predicate RefersTo<T>(key: Option<int>, table: map<int, T>) {
    key.Some? ==> key.value in table
  }

  /** Referential integrity over the four tables: every non-null foreign key names a stored row. */
  predicate Consistent(
    authors: map<int, Author>,
    publications: map<int, Publication>,
    publishers: map<int, Publisher>,
    reviews: map<int, Review>)
  {
    && (forall a | a in authors :: RefersTo(authors[a].publication, publications))
    && (forall v | v in reviews :: RefersTo(reviews[v].publication, publications))
    && (forall p | p in publications :: RefersTo(publications[p].publisher, publishers))
  }

  /** `Publication.Authors`: the authors whose key is `publication`. */
  function AuthorsOf(authors: map<int, Author>, publication: int): set<int> {
    set a | a in authors && authors[a].publication == Some(publication)
  }

  /** `Publication.Reviews`: the reviews whose `Publication` is `publication`. */
  function ReviewsOf(reviews: map<int, Review>, publication: int): set<int> {
    set v | v in reviews && reviews[v].publication == Some(publication)
  }

  /** `Publisher.Publications`: the publications whose `Publisher` is `publisher`. */
  function PublicationsOf(publications: map<int, Publication>, publisher: int): set<int> {
    set p | p in publications && publications[p].publisher == Some(publisher)
  }

  /** The new foreign key of a dependent row when its principal `owner` has its
      collection navigation assigned: a listed row now points at `owner`, a row
      that pointed at `owner` and is no longer listed gets null (the relationship
      is optional), every other row keeps its key. */
  function Relinked(key: Option<int>, listed: bool, owner: int): Option<int> {
    if listed then Some(owner) else if key == Some(owner) then None else key
  }

  /** Assigning `Publication.Authors` of `publication` the authors `ids`. With
      `ids == {}` this is also `OnDelete(DeleteBehavior.SetNull)` when the
      publication is deleted. */
  function LinkAuthors(authors: map<int, Author>, publication: int, ids: set<int>): (r: map<int, Author>)
    ensures r.Keys == authors.Keys
    ensures forall a | a in r :: r[a] == authors[a].(publication := r[a].publication)
  {
    map a | a in authors :: authors[a].(publication := Relinked(authors[a].publication, a in ids, publication))
  }

  /** Assigning `Publication.Reviews` of `publication` the reviews `ids`; with
      `ids == {}`, the set-null step of deleting the publication. */
  function LinkReviews(reviews: map<int, Review>, publication: int, ids: set<int>): (r: map<int, Review>)
    ensures r.Keys == reviews.Keys
    ensures forall v | v in r :: r[v] == reviews[v].(publication := r[v].publication)
  {
    map v | v in reviews :: reviews[v].(publication := Relinked(reviews[v].publication, v in ids, publication))
  }

  /** Assigning `Publisher.Publications` of `publisher` the publications `ids`;
      with `ids == {}`, the set-null step of deleting the publisher. */
  function LinkPublications(publications: map<int, Publication>, publisher: int, ids: set<int>): (r: map<int, Publication>)
    ensures r.Keys == publications.Keys
    ensures forall p | p in r :: r[p] == publications[p].(publisher := r[p].publisher)
  {
    map p | p in publications :: publications[p].(publisher := Relinked(publications[p].publisher, p in ids, publisher))
  }

  /** After the assignment `publication`'s authors are exactly `ids`, and an author
      listed there has left whatever publication it belonged to (`WithOne()`). */
  lemma LinkAuthorsViews(authors: map<int, Author>, publication: int, ids: set<int>)
    requires ids <= authors.Keys
    ensures AuthorsOf(LinkAuthors(authors, publication, ids), publication) == ids
    ensures forall q | q != publication ::
      AuthorsOf(LinkAuthors(authors, publication, ids), q) == AuthorsOf(authors, q) - ids
  {
    var r := LinkAuthors(authors, publication, ids);
    assert forall a | a in r :: r[a].publication == Relinked(authors[a].publication, a in ids, publication);
  }

  /** After the assignment `publication`'s reviews are exactly `ids`; a listed
      review has left its former publication. */
  lemma LinkReviewsViews(reviews: map<int, Review>, publication: int, ids: set<int>)
    requires ids <= reviews.Keys
    ensures ReviewsOf(LinkReviews(reviews, publication, ids), publication) == ids
    ensures forall q | q != publication ::
      ReviewsOf(LinkReviews(reviews, publication, ids), q) == ReviewsOf(reviews, q) - ids
  {
    var r := LinkReviews(reviews, publication, ids);
    assert forall v | v in r :: r[v].publication == Relinked(reviews[v].publication, v in ids, publication);
  }

  /** After the assignment `publisher`'s publications are exactly `ids`; a listed
      publication has left its former publisher. */
  lemma LinkPublicationsViews(publications: map<int, Publication>, publisher: int, ids: set<int>)
    requires ids <= publications.Keys
    ensures PublicationsOf(LinkPublications(publications, publisher, ids), publisher) == ids
    ensures forall q | q != publisher ::
      PublicationsOf(LinkPublications(publications, publisher, ids), q) == PublicationsOf(publications, q) - ids
  {
    var r := LinkPublications(publications, publisher, ids);
    assert forall p | p in r :: r[p].publisher == Relinked(publications[p].publisher, p in ids, publisher);
  }

  /** `WithOne()`: an author belongs to at most one publication, so the
      `Authors` collections of two publications never share an author. */
  lemma AuthorInOnePublication(authors: map<int, Author>, p: int, q: int)
    requires p != q
    ensures AuthorsOf(authors, p) * AuthorsOf(authors, q) == {}
  {
  }

  /** In a consistent store an id with no publication row owns no authors and no
      reviews, so a newly created publication starts with empty collections. */
  lemma UnusedPublicationOwnsNothing(
    authors: map<int, Author>, publications: map<int, Publication>,
    publishers: map<int, Publisher>, reviews: map<int, Review>, id: int)
    requires Consistent(authors, publications, publishers, reviews)
    requires id !in publications
    ensures AuthorsOf(authors, id) == {} && ReviewsOf(reviews, id) == {}
  {
    assert forall a | a in AuthorsOf(authors, id) :: RefersTo(authors[a].publication, publications);
    assert forall v | v in ReviewsOf(reviews, id) :: RefersTo(reviews[v].publication, publications);
  }

  /** In a consistent store an id with no publisher row owns no publications. */
  lemma UnusedPublisherOwnsNothing(
    authors: map<int, Author>, publications: map<int, Publication>,
    publishers: map<int, Publisher>, reviews: map<int, Review>, id: int)
    requires Consistent(authors, publications, publishers, reviews)
    requires id !in publishers
    ensures PublicationsOf(publications, id) == {}
  {
    assert forall p | p in PublicationsOf(publications, id) :: RefersTo(publications[p].publisher, publishers);
  }

  /** The catalog's state: the four `DbSet` tables, keyed by id. */
  class LibraryCatalogDbContext {
    var authors: map<int, Author>
    var publications: map<int, Publication>
    var publishers: map<int, Publisher>
    var reviews: map<int, Review>

    /** The foreign-key constraints of the schema hold. */
    ghost predicate Valid()
      reads this
    {
      Consistent(authors, publications, publishers, reviews)
    }

    /** A context over an empty store. */
    constructor ()
      ensures Valid()
      ensures authors == map[] && publications == map[] && publishers == map[] && reviews == map[]
    {
      authors, publications, publishers, reviews := map[], map[], map[], map[];
    }
  }
}
