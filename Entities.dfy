/** The four stored records. Each optional foreign key is held by the dependent
    row, as the relationships of `LibraryCatalogDbContext.OnModelCreating` put it:
    an author and a review point at a publication, a publication at a publisher. */
module Entities {
  import opened Wrappers

  /** `Author`; `publication` is the shadow key of `Publication.Authors` (`WithOne()`). */
  datatype Author = Author(name: string, biography: string, publication: Option<int>)

  /** `Publication`; its `Authors` and `Reviews` collections are derived from the
      keys of the dependents (see `Data.AuthorsOf` and `Data.ReviewsOf`). */
  datatype Publication = Publication(title: string, description: string, publisher: Option<int>)

  /** `Publisher`; its `Publications` collection is derived (see `Data.PublicationsOf`). */
  datatype Publisher = Publisher(name: string, email: string)

  /** `Review`; `publication` is the key behind `Review.Publication`. */
  datatype Review = Review(reviewerName: string, isPositive: bool, comment: string, publication: Option<int>)
}
