/** The transfer objects the controllers accept. */
module Models {
  import opened Wrappers

  datatype AuthorDto = AuthorDto(name: string, biography: string)

  datatype PublicationDto = PublicationDto(
    title: string,
    description: string,
    authorsIds: seq<int>,
    reviewsIds: seq<int>,
    publisherId: Option<int>)

  datatype PublisherDto = PublisherDto(name: string, email: string, publicationsIds: seq<int>)

  /** `PublicationId` is a plain (non-nullable) `int` in this revision. */
  datatype ReviewDto = ReviewDto(reviewerName: string, isPositive: bool, comment: string, publicationId: int)
}
