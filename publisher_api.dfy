/** The second, list-only publisher controller of `PublisherController.cs`. */
module PublisherApi {
  import opened Wrappers
  import opened Models
  import PublishersApi

  /** `GetAll` given the repository's answer: "No publishers found." for null or empty, else the DTOs. */
  function GetAll(publishers: Option<seq<Publisher>>): (r: ActionResult<seq<PublisherDto>>)
    ensures publishers.None? ==> r == NotFound(Some("No publishers found."))
    ensures publishers == Some([]) ==> r == NotFound(Some("No publishers found."))
    ensures publishers.Some? && publishers.value != [] ==>
              && r.Ok? && |r.value| == |publishers.value|
              && forall i :: 0 <= i < |r.value| ==>
                   r.value[i].id == publishers.value[i].id && r.value[i].name == publishers.value[i].name
  {
    if publishers.None? || |publishers.value| == 0 then NotFound(Some("No publishers found."))
    else Ok(PublishersApi.PublisherDtos(publishers.value))
  }

  /** Both publisher controllers answer a listing request alike. */
  lemma SameAsPublishersController(publishers: Option<seq<Publisher>>)
    ensures GetAll(publishers) == PublishersApi.GetAll(publishers)
  {
  }
}
