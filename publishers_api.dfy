/** The publishers controller: listing, lookup and creation. */
module PublishersApi {
  import opened Wrappers
  import opened Models
  import opened PublisherStore
  import Text

  /** The publisher DTOs, one per publisher, in order. */
  function PublisherDtos(publishers: seq<Publisher>): (ds: seq<PublisherDto>)
    ensures |ds| == |publishers|
    ensures forall i :: 0 <= i < |ds| ==> ds[i].id == publishers[i].id && ds[i].name == publishers[i].name
  {
    seq(|publishers|, i requires 0 <= i < |publishers| => PublisherDto(publishers[i].id, publishers[i].name))
  }

  /** `GetAll` given the repository's answer: "No publishers found." for null or empty, else the DTOs. */
  function GetAll(publishers: Option<seq<Publisher>>): (r: ActionResult<seq<PublisherDto>>)
    ensures r.NotFound? <==> publishers.None? || publishers.value == []
    ensures r.NotFound? ==> r.body == Some("No publishers found.")
    ensures r.Ok? || r.NotFound?
    ensures r.Ok? ==> |r.value| == |publishers.value|
                      && forall i :: 0 <= i < |r.value| ==>
                           r.value[i].id == publishers.value[i].id && r.value[i].name == publishers.value[i].name
  {
    if publishers.None? || publishers.value == [] then NotFound(Some("No publishers found."))
    else Ok(PublisherDtos(publishers.value))
  }

  /** `GetById` given the repository's answer: not found for null, else that publisher's DTO. */
  function GetById(publisher: Option<Publisher>): (r: ActionResult<PublisherDto>)
    ensures r.NotFound? <==> publisher.None?
    ensures r.Ok? || r == NotFound(None)
    ensures r.Ok? ==> r.value.id == publisher.value.id && r.value.name == publisher.value.name
  {
    match publisher
    case None => NotFound(None)
    case Some(p) => Ok(PublisherDto(p.id, p.name))
  }

  class PublishersController {
    const repository: PublisherRepository

    constructor (repository: PublisherRepository)
      ensures this.repository == repository
    {
      this.repository := repository;
    }

    /**
     * `Create`: a null or white-space name is refused and nothing is added;
     * otherwise the trimmed name, which is not blank, is stored under the
     * identity the database assigns and echoed back.
     */
    method Create(dto: Option<CreatePublisherDto>, newId: int) returns (r: ActionResult<PublisherDto>)
      requires repository.Valid()
      requires forall p :: p in repository.publishers ==> p.id != newId
      modifies repository
      ensures repository.Valid()
      ensures dto.None? || Text.IsNullOrWhiteSpace(Some(dto.value.name)) ==>
                r == BadRequest("Invalid publisher data.") && unchanged(repository)
      ensures dto.Some? && !Text.IsNullOrWhiteSpace(Some(dto.value.name)) ==>
                var name := Text.Trim(Text.DotNet, dto.value.name);
                && name != [] && Text.Trim(Text.DotNet, name) == name
                && repository.publishers == old(repository.publishers) + [Publisher(newId, name)]
                && r == Created(newId, PublisherDto(newId, name))
      ensures repository.books == old(repository.books)
    {
      if dto.None? || Text.IsNullOrWhiteSpace(Some(dto.value.name)) {
        return BadRequest("Invalid publisher data.");
      }
      Text.TrimIdempotent(Text.DotNet, dto.value.name);
      var createdPublisher := repository.Add(Publisher(0, Text.Trim(Text.DotNet, dto.value.name)), newId);
      var result := PublisherDto(createdPublisher.id, createdPublisher.name);
      return Created(createdPublisher.id, result);
    }
  }
}
