/** `JsonPlaceholderClient.getUserById` (GET {base}/users/{id}) as an oracle:
    the upstream's answer is a fixed function of the requested id, and a
    ghost log records every request actually sent. */
module PlaceholderClient {
  import opened Domain

  /** What subscribing to the client's Mono yields: one profile, completion
      without a value, or an error with its message. */
  datatype Fetch = Fetched(user: User) | NoBody | Failed(message: string)

  class JsonPlaceholderClient {
    const respond: string -> Fetch
    ghost var requests: seq<string>

    constructor(respond: string -> Fetch)
      ensures this.respond == respond && requests == []
    {
      this.respond := respond;
      requests := [];
    }

    method GetUserById(id: string) returns (r: Fetch)
      modifies this`requests
      ensures r == respond(id)
      ensures requests == old(requests) + [id]
    {
      r := respond(id);
      requests := requests + [id];
    }
  }
}
