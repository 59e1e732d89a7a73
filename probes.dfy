/**
 * The outcome of one `GET {BACKEND_URL}/api/map-data` request, as far as the
 * presence updater and the server-status watcher can tell them apart. The
 * request itself (httpx, the five-second timeout) is not modelled: its result
 * is an input.
 */
module Probes {

  /** What the body of a response holds once it is read as JSON. */
  datatype Payload =
    | Blank                            // empty or whitespace-only text
    | NotJson                          // other text that does not parse as JSON
    | NoCounts                         // JSON without both player-count keys
    | Counts(active: int, total: int)  // `active_players_count` and `total_players`

  datatype Probe =
    | RequestFailed                       // httpx.RequestError: connection failure or timeout
    | Responded(code: int, body: Payload) // an HTTP response with this status code

  /** httpx's notion of a successful status: 2xx. */
  predicate IsSuccess(code: int) {
    200 <= code < 300
  }
}
