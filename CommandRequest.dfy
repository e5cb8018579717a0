/** The inputs of one command invocation (`CommandRequest`): the command as
    the caller supplied it, the body, the HTTP method and a snapshot of the
    request headers. The record is immutable. */
module Requests {
  import opened Wrappers

  /** A header snapshot. Lookups in it are exact-key; a case-insensitive
      snapshot is the caller's business (the adapter builds one whose keys
      all differ ignoring case). */
  type HeaderSnapshot = map<string, string>

  /** `Command` is kept verbatim (not normalised, possibly null); `Body` is never null. */
  datatype CommandRequest = CommandRequest(
    command: Option<string>,
    body: string,
    httpMethod: string,
    headers: HeaderSnapshot)

  /** The `ArgumentNullException` the constructor throws, with its parameter name. */
  datatype ArgumentNullException = ArgumentNull(paramName: string)

  /** The constructor: a null body becomes "", a null method and then a null
      header map are rejected, everything else is stored as given. */
  function NewCommandRequest(
    command: Option<string>,
    body: Option<string>,
    httpMethod: Option<string>,
    headers: Option<HeaderSnapshot>): (r: Result<CommandRequest, ArgumentNullException>)
    ensures r.Success? <==> httpMethod.Some? && headers.Some?
    ensures httpMethod.None? ==> r == Failure(ArgumentNull("method"))
    ensures httpMethod.Some? && headers.None? ==> r == Failure(ArgumentNull("headers"))
    ensures r.Success? ==>
      && r.value.command == command
      && r.value.body == (if body.Some? then body.value else "")
      && r.value.httpMethod == httpMethod.value
      && r.value.headers == headers.value
  {
    if httpMethod.None? then Failure(ArgumentNull("method"))
    else if headers.None? then Failure(ArgumentNull("headers"))
    else Success(CommandRequest(command, body.GetOr(""), httpMethod.value, headers.value))
  }

  /** `TryGetHeader(name, out value)`: whether the snapshot has `name`, and
      its value, or "" when it has not. */
  function TryGetHeader(request: CommandRequest, name: string): (r: (bool, string))
    ensures r.0 <==> name in request.headers
    ensures r.0 ==> r.1 == request.headers[name]
    ensures !r.0 ==> r.1 == ""
  {
    if name in request.headers then (true, request.headers[name]) else (false, "")
  }
}
