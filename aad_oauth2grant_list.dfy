/**
 * `aad oauth2grant list`: lists the OAuth2 permission grants of a service
 * principal through Microsoft Graph. Modelled here: the validator, the
 * filtered request, the rule that only a non-empty result is logged, the
 * default columns and the option list.
 */
module AadOAuth2GrantList {
  import opened Wrappers
  import opened Command
  import Uri
  import Guid
  import Trace

  datatype Options = Options(spObjectId: string)

  /** The validator: the service principal's object id must be a GUID. */
  function Validate(o: Options): (r: Verdict)
    ensures r == Flag(true) <==> Guid.IsValidGuid(o.spObjectId)
    ensures r != Flag(true) ==> r == Message(o.spObjectId + " is not a valid GUID")
  {
    if !Guid.IsValidGuid(o.spObjectId) then Message(o.spObjectId + " is not a valid GUID")
    else Flag(true)
  }

  /** The columns shown by default, in this order. */
  function DefaultProperties(): (r: Option<seq<string>>)
    ensures r.Some? && |r.value| == 3
    ensures r.value[0] == "objectId" && r.value[1] == "resourceId" && r.value[2] == "scope"
  {
    Some(["objectId", "resourceId", "scope"])
  }

  const FilterPrefix := "/v1.0/oauth2PermissionGrants?$filter=clientId eq '"

  /**
   * The Graph query: only the object id is encoded, the OData filter around it
   * is not. The query lies under the Graph resource, and a GUID appears in it
   * exactly as written.
   */
  function ListUrl(resource: string, o: Options): (r: string)
    ensures |resource| < |r| && r[..|resource|] == resource
    ensures Guid.IsValidGuid(o.spObjectId) ==> r == resource + FilterPrefix + o.spObjectId + "'"
  {
    assert Guid.IsValidGuid(o.spObjectId) ==> Uri.Encode(o.spObjectId) == o.spObjectId by {
      if Guid.IsValidGuid(o.spObjectId) { Guid.GuidEncodesToItself(o.spObjectId); }
    }
    resource + FilterPrefix + Uri.Encode(o.spObjectId) + "'"
  }

  /** The GET asks for JSON without OData metadata, at the query above. */
  function ListRequest(resource: string, o: Options): (r: Request)
    ensures |resource| < |r.url| && r.url[..|resource|] == resource
    ensures r.accept == "application/json;odata.metadata=none" && r.responseType == Some("json")
  {
    Request(ListUrl(resource, o), "application/json;odata.metadata=none", Some("json"))
  }

  /**
   * The filter's own spaces and quote are written as they are; every space in
   * the URL after the resource lies in the filter text, none in the encoded id.
   */
  lemma OnlyIdentifierEncoded(resource: string, o: Options)
    ensures var url := ListUrl(resource, o);
      && url[..|resource| + |FilterPrefix|] == resource + FilterPrefix
      && url[|url| - 1] == '\''
      && forall i :: |resource| + |FilterPrefix| <= i < |url| - 1 ==> url[i] != ' ' && url[i] != '$'
  {
    var url := ListUrl(resource, o);
    var e := Uri.Encode(o.spObjectId);
    var n := |resource| + |FilterPrefix|;
    assert url == (resource + FilterPrefix) + e + "'";
    Uri.EncodeHasNoDelimiters(o.spObjectId);
    forall i | n <= i < |url| - 1 ensures url[i] != ' ' && url[i] != '$' {
      assert url[i] == e[i - n];
    }
  }

  /** For an accepted object id the filter compares clientId with the id exactly as given. */
  lemma AcceptedIdAppearsVerbatim(resource: string, o: Options)
    requires Validate(o) == Flag(true)
    ensures ListUrl(resource, o) == resource + FilterPrefix + o.spObjectId + "'"
    ensures forall i :: 0 <= i < |o.spObjectId| ==> o.spObjectId[i] != '\''
  {
    Guid.GuidEncodesToItself(o.spObjectId);
  }

  /** Different object ids give different queries. */
  lemma ListUrlInjective(resource: string, o1: Options, o2: Options)
    requires ListUrl(resource, o1) == ListUrl(resource, o2)
    ensures o1 == o2
  {
    var n := |resource + FilterPrefix|;
    var e1, e2 := Uri.Encode(o1.spObjectId), Uri.Encode(o2.spObjectId);
    assert ListUrl(resource, o1) == (resource + FilterPrefix) + e1 + "'";
    assert ListUrl(resource, o2) == (resource + FilterPrefix) + e2 + "'";
    assert e1 == ListUrl(resource, o1)[n..n + |e1|];
    assert e2 == ListUrl(resource, o2)[n..n + |e2|];
    Uri.EncodeInjective(o1.spObjectId, o2.spObjectId);
  }

  // The command body.

  /** The JSON body Graph answers with: `value`, if present, holds the grants. */
  datatype Response<T> = Response(value: Option<seq<T>>)

  datatype Event<T> =
    | LogToStderr(message: string)
    | Get(request: Request)
    | Log(value: seq<T>)
    | Done                     // cb() without an error
    | Rejected(raw: string)    // the rejection goes to the OData JSON error handler

  const VerboseLine := "Retrieving list of OAuth grants for the service principal..."

  /** One GET; on success the grants are logged only if there are any, then cb(). */
  function CommandAction<T>(o: Options, verbose: bool, resource: string, reply: Result<Response<T>>): (r: seq<Event<T>>)
    ensures |r| >= 2 && IsTerminal(r[|r| - 1])
    ensures r[|r| - 1] == Done <==> reply.Success?
  {
    (if verbose then [LogToStderr(VerboseLine)] else [])
    + [Get(ListRequest(resource, o))]
    + match reply
      case Failure(raw) => [Rejected(raw)]
      case Success(res) =>
        (if res.value.Some? && |res.value.value| > 0 then [Log(res.value.value)] else []) + [Done]
  }

  predicate IsTerminal<T>(e: Event<T>) { e.Done? || e.Rejected? }
  predicate IsGet<T>(e: Event<T>) { e.Get? }
  predicate IsLog<T>(e: Event<T>) { e.Log? }

  lemma Singletons<T>(e: Event<T>)
    ensures Trace.Count([e], IsTerminal) == if IsTerminal(e) then 1 else 0
    ensures Trace.Count([e], IsGet) == if IsGet(e) then 1 else 0
    ensures Trace.Count([e], IsLog) == if IsLog(e) then 1 else 0
  {
    Trace.CountOne(e, IsTerminal);
    Trace.CountOne(e, IsGet);
    Trace.CountOne(e, IsLog);
  }

  /**
   * Exactly one request, the query for this object id, and exactly one outcome,
   * the outcome last; a rejection carries the raw reply unchanged; the grants
   * are logged (once, as received) exactly when the request succeeded and its
   * `value` is present and not empty.
   */
  lemma CommandActionOutcome<T>(o: Options, verbose: bool, resource: string, reply: Result<Response<T>>)
    ensures var t := CommandAction(o, verbose, resource, reply);
      && Trace.Count(t, IsGet) == 1
      && Trace.Count(t, IsTerminal) == 1 && IsTerminal(t[|t| - 1])
      && (t[|t| - 1] == Done <==> reply.Success?)
      && Trace.Count(t, IsLog) == (if reply.Success? && reply.value.value.Some? && |reply.value.value.value| > 0 then 1 else 0)
      && (reply.Success? && reply.value.value.Some? && |reply.value.value.value| > 0 ==>
            t[|t| - 2] == Log(reply.value.value.value))
      && (forall i :: 0 <= i < |t| && t[i].Get? ==> t[i].request == ListRequest(resource, o))
      && (reply.Failure? ==> t[|t| - 1] == Rejected(reply.raw))
  {
    var pre: seq<Event<T>> := if verbose then [LogToStderr(VerboseLine)] else [];
    var get: seq<Event<T>> := [Get(ListRequest(resource, o))];
    if verbose { Singletons(pre[0]); }
    Singletons(get[0]);
    var outcome: seq<Event<T>> := match reply
      case Failure(raw) => [Rejected(raw)]
      case Success(res) => (if res.value.Some? && |res.value.value| > 0 then [Log(res.value.value)] else []) + [Done];
    assert CommandAction(o, verbose, resource, reply) == pre + get + outcome;
    OutcomeCounts(reply, outcome);
    Trace.Count3(pre, get, outcome, IsTerminal);
    Trace.Count3(pre, get, outcome, IsGet);
    Trace.Count3(pre, get, outcome, IsLog);
  }

  /** What follows the GET: the rejection, or the grants if there are any and then cb(). */
  lemma OutcomeCounts<T>(reply: Result<Response<T>>, outcome: seq<Event<T>>)
    requires outcome == match reply
      case Failure(raw) => [Rejected(raw)]
      case Success(res) => (if res.value.Some? && |res.value.value| > 0 then [Log(res.value.value)] else []) + [Done]
    ensures Trace.Count(outcome, IsGet) == 0 && Trace.Count(outcome, IsTerminal) == 1
    ensures Trace.Count(outcome, IsLog) == (if reply.Success? && reply.value.value.Some? && |reply.value.value.value| > 0 then 1 else 0)
    ensures reply.Success? && reply.value.value.Some? && |reply.value.value.value| > 0 ==>
      |outcome| == 2 && outcome[0] == Log(reply.value.value.value)
    ensures forall k :: 0 <= k < |outcome| ==> !outcome[k].Get?
  {
    match reply
    case Failure(raw) =>
      Singletons<T>(Rejected(raw));
    case Success(res) =>
      var log: seq<Event<T>> := if res.value.Some? && |res.value.value| > 0 then [Log(res.value.value)] else [];
      if log != [] { Singletons(log[0]); }
      Singletons<T>(Done);
      Trace.CountAppend(log, [Done], IsTerminal);
      Trace.CountAppend(log, [Done], IsGet);
      Trace.CountAppend(log, [Done], IsLog);
  }

  // Options.

  /** The command's one option, followed by the inherited ones unchanged and in order. */
  function AllOptions(inherited: seq<CommandOption>): (r: seq<CommandOption>)
    ensures |r| == 1 + |inherited|
    ensures r[0] == CommandOption("-i, --spObjectId <spObjectId>", None) && r[1..] == inherited
  {
    [CommandOption("-i, --spObjectId <spObjectId>", None)] + inherited
  }
}
