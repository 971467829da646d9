/**
 * `spo app remove`: removes an app from the tenant or a site-collection app
 * catalog. Modelled here: the option validator, the effective scope and the
 * removal request, the confirmation gate around the removal, the telemetry
 * properties and the option list.
 */
module SpoAppRemove {
  import opened Wrappers
  import opened Command
  import Text
  import Uri
  import Guid
  import Trace

  /** The command's own options; `confirm` is a flag, absent meaning false. */
  datatype Options = Options(id: string, appCatalogUrl: Option<string>, confirm: bool, scope: Option<string>)

  const ScopeMessage := "Scope must be either 'tenant' or 'sitecollection' if specified"
  const CatalogMessage := "You must specify appCatalogUrl when the scope is sitecollection"

  function GuidMessage(id: string): string {
    id + " is not a valid GUID"
  }

  predicate IsKnownScope(s: string) {
    s == "tenant" || s == "sitecollection"
  }

  /** A scope was given and its lower-case form names no app catalog. */
  predicate ScopeRejected(o: Options) {
    Truthy(o.scope) && !IsKnownScope(Text.Lower(o.scope.value))
  }

  /** The site-collection catalog was chosen without saying where it is. */
  predicate CatalogMissing(o: Options) {
    Truthy(o.scope) && Text.Lower(o.scope.value) == "sitecollection" && !Truthy(o.appCatalogUrl)
  }

  /**
   * The validator. `isValidSharePointUrl` stands for the shared URL check,
   * which is not part of this model: it answers `true` or a message. Accepted
   * options name a GUID and a known scope; without a catalog URL the answer is
   * acceptance or one of the command's own three messages.
   */
  function Validate(o: Options, isValidSharePointUrl: string -> Verdict): (r: Verdict)
    ensures r == Flag(true) ==> Guid.IsValidGuid(o.id) && IsKnownScope(EffectiveScope(o))
    ensures !Truthy(o.appCatalogUrl) ==>
      r == Flag(true) || r == Message(ScopeMessage) || r == Message(CatalogMessage) || r == Message(GuidMessage(o.id))
  {
    if ScopeRejected(o) then Message(ScopeMessage)
    else if CatalogMissing(o) then Message(CatalogMessage)
    else if !Guid.IsValidGuid(o.id) then Message(GuidMessage(o.id))
    else if Truthy(o.appCatalogUrl) then isValidSharePointUrl(o.appCatalogUrl.value)
    else Flag(true)
  }

  // The validator as an ordered rule table: the first rule that fires decides.

  datatype Rule = Rule(fires: bool, verdict: Verdict)

  function Rules(o: Options, isValidSharePointUrl: string -> Verdict): seq<Rule> {
    [ Rule(ScopeRejected(o), Message(ScopeMessage)),
      Rule(CatalogMissing(o), Message(CatalogMessage)),
      Rule(!Guid.IsValidGuid(o.id), Message(GuidMessage(o.id))),
      // The guard inside the verdict only makes `.value` well-formed; the rule fires on the same test.
      Rule(Truthy(o.appCatalogUrl), if Truthy(o.appCatalogUrl) then isValidSharePointUrl(o.appCatalogUrl.value) else Flag(true)) ]
  }

  function FirstFiring(rules: seq<Rule>, otherwise: Verdict): Verdict {
    if rules == [] then otherwise
    else if rules[0].fires then rules[0].verdict
    else FirstFiring(rules[1..], otherwise)
  }

  /** The validator is the rule table read in order: scope, catalog URL, GUID, SharePoint URL. */
  lemma ValidateFollowsRuleTable(o: Options, isValidSharePointUrl: string -> Verdict)
    ensures Validate(o, isValidSharePointUrl) == FirstFiring(Rules(o, isValidSharePointUrl), Flag(true))
  {
    var rs := Rules(o, isValidSharePointUrl);
    var d := Flag(true);
    assert FirstFiring(rs[3..], d) == if rs[3].fires then rs[3].verdict else d by {
      assert rs[3..][1..] == [];
    }
    assert FirstFiring(rs[2..], d) == if rs[2].fires then rs[2].verdict else FirstFiring(rs[3..], d) by {
      assert rs[2..][1..] == rs[3..];
    }
    assert FirstFiring(rs[1..], d) == if rs[1].fires then rs[1].verdict else FirstFiring(rs[2..], d) by {
      assert rs[1..][1..] == rs[2..];
    }
  }

  /** An unknown scope is reported before anything else, whatever the id and the URL. */
  lemma UnknownScopeReportedFirst(o: Options, isValidSharePointUrl: string -> Verdict)
    requires Truthy(o.scope)
    requires !IsKnownScope(Text.Lower(o.scope.value))
    ensures Validate(o, isValidSharePointUrl) == Message(ScopeMessage)
  {
  }

  /** The site-collection scope (in any case) needs appCatalogUrl, and this is checked before the id. */
  lemma SiteCollectionNeedsCatalog(o: Options, isValidSharePointUrl: string -> Verdict)
    requires Truthy(o.scope) && Text.Lower(o.scope.value) == "sitecollection"
    requires !Truthy(o.appCatalogUrl)
    ensures Validate(o, isValidSharePointUrl) == Message(CatalogMessage)
  {
  }

  /** Once the scope rules pass, a non-GUID id is reported with exactly that message, before the URL check. */
  lemma NonGuidReported(o: Options, isValidSharePointUrl: string -> Verdict)
    requires !ScopeRejected(o) && !CatalogMissing(o)
    requires !Guid.IsValidGuid(o.id)
    ensures Validate(o, isValidSharePointUrl) == Message(o.id + " is not a valid GUID")
  {
  }

  /** Once the earlier rules pass, the SharePoint URL check decides, or the options are accepted. */
  lemma UrlCheckDecidesLast(o: Options, isValidSharePointUrl: string -> Verdict)
    requires !ScopeRejected(o) && !CatalogMissing(o) && Guid.IsValidGuid(o.id)
    ensures Validate(o, isValidSharePointUrl)
         == if Truthy(o.appCatalogUrl) then isValidSharePointUrl(o.appCatalogUrl.value) else Flag(true)
  {
  }

  /** The options are accepted exactly when every rule is satisfied. */
  lemma ValidateAccepts(o: Options, isValidSharePointUrl: string -> Verdict)
    ensures Validate(o, isValidSharePointUrl) == Flag(true) <==>
      && !ScopeRejected(o)
      && !CatalogMissing(o)
      && Guid.IsValidGuid(o.id)
      && (Truthy(o.appCatalogUrl) ==> isValidSharePointUrl(o.appCatalogUrl.value) == Flag(true))
  {
  }

  /** The scope is matched without regard to case: a scope and its lower-case form validate alike. */
  lemma ScopeCaseInsensitive(o: Options, s: string, isValidSharePointUrl: string -> Verdict)
    ensures Validate(o.(scope := Some(s)), isValidSharePointUrl)
         == Validate(o.(scope := Some(Text.Lower(s))), isValidSharePointUrl)
    ensures EffectiveScope(o.(scope := Some(s))) == EffectiveScope(o.(scope := Some(Text.Lower(s))))
  {
    Text.LowerIdempotent(s);
  }

  /** `TENANT` and `SiteCollection` pass the scope rule and select the tenant and site-collection catalogs. */
  lemma UpperCaseScopesAccepted(o: Options)
    ensures !ScopeRejected(o.(scope := Some("TENANT")))
    ensures EffectiveScope(o.(scope := Some("TENANT"))) == "tenant"
    ensures !ScopeRejected(o.(scope := Some("SiteCollection")))
    ensures EffectiveScope(o.(scope := Some("SiteCollection"))) == "sitecollection"
  {
    assert Text.Lower("TENANT") == "tenant";
    assert Text.Lower("SiteCollection") == "sitecollection";
  }

  // The removal request.

  /**
   * The scope the command acts on: the given scope in lower case, `tenant` when
   * none is given. It holds no upper-case letter, and it names a catalog
   * whenever the scope rule passes.
   */
  function EffectiveScope(o: Options): (r: string)
    ensures forall i :: 0 <= i < |r| ==> !('A' <= r[i] <= 'Z')
    ensures !ScopeRejected(o) ==> IsKnownScope(r)
  {
    if Truthy(o.scope) then Text.Lower(o.scope.value) else "tenant"
  }

  /**
   * The removal URL lies under the resolved catalog URL; a GUID id appears in
   * it exactly as written.
   */
  function RemoveUrl(appCatalogUrl: string, o: Options): (r: string)
    ensures |appCatalogUrl| < |r| && r[..|appCatalogUrl|] == appCatalogUrl
    ensures Guid.IsValidGuid(o.id) ==>
      r == appCatalogUrl + "/_api/web/" + EffectiveScope(o) + "appcatalog/AvailableApps/GetById('" + o.id + "')/remove"
  {
    assert Guid.IsValidGuid(o.id) ==> Uri.Encode(o.id) == o.id by {
      if Guid.IsValidGuid(o.id) { Guid.GuidEncodesToItself(o.id); }
    }
    appCatalogUrl + "/_api/web/" + EffectiveScope(o) + "appcatalog/AvailableApps/GetById('"
      + Uri.Encode(o.id) + "')/remove"
  }

  /** The POST goes under the resolved catalog URL, asks for no OData metadata and parses no response. */
  function RemoveRequest(appCatalogUrl: string, o: Options): (r: Request)
    ensures |appCatalogUrl| < |r.url| && r.url[..|appCatalogUrl|] == appCatalogUrl
    ensures r.accept == "application/json;odata=nometadata" && r.responseType.None?
  {
    Request(RemoveUrl(appCatalogUrl, o), "application/json;odata=nometadata", None)
  }

  /**
   * For accepted options the request goes to the tenant or the site-collection
   * catalog, the site collection only with an explicit catalog URL, and the id
   * appears in the URL as the user wrote it.
   */
  lemma AcceptedRequestShape(o: Options, isValidSharePointUrl: string -> Verdict, appCatalogUrl: string)
    requires Validate(o, isValidSharePointUrl) == Flag(true)
    ensures IsKnownScope(EffectiveScope(o))
    ensures EffectiveScope(o) == "sitecollection" ==> Truthy(o.appCatalogUrl)
    ensures RemoveUrl(appCatalogUrl, o)
         == appCatalogUrl + "/_api/web/" + EffectiveScope(o) + "appcatalog/AvailableApps/GetById('" + o.id + "')/remove"
  {
    ValidateAccepts(o, isValidSharePointUrl);
    Guid.GuidEncodesToItself(o.id);
  }

  /** Without a scope the request goes to the tenant app catalog. */
  lemma DefaultScopeIsTenant(o: Options, appCatalogUrl: string)
    requires !Truthy(o.scope) && Guid.IsValidGuid(o.id)
    ensures EffectiveScope(o) == "tenant"
    ensures RemoveUrl(appCatalogUrl, o)
         == appCatalogUrl + "/_api/web/" + "tenant" + "appcatalog/AvailableApps/GetById('" + o.id + "')/remove"
  {
    Guid.GuidEncodesToItself(o.id);
  }

  /** Two requests to the same catalog are the same only for the same scope and the same app id. */
  lemma RemoveUrlInjective(appCatalogUrl: string, o1: Options, o2: Options)
    requires IsKnownScope(EffectiveScope(o1)) && IsKnownScope(EffectiveScope(o2))
    requires RemoveUrl(appCatalogUrl, o1) == RemoveUrl(appCatalogUrl, o2)
    ensures EffectiveScope(o1) == EffectiveScope(o2)
    ensures o1.id == o2.id
  {
    var head := appCatalogUrl + "/_api/web/";
    var u1, u2 := RemoveUrl(appCatalogUrl, o1), RemoveUrl(appCatalogUrl, o2);
    var s1, s2 := EffectiveScope(o1), EffectiveScope(o2);
    assert u1[|head|] == s1[0] && u2[|head|] == s2[0];
    assert s1 == s2;
    var mid := "appcatalog/AvailableApps/GetById('";
    var tail := "')/remove";
    var e1, e2 := Uri.Encode(o1.id), Uri.Encode(o2.id);
    assert u1 == (head + s1 + mid) + e1 + tail;
    assert u2 == (head + s1 + mid) + e2 + tail;
    var n := |head + s1 + mid|;
    assert |e1| == |e2|;
    assert e1 == u1[n..n + |e1|];
    assert e2 == u2[n..n + |e2|];
    Uri.EncodeInjective(o1.id, o2.id);
  }

  // The confirmation gate and the removal.

  /** What the invocation does, in order. */
  datatype Event =
    | Prompt(message: string)            // asks the user to confirm
    | ResolveSpoUrl                      // looks up the tenant's SharePoint URL
    | ResolveAppCatalogUrl(spoUrl: string) // looks up the app catalog's URL
    | LogToStderr(message: string)
    | Post(request: Request)
    | Done                               // cb() without an error
    | Rejected(raw: string)              // the rejection goes to the OData error handler

  /** What the collaborators answer: the SharePoint URL, the app catalog URL, the POST. */
  datatype Replies = Replies(spoUrl: Result<string>, appCatalogUrl: Result<string>, post: Result<()>)

  const PromptPrefix := "Are you sure you want to remove the app "
  const PromptSuffix := " from the app catalog?"

  /** The confirmation question names the app being removed. */
  function PromptMessage(id: string): (r: string)
    ensures |PromptPrefix| + |id| < |r| && r[..|PromptPrefix|] == PromptPrefix
    ensures r[|PromptPrefix|..|PromptPrefix| + |id|] == id
  {
    PromptPrefix + id + PromptSuffix
  }

  /** In debug mode, the line that reports the resolved catalog URL. */
  function DebugLog(debug: bool, catalog: string): seq<Event> {
    if debug then [LogToStderr("Retrieved app catalog URL " + catalog + ". Removing app from the app catalog...")] else []
  }

  /** The removal chain: resolve the SharePoint URL, then the catalog URL, then POST; any rejection ends it. */
  function RemoveApp(o: Options, debug: bool, replies: Replies): (r: seq<Event>)
    ensures |r| >= 2 && r[0] == ResolveSpoUrl && IsTerminal(r[|r| - 1])
  {
    [ResolveSpoUrl] +
    match replies.spoUrl
    case Failure(raw) => [Rejected(raw)]
    case Success(spoUrl) =>
      [ResolveAppCatalogUrl(spoUrl)] +
      match replies.appCatalogUrl
      case Failure(raw) => [Rejected(raw)]
      case Success(catalog) =>
        DebugLog(debug, catalog)
        + [Post(RemoveRequest(catalog, o))]
        + match replies.post
          case Failure(raw) => [Rejected(raw)]
          case Success(_) => [Done]
  }

  /** The command body: with `confirm` remove at once; otherwise ask, and remove only on a yes. */
  function CommandAction(o: Options, debug: bool, answer: bool, replies: Replies): (r: seq<Event>)
    ensures |r| >= 2 && r[0] == if o.confirm then ResolveSpoUrl else Prompt(PromptMessage(o.id))
  {
    if o.confirm then RemoveApp(o, debug, replies)
    else [Prompt(PromptMessage(o.id))] + AfterPrompt(o, debug, answer, replies)
  }

  predicate IsTerminal(e: Event) { e.Done? || e.Rejected? }
  predicate IsPost(e: Event) { e.Post? }
  predicate IsPrompt(e: Event) { e.Prompt? }
  predicate IsCatalogLookup(e: Event) { e.ResolveAppCatalogUrl? }
  predicate IsCollaboratorCall(e: Event) { e.ResolveSpoUrl? || e.ResolveAppCatalogUrl? || e.Post? }

  /** The events of the removal chain, grouped: the two lookups, then the POST and its outcome. */
  lemma RemoveAppShape(o: Options, debug: bool, replies: Replies)
    ensures var t := RemoveApp(o, debug, replies);
      match replies.spoUrl
      case Failure(raw) => t == [ResolveSpoUrl] + [Rejected(raw)]
      case Success(spoUrl) =>
        match replies.appCatalogUrl
        case Failure(raw) => t == ([ResolveSpoUrl] + [ResolveAppCatalogUrl(spoUrl)]) + [Rejected(raw)]
        case Success(catalog) =>
          t == ([ResolveSpoUrl] + [ResolveAppCatalogUrl(spoUrl)])
             + (DebugLog(debug, catalog)
                + [Post(RemoveRequest(catalog, o))]
                + (if replies.post.Success? then [Done] else [Rejected(replies.post.raw)]))
  {
  }

  /**
   * The chain short-circuits in order: it always starts by resolving the
   * SharePoint URL; the catalog URL is looked up, once and with that URL,
   * exactly when the first lookup succeeded; and the only POST comes after both
   * lookups and goes to the catalog URL the second lookup returned.
   */
  lemma RemoveAppOrder(o: Options, debug: bool, replies: Replies)
    ensures var t := RemoveApp(o, debug, replies);
      && t[0] == ResolveSpoUrl
      && Trace.Count(t, IsCatalogLookup) == (if replies.spoUrl.Success? then 1 else 0)
      && (forall i :: 0 <= i < |t| && t[i].ResolveAppCatalogUrl? ==>
            i == 1 && replies.spoUrl.Success? && t[i].spoUrl == replies.spoUrl.value)
      && (forall i :: 0 <= i < |t| && t[i].Post? ==>
            2 <= i && t[1].ResolveAppCatalogUrl? && replies.appCatalogUrl.Success?
            && t[i].request == RemoveRequest(replies.appCatalogUrl.value, o))
  {
    RemoveAppShape(o, debug, replies);
    var first: seq<Event> := [ResolveSpoUrl];
    Trace.CountOne(ResolveSpoUrl, IsCatalogLookup);
    if replies.spoUrl.Failure? {
      Trace.CountOne(Rejected(replies.spoUrl.raw), IsCatalogLookup);
      Trace.CountAppend(first, [Rejected(replies.spoUrl.raw)], IsCatalogLookup);
    } else if replies.appCatalogUrl.Failure? {
      var second: seq<Event> := [ResolveAppCatalogUrl(replies.spoUrl.value)];
      var last: seq<Event> := [Rejected(replies.appCatalogUrl.raw)];
      Trace.CountOne(second[0], IsCatalogLookup);
      Trace.CountOne(last[0], IsCatalogLookup);
      Trace.Count3(first, second, last, IsCatalogLookup);
    } else {
      PostedChainOrder(o, debug, replies);
    }
  }

  /** The order of a removal chain in which both lookups succeeded. */
  lemma PostedChainOrder(o: Options, debug: bool, replies: Replies)
    requires replies.spoUrl.Success? && replies.appCatalogUrl.Success?
    ensures var t := RemoveApp(o, debug, replies);
      && Trace.Count(t, IsCatalogLookup) == 1
      && (forall i :: 0 <= i < |t| && t[i].ResolveAppCatalogUrl? ==> i == 1)
      && (forall i :: 0 <= i < |t| && t[i].Post? ==> 2 <= i && t[i] == Post(RemoveRequest(replies.appCatalogUrl.value, o)))
  {
    var t := RemoveApp(o, debug, replies);
    var catalog := replies.appCatalogUrl.value;
    var log := DebugLog(debug, catalog);
    var post: seq<Event> := [Post(RemoveRequest(catalog, o))];
    var last: seq<Event> := if replies.post.Success? then [Done] else [Rejected(replies.post.raw)];
    var rest := log + post + last;
    Trace.CountOne(ResolveSpoUrl, IsCatalogLookup);
    Trace.CountOne(ResolveAppCatalogUrl(replies.spoUrl.value), IsCatalogLookup);
    Trace.CountOne(post[0], IsCatalogLookup);
    Trace.CountOne(last[0], IsCatalogLookup);
    if debug { Trace.CountOne(log[0], IsCatalogLookup); }
    PostedChainSplit(o, debug, replies, IsCatalogLookup);
    assert t == [ResolveSpoUrl] + ([ResolveAppCatalogUrl(replies.spoUrl.value)] + rest);
    forall i | 2 <= i < |t| ensures !t[i].ResolveAppCatalogUrl? && (t[i].Post? ==> t[i] == post[0]) {
      assert t[i] == rest[i - 2];
    }
  }

  lemma {:induction false} RemoveAppCounts(o: Options, debug: bool, replies: Replies)
    ensures var t := RemoveApp(o, debug, replies);
      && Trace.Count(t, IsTerminal) == 1 && IsTerminal(t[|t| - 1])
      && Trace.Count(t, IsPrompt) == 0
      && Trace.Count(t, IsPost) == (if replies.spoUrl.Success? && replies.appCatalogUrl.Success? then 1 else 0)
      && t[|t| - 1] == RemovalEnd(replies)
  {
    RemoveAppLast(o, debug, replies);
    RemoveAppShape(o, debug, replies);
    var first: seq<Event> := [ResolveSpoUrl];
    Singletons(ResolveSpoUrl);
    if replies.spoUrl.Failure? {
      var raw := replies.spoUrl.raw;
      Singletons(Rejected(raw));
      Trace.CountAppend(first, [Rejected(raw)], IsTerminal);
      Trace.CountAppend(first, [Rejected(raw)], IsPrompt);
      Trace.CountAppend(first, [Rejected(raw)], IsPost);
    } else {
      var second: seq<Event> := [ResolveAppCatalogUrl(replies.spoUrl.value)];
      Singletons(second[0]);
      if replies.appCatalogUrl.Failure? {
        Singletons(Rejected(replies.appCatalogUrl.raw));
        Trace.Count3(first, second, [Rejected(replies.appCatalogUrl.raw)], IsTerminal);
        Trace.Count3(first, second, [Rejected(replies.appCatalogUrl.raw)], IsPrompt);
        Trace.Count3(first, second, [Rejected(replies.appCatalogUrl.raw)], IsPost);
      } else {
        PostedChainCounts(o, debug, replies);
      }
    }
  }

  /** The event that closes the removal chain for the given collaborator replies. */
  function RemovalEnd(replies: Replies): Event {
    if replies.spoUrl.Failure? then Rejected(replies.spoUrl.raw)
    else if replies.appCatalogUrl.Failure? then Rejected(replies.appCatalogUrl.raw)
    else if replies.post.Failure? then Rejected(replies.post.raw)
    else Done
  }

  /**
   * The chain ends in cb() only when all three calls succeeded; otherwise it
   * ends with the first rejection, carrying its raw value unchanged.
   */
  lemma RemoveAppLast(o: Options, debug: bool, replies: Replies)
    ensures var t := RemoveApp(o, debug, replies);
      t[|t| - 1] == RemovalEnd(replies)
  {
    var t := RemoveApp(o, debug, replies);
    if replies.spoUrl.Success? && replies.appCatalogUrl.Success? {
      var catalog := replies.appCatalogUrl.value;
      var last: seq<Event> := if replies.post.Success? then [Done] else [Rejected(replies.post.raw)];
      var front := [ResolveSpoUrl, ResolveAppCatalogUrl(replies.spoUrl.value)] + DebugLog(debug, catalog) + [Post(RemoveRequest(catalog, o))];
      assert t == front + last;
    }
  }

  /** The counts of a removal chain in which both lookups succeeded. */
  lemma PostedChainCounts(o: Options, debug: bool, replies: Replies)
    requires replies.spoUrl.Success? && replies.appCatalogUrl.Success?
    ensures var t := RemoveApp(o, debug, replies);
      && Trace.Count(t, IsTerminal) == 1
      && Trace.Count(t, IsPrompt) == 0
      && Trace.Count(t, IsPost) == 1
  {
    var catalog := replies.appCatalogUrl.value;
    var log := DebugLog(debug, catalog);
    var last: seq<Event> := if replies.post.Success? then [Done] else [Rejected(replies.post.raw)];
    Singletons(ResolveSpoUrl);
    Singletons(ResolveAppCatalogUrl(replies.spoUrl.value));
    Singletons(Post(RemoveRequest(catalog, o)));
    Singletons(last[0]);
    if debug { Singletons(log[0]); }
    PostedChainSplit(o, debug, replies, IsTerminal);
    PostedChainSplit(o, debug, replies, IsPrompt);
    PostedChainSplit(o, debug, replies, IsPost);
  }

  /** A posted chain counts as its two lookups, its debug line, its POST and its outcome. */
  lemma PostedChainSplit(o: Options, debug: bool, replies: Replies, p: Event -> bool)
    requires replies.spoUrl.Success? && replies.appCatalogUrl.Success?
    ensures var catalog := replies.appCatalogUrl.value;
      Trace.Count(RemoveApp(o, debug, replies), p)
      == Trace.Count([ResolveSpoUrl], p) + Trace.Count([ResolveAppCatalogUrl(replies.spoUrl.value)], p)
         + Trace.Count(DebugLog(debug, catalog), p) + Trace.Count([Post(RemoveRequest(catalog, o))], p)
         + Trace.Count(if replies.post.Success? then [Done] else [Rejected(replies.post.raw)], p)
  {
    var catalog := replies.appCatalogUrl.value;
    var log := DebugLog(debug, catalog);
    var post: seq<Event> := [Post(RemoveRequest(catalog, o))];
    var last: seq<Event> := if replies.post.Success? then [Done] else [Rejected(replies.post.raw)];
    var tail := [ResolveAppCatalogUrl(replies.spoUrl.value)] + (log + post + last);
    assert RemoveApp(o, debug, replies) == [ResolveSpoUrl] + tail;
    Trace.CountAppend([ResolveSpoUrl], tail, p);
    Trace.CountAppend([ResolveAppCatalogUrl(replies.spoUrl.value)], log + post + last, p);
    Trace.Count3(log, post, last, p);
  }

  lemma Singletons(e: Event)
    ensures Trace.Count([e], IsTerminal) == if IsTerminal(e) then 1 else 0
    ensures Trace.Count([e], IsPrompt) == if IsPrompt(e) then 1 else 0
    ensures Trace.Count([e], IsPost) == if IsPost(e) then 1 else 0
  {
    Trace.CountOne(e, IsTerminal);
    Trace.CountOne(e, IsPrompt);
    Trace.CountOne(e, IsPost);
  }

  /**
   * Every invocation ends in exactly one outcome, as its last event; the user is
   * asked exactly when `confirm` is not set, and then first; at most one removal
   * request is sent, and one is sent exactly when removal was confirmed (by flag
   * or answer) and both URLs were resolved.
   */
  lemma CommandActionOutcome(o: Options, debug: bool, answer: bool, replies: Replies)
    ensures var t := CommandAction(o, debug, answer, replies);
      && Trace.Count(t, IsTerminal) == 1 && IsTerminal(t[|t| - 1])
      && Trace.Count(t, IsPrompt) == (if o.confirm then 0 else 1)
      && (!o.confirm ==> t[0] == Prompt(PromptMessage(o.id)))
      && Trace.Count(t, IsPost) <= 1
      && (Trace.Count(t, IsPost) == 1 <==>
           (o.confirm || answer) && replies.spoUrl.Success? && replies.appCatalogUrl.Success?)
      && t[|t| - 1] == (if !o.confirm && !answer then Done else RemovalEnd(replies))
      && (t[|t| - 1] == Done <==>
           (!o.confirm && !answer) || (replies.spoUrl.Success? && replies.appCatalogUrl.Success? && replies.post.Success?))
  {
    CommandActionCounts(o, debug, answer, replies);
    CommandActionEnd(o, debug, answer, replies);
  }

  lemma CommandActionCounts(o: Options, debug: bool, answer: bool, replies: Replies)
    ensures var t := CommandAction(o, debug, answer, replies);
      && Trace.Count(t, IsTerminal) == 1 && IsTerminal(t[|t| - 1])
      && Trace.Count(t, IsPrompt) == (if o.confirm then 0 else 1)
      && (!o.confirm ==> t[0] == Prompt(PromptMessage(o.id)))
      && Trace.Count(t, IsPost) <= 1
      && (Trace.Count(t, IsPost) == 1 <==>
           (o.confirm || answer) && replies.spoUrl.Success? && replies.appCatalogUrl.Success?)
  {
    if o.confirm {
      RemoveAppCounts(o, debug, replies);
    } else {
      var p: seq<Event> := [Prompt(PromptMessage(o.id))];
      var rest := AfterPrompt(o, debug, answer, replies);
      assert CommandAction(o, debug, answer, replies) == p + rest;
      AfterPromptCounts(o, debug, answer, replies);
      Singletons(p[0]);
      Trace.CountAppend(p, rest, IsTerminal);
      Trace.CountAppend(p, rest, IsPrompt);
      Trace.CountAppend(p, rest, IsPost);
    }
  }

  lemma CommandActionEnd(o: Options, debug: bool, answer: bool, replies: Replies)
    ensures var t := CommandAction(o, debug, answer, replies);
      && |t| >= 2
      && t[|t| - 1] == (if !o.confirm && !answer then Done else RemovalEnd(replies))
  {
    if o.confirm {
      RemoveAppLast(o, debug, replies);
    } else if answer {
      var rest := RemoveApp(o, debug, replies);
      RemoveAppLast(o, debug, replies);
      assert CommandAction(o, debug, answer, replies) == [Prompt(PromptMessage(o.id))] + rest;
    }
  }

  /** What follows the prompt: the removal on a yes, cb() on a no. */
  function AfterPrompt(o: Options, debug: bool, answer: bool, replies: Replies): seq<Event> {
    if answer then RemoveApp(o, debug, replies) else [Done]
  }

  lemma AfterPromptCounts(o: Options, debug: bool, answer: bool, replies: Replies)
    ensures var rest := AfterPrompt(o, debug, answer, replies);
      && Trace.Count(rest, IsTerminal) == 1 && IsTerminal(rest[|rest| - 1])
      && Trace.Count(rest, IsPrompt) == 0
      && Trace.Count(rest, IsPost) == (if answer && replies.spoUrl.Success? && replies.appCatalogUrl.Success? then 1 else 0)
      && rest[|rest| - 1] == (if !answer then Done else RemovalEnd(replies))
  {
    if answer {
      RemoveAppCounts(o, debug, replies);
    } else {
      Singletons(Done);
    }
  }

  /** Declining ends the invocation successfully, with no lookup and no request. */
  lemma DeclineEndsQuietly(o: Options, debug: bool, replies: Replies)
    requires !o.confirm
    ensures CommandAction(o, debug, false, replies) == [Prompt(PromptMessage(o.id)), Done]
    ensures forall e :: e in CommandAction(o, debug, false, replies) ==> !IsCollaboratorCall(e)
  {
  }

  /** `--confirm` does what a yes answer does, without the prompt. */
  lemma ConfirmSkipsPrompt(o: Options, debug: bool, replies: Replies)
    ensures CommandAction(o.(confirm := true), debug, false, replies)
         == CommandAction(o.(confirm := false), debug, true, replies)[1..]
  {
  }

  /** When everything succeeds, the removal request for this app is the last call, followed by cb(). */
  lemma ConfirmedRemovalPostsTheApp(o: Options, debug: bool, answer: bool, spoUrl: string, catalog: string)
    requires o.confirm || answer
    ensures var t := CommandAction(o, debug, answer, Replies(Success(spoUrl), Success(catalog), Success(())));
      |t| >= 2 && t[|t| - 2] == Post(RemoveRequest(catalog, o)) && t[|t| - 1] == Done
  {
    var replies := Replies(Success(spoUrl), Success(catalog), Success(()));
    var chain := RemoveApp(o, debug, replies);
    var ending: seq<Event> := [Post(RemoveRequest(catalog, o)), Done];
    assert chain == [ResolveSpoUrl, ResolveAppCatalogUrl(spoUrl)] + DebugLog(debug, catalog) + ending;
    if !o.confirm {
      assert CommandAction(o, debug, answer, replies) == [Prompt(PromptMessage(o.id))] + chain;
    }
  }

  // Telemetry.

  /**
   * getTelemetryProperties: the inherited properties, with whether a catalog URL
   * and the confirm flag were given, and the scope as given (`tenant` if none).
   */
  method GetTelemetryProperties(inherited: map<string, string>, o: Options) returns (props: map<string, string>)
    ensures props.Keys == inherited.Keys + {"appCatalogUrl", "confirm", "scope"}
    ensures props["appCatalogUrl"] == BoolText(Truthy(o.appCatalogUrl))
    ensures props["confirm"] == BoolText(o.confirm)
    ensures props["scope"] == if Truthy(o.scope) then o.scope.value else "tenant"
    ensures forall k :: k in inherited && k !in {"appCatalogUrl", "confirm", "scope"} ==> props[k] == inherited[k]
  {
    props := inherited;
    props := props["appCatalogUrl" := BoolText(Truthy(o.appCatalogUrl))];
    props := props["confirm" := BoolText(o.confirm)];
    props := props["scope" := if Truthy(o.scope) then o.scope.value else "tenant"];
  }

  /**
   * The telemetry never carries the catalog URL itself, and its scope, once
   * lower-cased, is the scope the command acts on.
   */
  lemma TelemetryAgreesWithAction(inherited: map<string, string>, o: Options, props: map<string, string>)
    requires props.Keys == inherited.Keys + {"appCatalogUrl", "confirm", "scope"}
    requires props["appCatalogUrl"] == BoolText(Truthy(o.appCatalogUrl))
    requires props["scope"] == if Truthy(o.scope) then o.scope.value else "tenant"
    ensures props["appCatalogUrl"] == "true" || props["appCatalogUrl"] == "false"
    ensures Text.Lower(props["scope"]) == EffectiveScope(o)
  {
    if !Truthy(o.scope) {
      assert Text.Lower("tenant") == "tenant";
    }
  }

  // Options.

  /**
   * The command's own options: `--id` takes a required value, `--appCatalogUrl`
   * and `--scope` optional ones, `--confirm` none; only `--scope` suggests
   * values, and each one is a known scope.
   */
  function OwnOptions(): (r: seq<CommandOption>)
    ensures |r| == 4
    ensures r[0].option == "-i, --id <id>"
    ensures r[1].option == "-u, --appCatalogUrl [appCatalogUrl]"
    ensures r[2].option == "-s, --scope [scope]"
    ensures r[3].option == "--confirm"
    ensures forall i :: 0 <= i < |r| ==> (r[i].autocomplete.Some? <==> i == 2)
    ensures forall s :: s in r[2].autocomplete.value ==> IsKnownScope(s)
  {
    [ CommandOption("-i, --id <id>", None),
      CommandOption("-u, --appCatalogUrl [appCatalogUrl]", None),
      CommandOption("-s, --scope [scope]", Some(["tenant", "sitecollection"])),
      CommandOption("--confirm", None) ]
  }

  /** The command's four options, followed by the inherited ones unchanged and in order. */
  function AllOptions(inherited: seq<CommandOption>): (r: seq<CommandOption>)
    ensures |r| == 4 + |inherited|
    ensures r[..4] == OwnOptions() && r[4..] == inherited
  {
    OwnOptions() + inherited
  }

  /** The values suggested for `--scope` are exactly the two lower-case scope names the validator knows; each passes the scope rule. */
  lemma ScopeSuggestionsMatchValidator(o: Options, s: string)
    ensures s in OwnOptions()[2].autocomplete.value <==> IsKnownScope(s)
    ensures s in OwnOptions()[2].autocomplete.value ==> !ScopeRejected(o.(scope := Some(s)))
  {
    if IsKnownScope(s) {
      assert Text.Lower("tenant") == "tenant";
      assert Text.Lower("sitecollection") == "sitecollection";
    }
  }
}
