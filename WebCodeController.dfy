/** The snippet logic of WebCodeController (Controllers/WebCodeController.cs): how a form
    submission chooses and fills in the snippet variant, the placeholder shown for an ID
    that reads as null, and deletion. Routing, redirects and view rendering are not part of
    this model; each action returns the data it hands on (the ID it redirects to, the
    snippet it renders). The controller's service works on the shared snippets directory,
    which the actions receive as a SnippetStore. */
module WebCodeController {
  import opened Wrappers
  import opened CodeSnippets
  import opened SnippetDirectory
  import opened CodeSnippetService
  import opened ViewBudget

  /** `expireMinutes ?? 60`. */
  const DefaultExpireMinutes: int := 60

  /** `viewLimit ?? 10`. */
  const DefaultViewLimit: Int32 := 10

  /** The content of the placeholder shown for a snippet that reads as null. */
  const NotFoundContent: string := "Snippet not found."

  /** A submission asks for an expiring snippet when it gives a positive view limit or a
      positive number of minutes; absent fields count as not positive. */
  predicate IsExpiringRequest(viewLimit: Option<Int32>, expireMinutes: Option<Int32>) {
    (viewLimit.Some? && viewLimit.value > 0) || (expireMinutes.Some? && expireMinutes.value > 0)
  }

  /** DateTime.AddMinutes for a whole number of minutes: exact, and throwing
      ArgumentOutOfRangeException when the result leaves the representable range. */
  function AddMinutes(t: Instant, minutes: int): (r: Result<Instant, Fault>)
    ensures r.Success? <==> 0 <= t + minutes * TicksPerMinute <= MaxTicks
    ensures r.Failure? ==> r.error == ArgumentOutOfRange
    ensures r.Success? ==> r.value - t == minutes * TicksPerMinute
    ensures r.Success? ==> (r.value <= t <==> minutes <= 0)
  {
    var ticks := t + minutes * TicksPerMinute;
    if ticks < 0 || MaxTicks < ticks then Failure(ArgumentOutOfRange) else Success(ticks)
  }

  /** The snippet CreateSnippet builds from the form, at clock reading `now`, before the
      service stamps it. */
  function BuildSnippet(content: Text, name: Text, viewLimit: Option<Int32>, expireMinutes: Option<Int32>,
                        now: Instant): (r: Result<Snippet, Fault>)
    ensures r.Failure? <==>
      IsExpiringRequest(viewLimit, expireMinutes) && AddMinutes(now, expireMinutes.GetOr(DefaultExpireMinutes)).Failure?
    ensures r.Failure? ==> r.error == ArgumentOutOfRange
    ensures r.Success? ==>
      var s := r.value;
      && (s.Expiring? <==> IsExpiringRequest(viewLimit, expireMinutes))
      && s.content == content && s.name == name
      && s.typeTag == Some(Discriminator(s))
      && s.id == None && s.creationTimestamp == 0
    ensures r.Success? && r.value.Expiring? ==>
      && r.value.viewCounter == viewLimit.GetOr(DefaultViewLimit)
      && r.value.expirationTime - now == expireMinutes.GetOr(DefaultExpireMinutes) * TicksPerMinute
  {
    if IsExpiringRequest(viewLimit, expireMinutes) then
      var expiry :- AddMinutes(now, expireMinutes.GetOr(DefaultExpireMinutes));
      var initial := NewExpiring();
      Success(Expiring(initial.id, content, name, initial.creationTimestamp, Some(ExpiringTag),
                       expiry, viewLimit.GetOr(DefaultViewLimit)))
    else
      var initial := NewBasic();
      Success(Basic(initial.id, content, name, initial.creationTimestamp, Some(BasicTag)))
  }

  /** The BasicSnippet ViewSnippet renders in place of a null result: a fresh basic snippet
      with the not-found message, the time of the request and the requested ID. */
  function NotFoundPlaceholder(id: string, shownAt: Instant): (s: Snippet)
    ensures s.Basic? && s.content == Some(NotFoundContent)
    ensures s.id == Some(id) && s.creationTimestamp == shownAt
    ensures s.name == NewBasic().name && s.typeTag == NewBasic().typeTag
  {
    var initial := NewBasic();
    Basic(Some(id), Some(NotFoundContent), initial.name, shownAt, initial.typeTag)
  }

  /** What ViewSnippet renders for a GetSnippetById outcome: the snippet when there is
      one, the placeholder when the result is null; an exception propagates. */
  function Shown(answer: Result<Option<Snippet>, Fault>, id: string, shownAt: Instant): (r: Result<Snippet, Fault>)
    ensures r.Failure? <==> answer.Failure?
    ensures answer.Failure? ==> r.error == answer.error
    ensures answer.Success? && answer.value.Some? ==> r == Success(answer.value.value)
    ensures answer == Success(None) ==> r == Success(NotFoundPlaceholder(id, shownAt))
  {
    match answer
    case Failure(e) => Failure(e)
    case Success(None) => Success(NotFoundPlaceholder(id, shownAt))
    case Success(Some(s)) => Success(s)
  }

  /** A form with neither a positive view limit nor a positive number of minutes gives a
      basic snippet, which never fails to build and reads back unchanged at any time, as
      often as asked. */
  lemma PlainRequestIsPermanent(dir: Directory, content: Text, name: Text, viewLimit: Option<Int32>,
                                expireMinutes: Option<Int32>, freshId: string, buildNow: Instant,
                                storeNow: Instant, now: Instant)
    requires !IsExpiringRequest(viewLimit, expireMinutes)
    ensures var r := BuildSnippet(content, name, viewLimit, expireMinutes, buildNow);
      && r.Success? && r.value.Basic?
      && var after := Added(dir, r.value, freshId, storeNow);
         Get(after, freshId, now) == GetStep(Success(Some(Stamped(r.value, freshId, storeNow))), after)
  {
    var s := BuildSnippet(content, name, viewLimit, expireMinutes, buildNow).value;
    GetBasicIsReadOnly(Added(dir, s, freshId, storeNow), freshId, now, Stamped(s, freshId, storeNow));
  }

  /** A positive view limit with zero or negative minutes gives a snippet that expires no
      later than the moment it was built, so it reads as null from the next tick on. */
  lemma NonPositiveMinutesExpireAtOnce(dir: Directory, content: Text, name: Text, limit: Int32, minutes: Int32,
                                       freshId: string, buildNow: Instant, storeNow: Instant, now: Instant)
    requires 0 < limit && minutes <= 0 && buildNow < now
    requires BuildSnippet(content, name, Some(limit), Some(minutes), buildNow).Success?
    ensures var s := BuildSnippet(content, name, Some(limit), Some(minutes), buildNow).value;
      && s.Expiring? && s.expirationTime <= buildNow
      && Get(Added(dir, s, freshId, storeNow), freshId, now).answer == Success(None)
  {
    var s := BuildSnippet(content, name, Some(limit), Some(minutes), buildNow).value;
    var after := Added(dir, s, freshId, storeNow);
    GetDeadIsNull(after, freshId, now, Stamped(s, freshId, storeNow));
  }

  /** A zero or negative view limit with positive minutes is kept as given, so the snippet
      is stored already exhausted: every read returns null and writes nothing. */
  lemma NonPositiveViewLimitIsDeadOnArrival(dir: Directory, content: Text, name: Text, limit: Int32, minutes: Int32,
                                            freshId: string, buildNow: Instant, storeNow: Instant, now: Instant)
    requires limit <= 0 < minutes
    requires BuildSnippet(content, name, Some(limit), Some(minutes), buildNow).Success?
    ensures var s := BuildSnippet(content, name, Some(limit), Some(minutes), buildNow).value;
      && s.Expiring? && s.viewCounter == limit
      && var after := Added(dir, s, freshId, storeNow);
         Get(after, freshId, now) == GetStep(Success(None), after)
  {
    var s := BuildSnippet(content, name, Some(limit), Some(minutes), buildNow).value;
    var after := Added(dir, s, freshId, storeNow);
    GetDeadIsNull(after, freshId, now, Stamped(s, freshId, storeNow));
  }

  /** A snippet created with a positive view limit `k` and no minutes is shown by exactly
      `k` reads, made at any instants within the default hour after it was built, with
      counters k-1, ..., 0; the read after them returns null whenever it is made. */
  lemma ViewLimitIsHonoured(dir: Directory, content: Text, name: Text, limit: Int32, freshId: string,
                            buildNow: Instant, storeNow: Instant, times: seq<Instant>, now: Instant)
    requires 0 < limit && |times| <= limit
    requires BuildSnippet(content, name, Some(limit), None, buildNow).Success?
    requires forall i :: 0 <= i < |times| ==> times[i] - buildNow <= DefaultExpireMinutes * TicksPerMinute
    requires |times| < limit ==> now - buildNow <= DefaultExpireMinutes * TicksPerMinute
    ensures var s := BuildSnippet(content, name, Some(limit), None, buildNow).value;
      var after := Added(dir, s, freshId, storeNow);
      Get(ReadsAt(after, freshId, times), freshId, now).answer ==
        if |times| < limit then Success(Some(Stamped(s, freshId, storeNow).(viewCounter := limit - |times| - 1)))
        else Success(None)
  {
    var s := BuildSnippet(content, name, Some(limit), None, buildNow).value;
    var stored := Stamped(s, freshId, storeNow);
    ReadsAreCountedByViewCounter(Added(dir, s, freshId, storeNow), freshId, stored, times, now);
  }

  /** CreateSnippet: builds the snippet (reading the clock at `buildNow` when it expires),
      has the service store it with ID `freshId` at `storeNow`, and returns the ID it
      redirects to. A DateTime out of range throws before anything is stored. */
  method CreateSnippet(store: SnippetStore, content: Text, name: Text, viewLimit: Option<Int32>,
                       expireMinutes: Option<Int32>, freshId: string, buildNow: Instant, storeNow: Instant)
    returns (r: Result<string, Fault>)
    modifies store
    ensures match BuildSnippet(content, name, viewLimit, expireMinutes, buildNow)
      case Success(s) => r == Success(freshId) && store.files == Added(old(store.files), s, freshId, storeNow)
      case Failure(e) => r == Failure(e) && store.files == old(store.files)
  {
    var built := BuildSnippet(content, name, viewLimit, expireMinutes, buildNow);
    if built.Failure? {
      return Failure(built.error);
    }
    var stored := store.AddSnippet(built.value, freshId, storeNow);
    return Success(stored.id.value);
  }

  /** ViewSnippet: reads the snippet through the service, consuming a view when it
      expires, and returns what the page renders. */
  method ViewSnippet(store: SnippetStore, id: string, now: Instant, shownAt: Instant) returns (r: Result<Snippet, Fault>)
    modifies store
    ensures var step := Get(old(store.files), id, now);
      store.files == step.after && r == Shown(step.answer, id, shownAt)
  {
    var snippet := store.GetSnippetById(id, now);
    if snippet.Failure? {
      return Failure(snippet.error);
    }
    if snippet.value.None? {
      return Success(NotFoundPlaceholder(id, shownAt));
    }
    return Success(snippet.value.value);
  }

  /** DeleteSnippet: has the service delete the snippet with this ID. */
  method DeleteSnippet(store: SnippetStore, id: string)
    modifies store
    ensures store.files == Deleted(old(store.files), id)
    ensures FileName(id) !in store.files
  {
    store.DeleteSnippetById(id);
  }
}
