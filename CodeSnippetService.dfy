/** CodeSnippetService of Services/CodeSnippetService.cs. The snippets directory is the
    only state; the clock (DateTime.UtcNow) and the ID generator (Guid.NewGuid) are
    parameters. Each operation is stated by a function on the directory, which the
    lemmas below reason about, and performed by a method of SnippetStore, which keeps the
    directory in a field and updates it in place. */
module CodeSnippetService {
  import opened Wrappers
  import opened CodeSnippets
  import opened SnippetJson
  import opened SnippetDirectory
  import opened SnippetListing

  /** The test GetSnippetById applies to an expiring snippet: dead once its expiration
      instant lies strictly before `now` or its counter is not positive. A basic snippet is
      always live. */
  predicate IsLive(s: Snippet, now: Instant) {
    s.Basic? || !(s.expirationTime < now || s.viewCounter <= 0)
  }

  /** The record AddSnippet writes: the caller's snippet with a fresh ID and the current
      time as creation timestamp, whatever the caller had put in either. */
  function Stamped(s: Snippet, freshId: string, now: Instant): (r: Snippet)
    ensures r.id == Some(freshId) && r.creationTimestamp == now
    ensures r.(id := s.id, creationTimestamp := s.creationTimestamp) == s
  {
    s.(id := Some(freshId), creationTimestamp := now)
  }

  /** The directory after AddSnippet. */
  function Added(dir: Directory, s: Snippet, freshId: string, now: Instant): (after: Directory)
    ensures after.Keys == dir.Keys + {FileName(freshId)}
    ensures DeserializeSnippet(after[FileName(freshId)]) == Success(Stamped(s, freshId, now))
    ensures forall name :: name in dir && name != FileName(freshId) ==> after[name] == dir[name]
  {
    DeserializeEncode(Stamped(s, freshId, now));
    dir[FileName(freshId) := Encode(Stamped(s, freshId, now))]
  }

  /** The directory after DeleteSnippetById: the snippet's file is gone, nothing else moved. */
  function Deleted(dir: Directory, id: string): (after: Directory)
    ensures after.Keys == dir.Keys - {FileName(id)}
    ensures forall name :: name in after ==> after[name] == dir[name]
  {
    dir - {FileName(id)}
  }

  /** What a GetSnippetById call returns (null is `Success(None)`, a thrown exception is
      `Failure`) and the directory it leaves behind. */
  datatype GetStep = GetStep(answer: Result<Option<Snippet>, Fault>, after: Directory)

  /** GetSnippetById: an absent file gives null; a file that does not decode throws; a dead
      expiring snippet gives null; a live one has its counter decremented, is written back
      to its file, and is returned decremented; a basic snippet is returned as read. */
  function Get(dir: Directory, id: string, now: Instant): GetStep
  {
    var path := FileName(id);
    if path !in dir then GetStep(Success(None), dir)
    else match DeserializeSnippet(dir[path])
      case Failure(e) => GetStep(Failure(e), dir)
      case Success(s) =>
        if s.Expiring? then
          if !IsLive(s, now) then GetStep(Success(None), dir)
          else
            var viewed := s.(viewCounter := s.viewCounter - 1);
            GetStep(Success(Some(viewed)), dir[path := Encode(viewed)])
        else GetStep(Success(Some(s)), dir)
  }

  /** GetSnippetById writes only when it grants a view of an expiring snippet: it then
      stores exactly the record it returns, which has a counter of at least 0 and an
      expiration instant not before `now`. Otherwise the directory is left as it was, and a
      missing file reads as null. No file is ever created or removed. */
  lemma GetWritesOnlyGrantedViews(dir: Directory, id: string, now: Instant)
    ensures var step := Get(dir, id, now);
      && step.after.Keys == dir.Keys
      && (FileName(id) !in dir ==> step == GetStep(Success(None), dir))
      && (if step.answer.Success? && step.answer.value.Some? && step.answer.value.value.Expiring? then
            var s := step.answer.value.value;
            && 0 <= s.viewCounter
            && now <= s.expirationTime
            && step.after == dir[FileName(id) := Encode(s)]
          else step.after == dir)
  {
  }

  /** A file that cannot be read as a snippet makes GetSnippetById throw, and nothing is
      written. */
  lemma GetCorruptThrows(dir: Directory, id: string, now: Instant)
    requires FileName(id) in dir && DeserializeSnippet(dir[FileName(id)]).Failure?
    ensures Get(dir, id, now) == GetStep(Failure(DeserializeSnippet(dir[FileName(id)]).error), dir)
  {
  }

  /** An expiring snippet past its expiration instant or out of views reads as null, and
      nothing is written. */
  lemma GetDeadIsNull(dir: Directory, id: string, now: Instant, s: Snippet)
    requires FileName(id) in dir && DeserializeSnippet(dir[FileName(id)]) == Success(s)
    requires s.Expiring? && (s.expirationTime < now || s.viewCounter <= 0)
    ensures Get(dir, id, now) == GetStep(Success(None), dir)
  {
  }

  /** A live expiring snippet is returned with its counter one lower, and its file now
      holds exactly that record; every other file is untouched. An expiration instant equal
      to `now` is still live. */
  lemma GetLiveDecrements(dir: Directory, id: string, now: Instant, s: Snippet)
    requires FileName(id) in dir && DeserializeSnippet(dir[FileName(id)]) == Success(s)
    requires s.Expiring? && now <= s.expirationTime && 0 < s.viewCounter
    ensures var viewed := s.(viewCounter := s.viewCounter - 1);
      Get(dir, id, now) == GetStep(Success(Some(viewed)), dir[FileName(id) := Encode(viewed)])
  {
  }

  /** A basic snippet is returned as stored and the directory is untouched. */
  lemma GetBasicIsReadOnly(dir: Directory, id: string, now: Instant, s: Snippet)
    requires FileName(id) in dir && DeserializeSnippet(dir[FileName(id)]) == Success(s)
    requires s.Basic?
    ensures Get(dir, id, now) == GetStep(Success(Some(s)), dir)
  {
  }

  /** The directory after GetSnippetById calls on the same ID, one at each of the instants
      `times`, in order. */
  function ReadsAt(dir: Directory, id: string, times: seq<Instant>): Directory
    decreases |times|
  {
    if times == [] then dir else ReadsAt(Get(dir, id, times[0]).after, id, times[1..])
  }

  /** Reading a snippet right after adding it gives back what was added, stamped with its
      ID and creation time (and one view fewer when it expires), or null when it was
      created dead. */
  lemma GetAfterAdd(dir: Directory, s: Snippet, freshId: string, created: Instant, now: Instant)
    ensures var stored := Stamped(s, freshId, created);
      Get(Added(dir, s, freshId, created), freshId, now).answer ==
        if !IsLive(stored, now) then Success(None)
        else if stored.Expiring? then Success(Some(stored.(viewCounter := stored.viewCounter - 1)))
        else Success(Some(stored))
  {
    var stored := Stamped(s, freshId, created);
    var after := Added(dir, s, freshId, created);
    if stored.Expiring? && IsLive(stored, now) {
      GetLiveDecrements(after, freshId, now, stored);
    }
  }

  /** Adding a snippet changes no read of any other ID. */
  lemma AddLeavesOtherReads(dir: Directory, s: Snippet, freshId: string, created: Instant, id: string, now: Instant)
    requires id != freshId
    ensures Get(Added(dir, s, freshId, created), id, now).answer == Get(dir, id, now).answer
  {
    FileNameInjective(id, freshId);
  }

  /** Deleting twice is deleting once, and a read after a delete returns null. */
  lemma DeleteIsIdempotent(dir: Directory, id: string, now: Instant)
    ensures Deleted(Deleted(dir, id), id) == Deleted(dir, id)
    ensures Get(Deleted(dir, id), id, now) == GetStep(Success(None), Deleted(dir, id))
  {
  }

  /** Deleting a snippet changes no read of any other ID. */
  lemma DeleteLeavesOtherReads(dir: Directory, id: string, other: string, now: Instant)
    requires other != id
    ensures Get(Deleted(dir, id), other, now).answer == Get(dir, other, now).answer
  {
    FileNameInjective(other, id);
  }

  /** The snippets directory, updated in place by the service's operations. */
  class SnippetStore {
    var files: Directory

    constructor (existing: Directory)
      ensures files == existing
    {
      files := existing;
    }

    /** AddSnippet: stamps the snippet and writes it to `{ID}.json`, replacing a file of
        that name only if the generated ID collides with an existing one. */
    method AddSnippet(snippet: Snippet, freshId: string, now: Instant) returns (stored: Snippet)
      modifies this
      ensures stored == Stamped(snippet, freshId, now)
      ensures files == Added(old(files), snippet, freshId, now)
    {
      stored := snippet.(id := Some(freshId), creationTimestamp := now);
      var filePath := FileName(freshId);
      files := files[filePath := Encode(stored)];
    }

    /** GetSnippetById. */
    method GetSnippetById(id: string, now: Instant) returns (r: Result<Option<Snippet>, Fault>)
      modifies this
      ensures GetStep(r, files) == Get(old(files), id, now)
    {
      var filePath := FileName(id);
      if filePath !in files {
        return Success(None);
      }
      var decoded := DeserializeSnippet(files[filePath]);
      if decoded.Failure? {
        return Failure(decoded.error);
      }
      var snippet := decoded.value;
      if snippet.Expiring? {
        if snippet.expirationTime < now || snippet.viewCounter <= 0 {
          return Success(None);
        }
        snippet := snippet.(viewCounter := snippet.viewCounter - 1);
        files := files[filePath := Encode(snippet)];
      }
      return Success(Some(snippet));
    }

    /** GetLatestSnippets, over the file order `listing` the file system enumerates. It reads
        the directory and writes nothing, so it consumes no views. */
    function GetLatestSnippets(listing: seq<string>): (r: Result<seq<Snippet>, Fault>)
      reads this
      requires IsListingOf(listing, files)
      ensures r.Success? ==> |r.value| <= LatestCount && NewestFirst(r.value)
      ensures r.Failure? <==> exists name :: name in files && IsJsonFile(name) && DeserializeSnippet(files[name]).Failure?
    {
      LatestIsNewestFirst(files, listing);
      LatestFailsIffCorruptFile(files, listing);
      LatestSnippets(files, listing)
    }

    /** DeleteSnippetById: removes the file if it exists, and does nothing otherwise. */
    method DeleteSnippetById(id: string)
      modifies this
      ensures files == Deleted(old(files), id)
    {
      var filePath := FileName(id);
      if filePath in files {
        files := files - {filePath};
      }
    }
  }
}
